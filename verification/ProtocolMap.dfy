/** The table from protocol numbers to handlers, which moves entries forward as they are looked up. */
module ProtocolMap {
  import opened Wrappers

  const TWO64: int := 0x1_0000_0000_0000_0000

  type u64 = x: int | 0 <= x < 0x1_0000_0000_0000_0000

  /** A slot; key 0 means that it is free. */
  datatype KeyVal<V> = KeyVal(key: u64, priority: u64, value: V)

  /** The first slot that is free or holds `key`. */
  function Find<V>(m: seq<KeyVal<V>>, key: u64): (i: nat)
    ensures i <= |m|
    ensures i < |m| ==> m[i].key == 0 || m[i].key == key
    ensures forall j | 0 <= j < i :: m[j].key != 0 && m[j].key != key
  {
    if m == [] || m[0].key == 0 || m[0].key == key then 0 else 1 + Find(m[1..], key)
  }

  lemma {:induction false} FindIs<V>(m: seq<KeyVal<V>>, key: u64, i: nat)
    requires i <= |m|
    requires i < |m| ==> m[i].key == 0 || m[i].key == key
    requires forall j | 0 <= j < i :: m[j].key != 0 && m[j].key != key
    ensures Find(m, key) == i
  {
    if i > 0 {
      assert forall j | 0 <= j < i - 1 :: m[1..][j] == m[j + 1];
      FindIs(m[1..], key, i - 1);
    }
  }

  predicate Holds<V>(m: seq<KeyVal<V>>, key: u64) { Find(m, key) < |m| && m[Find(m, key)].key == key != 0 }

  /** The table read as an association list: the first entry with the key. */
  function Lookup<V>(m: seq<KeyVal<V>>, key: u64): Option<V>
  {
    if Holds(m, key) then Some(m[Find(m, key)].value) else None
  }

  /** The free slots come after all entries. */
  predicate Compact<V>(m: seq<KeyVal<V>>)
  {
    forall i, j | 0 <= i < j < |m| :: m[i].key == 0 ==> m[j].key == 0
  }

  /** add_value; a full table stays as it is. */
  function Added<V>(m: seq<KeyVal<V>>, key: u64, value: V): seq<KeyVal<V>>
  {
    var i := Find(m, 0);
    if i < |m| then m[i := KeyVal(key, 0, value)] else m
  }

  function Touched<V>(m: seq<KeyVal<V>>, i: nat): seq<KeyVal<V>>
    requires i < |m|
  {
    m[i := m[i].(priority := (m[i].priority + 1) % TWO64)]
  }

  /** The entry found is moved in front of its neighbour when its priority has become the higher one. */
  predicate Swaps<V>(m: seq<KeyVal<V>>, i: nat)
    requires i < |m|
  {
    i > 0 && Touched(m, i)[i].priority > m[i - 1].priority
  }

  /** The index of the scan is 8 bits wide: after this many slots it starts again at 0. */
  const INDICES: nat := 0x100

  /** The scan stops at slot `i`. */
  predicate Stops<V>(m: seq<KeyVal<V>>, key: u64, i: nat) { i >= |m| || m[i].key == 0 || m[i].key == key }

  /** The scan ends at all, within the slots its index can name. */
  predicate Ends<V>(m: seq<KeyVal<V>>, key: u64) { Find(m, key) < INDICES }

  /** The table after a hit on slot `i`. */
  function Moved<V>(m: seq<KeyVal<V>>, i: nat): (r: seq<KeyVal<V>>)
    requires i < |m|
    ensures |r| == |m|
  {
    var t := Touched(m, i);
    if Swaps(m, i) then t[i - 1 := t[i]][i := t[i - 1]] else t
  }

  /** The table after get_value; a scan that goes round for ever changes nothing. */
  function Looked<V>(m: seq<KeyVal<V>>, key: u64): seq<KeyVal<V>>
  {
    if Holds(m, key) && Ends(m, key) then Moved(m, Find(m, key)) else m
  }

  datatype Answer<V> = Scanning | Returned(value: Option<V>)

  /** What get_value returns, if it returns: slot `i` is read after the exchange. */
  function Answered<V>(m: seq<KeyVal<V>>, key: u64): Answer<V>
  {
    if !Ends(m, key) then Scanning
    else if !Holds(m, key) then Returned(None)
    else Returned(Some(Looked(m, key)[Find(m, key)].value))
  }

  /** The slots the scan looks at are those of its rounds modulo 256: one of them stops it exactly when the first
      slot that would stop it has an index. */
  lemma ScanEndsExactly<V>(m: seq<KeyVal<V>>, key: u64)
    ensures (exists n: nat :: Stops(m, key, n % 256)) <==> Ends(m, key)
  {
    var f := Find(m, key);
    if f < 256 {
      assert Stops(m, key, f % 256);
    } else {
      forall n: nat ensures !Stops(m, key, n % 256) {
        assert n % 256 < f;
      }
    }
  }

  class PriorityMap<V(0)> {
    const slots: array<KeyVal<V>>

    constructor (maxSize: nat)
      requires maxSize < 0x1_0000
      ensures fresh(slots) && slots.Length == maxSize && forall i | 0 <= i < maxSize :: slots[i].key == 0
    {
      slots := new KeyVal<V>[maxSize];
      new;
      var i := 0;
      while i < maxSize
        invariant 0 <= i <= maxSize && forall j | 0 <= j < i :: slots[j].key == 0
      {
        slots[i] := slots[i].(key := 0, priority := 0);
        i := i + 1;
      }
    }

    method AddValue(key: u64, value: V) returns (r: int)
      modifies slots
      ensures slots[..] == Added(old(slots[..]), key, value)
      ensures r == if Find(old(slots[..]), 0) < slots.Length then 0 else -1
    {
      var i := 0;
      while i < slots.Length
        invariant 0 <= i <= slots.Length && slots[..] == old(slots[..])
        invariant forall j | 0 <= j < i :: slots[j].key != 0
      {
        if slots[i].key == 0 {
          FindIs(slots[..], 0, i);
          slots[i] := KeyVal(key, 0, value);
          return 0;
        }
        i := i + 1;
      }
      FindIs(slots[..], 0, i);
      r := -1;
    }

    /** Slot `i` holds the key: count the hit, move the slot forward if that puts it ahead, then read slot `i`. */
    method Hit(i: nat) returns (value: V)
      requires i < slots.Length
      modifies slots
      ensures slots[..] == Moved(old(slots[..]), i) && value == slots[i].value
    {
      slots[i] := slots[i].(priority := (slots[i].priority + 1) % TWO64);
      if i > 0 && slots[i].priority > slots[i - 1].priority {
        var temp := slots[i - 1];
        slots[i - 1] := slots[i];
        slots[i] := temp;
      }
      value := slots[i].value;
    }

    /** As much of get_value as happens while its loop tests its condition `patience` times. */
    method GetValue(key: u64, patience: nat) returns (r: Answer<V>)
      modifies slots
      ensures var m := old(slots[..]);
        if Ends(m, key) && Find(m, key) < patience then slots[..] == Looked(m, key) && r == Answered(m, key)
        else slots[..] == m && r == Scanning
    {
      hide Find, Moved;
      var i, n := 0, 0;
      while n < patience
        invariant 0 <= n <= patience && i == n % INDICES && slots[..] == old(slots[..])
        invariant n <= Find(slots[..], key) || !Ends(slots[..], key)
      {
        if i >= slots.Length || slots[i].key == 0 {
          StopIs(slots[..], key, n);
          return Returned(None);
        }
        if slots[i].key == key {
          StopIs(slots[..], key, n);
          var value := Hit(i);
          return Returned(Some(value));
        }
        assert !Stops(slots[..], key, i);
        n := n + 1;
        i := (i + 1) % INDICES;
      }
      r := Scanning;
    }
  }

  /** A scan that has gone on for `n` rounds and stops now has found the first slot that stops it. */
  lemma StopIs<V>(m: seq<KeyVal<V>>, key: u64, n: nat)
    requires n <= Find(m, key) || !Ends(m, key)
    requires Stops(m, key, n % INDICES)
    ensures Find(m, key) == n < INDICES
  {
    if n % INDICES >= |m| { assert Find(m, key) <= |m| <= n % INDICES; }
  }

  // ---------------------------------------------------------------- the table as an association list

  /** A lookup changes no other lookup, however it reorders the table. */
  lemma LookupSurvivesReordering<V>(m: seq<KeyVal<V>>, key: u64, other: u64)
    ensures Lookup(Looked(m, key), other) == Lookup(m, other)
  {
    if Holds(m, key) && Ends(m, key) && other != 0 {
      var i, r := Find(m, key), Looked(m, key);
      var j := Find(m, other);
      if Swaps(m, i) && j == i { FindIs(r, other, i - 1); }
      else if Swaps(m, i) && j == i - 1 { FindIs(r, other, i); }
      else { FindIs(r, other, j); }
    }
  }

  /** An added entry is found under its key, unless one was there before: the first registration stays. */
  lemma FirstRegistrationStays<V>(m: seq<KeyVal<V>>, key: u64, value: V, other: u64)
    requires key != 0 && Compact(m) && Find(m, 0) < |m|
    ensures Lookup(Added(m, key, value), other) ==
            if other == key && Lookup(m, key) == None then Some(value) else Lookup(m, other)
  {
    var i, r := Find(m, 0), Added(m, key, value);
    var j := Find(m, other);
    if j < i || other == key {
      FindIs(r, other, if j < i then j else i);
    } else {
      assert j == i;
      FindIs(r, other, if i + 1 < |m| then i + 1 else |m|);
    }
  }

  // ---------------------------------------------------------------- runs

  datatype Op<V> = Add(key: u64, value: V) | Get(key: u64)

  function Apply<V>(m: seq<KeyVal<V>>, op: Op<V>): seq<KeyVal<V>>
  {
    match op
    case Add(k, v) => Added(m, k, v)
    case Get(k) => Looked(m, k)
  }

  function ApplyAll<V>(m: seq<KeyVal<V>>, ops: seq<Op<V>>): seq<KeyVal<V>>
  {
    if ops == [] then m else Apply(ApplyAll(m, ops[..|ops| - 1]), ops[|ops| - 1])
  }

  /** The registrations of a run, in order. */
  function Registered<V>(ops: seq<Op<V>>): seq<(u64, V)>
  {
    if ops == [] then []
    else
      var op := ops[|ops| - 1];
      Registered(ops[..|ops| - 1]) + if op.Add? then [(op.key, op.value)] else []
  }

  function FirstOf<V>(l: seq<(u64, V)>, key: u64): Option<V>
  {
    if l == [] then None
    else
      var before := FirstOf(l[..|l| - 1], key);
      if before == None && l[|l| - 1].0 == key then Some(l[|l| - 1].1) else before
  }

  ghost function Entry<V>(kv: KeyVal<V>): multiset<(u64, V)>
  {
    if kv.key == 0 then multiset{} else multiset{(kv.key, kv.value)}
  }

  /** The entries of the table without their priorities. */
  ghost function Entries<V>(m: seq<KeyVal<V>>): multiset<(u64, V)>
  {
    if m == [] then multiset{} else Entry(m[0]) + Entries(m[1..])
  }

  predicate Blank<V>(m: seq<KeyVal<V>>) { forall i | 0 <= i < |m| :: m[i].key == 0 }

  /** `n` slots are used, at the front. */
  predicate Used<V>(m: seq<KeyVal<V>>, n: nat)
  {
    n <= |m| && (forall i | 0 <= i < n :: m[i].key != 0) && forall i | n <= i < |m| :: m[i].key == 0
  }

  lemma {:induction false} EntriesUpdate<V>(m: seq<KeyVal<V>>, i: nat, kv: KeyVal<V>)
    requires i < |m|
    ensures Entries(m[i := kv]) + Entry(m[i]) == Entries(m) + Entry(kv)
  {
    hide Entry;
    var u := m[i := kv];
    if i == 0 {
      assert u[1..] == m[1..];
    } else {
      assert u[1..] == m[1..][i - 1 := kv] && u[0] == m[0] && m[1..][i - 1] == m[i];
      EntriesUpdate(m[1..], i - 1, kv);
      Regroup(Entry(m[0]), Entries(u[1..]), Entry(m[i]), Entries(m[1..]), Entry(kv));
    }
  }

  lemma Regroup<T>(a: multiset<T>, x: multiset<T>, b: multiset<T>, y: multiset<T>, c: multiset<T>)
    requires x + b == y + c
    ensures (a + x) + b == (a + y) + c
  {
    assert (a + x) + b == a + (x + b) && (a + y) + c == a + (y + c);
  }

  lemma TouchedEntries<V>(m: seq<KeyVal<V>>, i: nat)
    requires i < |m|
    ensures Entries(Touched(m, i)) == Entries(m)
  {
    var kv := Touched(m, i)[i];
    EntriesUpdate(m, i, kv);
    assert Entry(kv) == Entry(m[i]);
    Cancel(Entries(m[i := kv]), Entries(m), Entry(m[i]));
  }

  lemma ExchangedEntries<V>(t: seq<KeyVal<V>>, i: nat)
    requires 0 < i < |t|
    ensures Entries(t[i - 1 := t[i]][i := t[i - 1]]) == Entries(t)
  {
    hide Entries, Entry;
    var u := t[i - 1 := t[i]];
    EntriesUpdate(t, i - 1, t[i]);
    EntriesUpdate(u, i, t[i - 1]);
    assert u[i] == t[i];
    Exchange(Entries(t), Entries(u), Entries(u[i := t[i - 1]]), Entry(t[i - 1]), Entry(t[i]));
  }

  lemma LookedEntries<V>(m: seq<KeyVal<V>>, key: u64)
    ensures Entries(Looked(m, key)) == Entries(m)
  {
    hide Entries;
    if Holds(m, key) {
      var i := Find(m, key);
      TouchedEntries(m, i);
      if Swaps(m, i) { ExchangedEntries(Touched(m, i), i); }
    }
  }

  lemma Cancel<T>(x: multiset<T>, y: multiset<T>, a: multiset<T>)
    requires x + a == y + a
    ensures x == y
  {
    forall e ensures x[e] == y[e] { assert (x + a)[e] == (y + a)[e]; }
  }

  lemma Exchange<T>(t: multiset<T>, u: multiset<T>, v: multiset<T>, a: multiset<T>, b: multiset<T>)
    requires u + a == t + b && v + b == u + a
    ensures v == t
  {
    Cancel(v, t, b);
  }

  lemma AddedEntries<V>(m: seq<KeyVal<V>>, key: u64, value: V)
    requires key != 0 && Find(m, 0) < |m|
    ensures Entries(Added(m, key, value)) == Entries(m) + multiset{(key, value)}
  {
    EntriesUpdate(m, Find(m, 0), KeyVal(key, 0, value));
  }

  lemma {:induction false} BlankEntries<V>(m: seq<KeyVal<V>>)
    requires Blank(m)
    ensures Entries(m) == multiset{}
  {
    if m != [] {
      BlankEntries(m[1..]);
    }
  }

  /** What a run of registrations `l` and lookups has made of the table. */
  ghost predicate Means<V>(r: seq<KeyVal<V>>, l: seq<(u64, V)>)
  {
    && Used(r, |l|)
    && Entries(r) == multiset(l)
    && forall key: u64 :: Lookup(r, key) == FirstOf(l, key)
  }

  lemma GetMeans<V>(r: seq<KeyVal<V>>, l: seq<(u64, V)>, k: u64)
    requires Means(r, l)
    ensures Means(Looked(r, k), l)
  {
    hide Lookup, Entries, FirstOf;
    LookedEntries(r, k);
    forall key: u64 ensures Lookup(Looked(r, k), key) == FirstOf(l, key) {
      LookupSurvivesReordering(r, k, key);
    }
  }

  lemma AddMeans<V>(r: seq<KeyVal<V>>, l: seq<(u64, V)>, k: u64, v: V)
    requires Means(r, l) && |l| < |r| && k != 0
    ensures Means(Added(r, k, v), l + [(k, v)])
  {
    hide Lookup, Entries;
    var l' := l + [(k, v)];
    FindIs(r, 0, |l|);
    AddedEntries(r, k, v);
    assert l'[..|l|] == l;
    forall key: u64 ensures Lookup(Added(r, k, v), key) == FirstOf(l', key) {
      FirstRegistrationStays(r, k, v, key);
    }
  }

  /** Over any run of registrations that fit and lookups: the used slots are a prefix holding exactly what was
      registered, and every key means the value first registered under it, whatever the lookups moved. */
  lemma {:induction false} TableIsAssociationList<V>(m: seq<KeyVal<V>>, ops: seq<Op<V>>)
    requires Blank(m)
    requires forall op | op in ops && op.Add? :: op.key != 0
    requires |Registered(ops)| <= |m|
    ensures |ApplyAll(m, ops)| == |m| && Means(ApplyAll(m, ops), Registered(ops))
  {
    hide Means;
    if ops == [] {
      BlankMeans(m);
    } else {
      var front, op := ops[..|ops| - 1], ops[|ops| - 1];
      TableIsAssociationList(m, front);
      match op {
        case Get(k) =>
          assert Registered(front) + [] == Registered(front);
          GetMeans(ApplyAll(m, front), Registered(front), k);
        case Add(k, v) => AddMeans(ApplyAll(m, front), Registered(front), k, v);
      }
    }
  }

  lemma BlankMeans<V>(m: seq<KeyVal<V>>)
    requires Blank(m)
    ensures Means(m, [])
  {
    BlankEntries(m);
    forall key: u64 ensures Lookup(m, key) == FirstOf([], key) {
      FindIs(m, key, 0);
    }
  }

  // ---------------------------------------------------------------- what lookups count

  /** A lookup finds an entry, and in time. */
  predicate Reaches<V>(r: seq<KeyVal<V>>, key: u64) { Holds(r, key) && Ends(r, key) }

  /** How many lookups of a run have found an entry under `key`. */
  function Lookups<V>(m: seq<KeyVal<V>>, ops: seq<Op<V>>, key: u64): nat
  {
    if ops == [] then 0
    else
      var front, op := ops[..|ops| - 1], ops[|ops| - 1];
      Lookups(m, front, key) + if op == Get(key) && Reaches(ApplyAll(m, front), key) then 1 else 0
  }

  /** How many of them have found slot `j`: all under its key, if no slot before it has that key, and none otherwise. */
  function HitsAt<V>(r: seq<KeyVal<V>>, m: seq<KeyVal<V>>, ops: seq<Op<V>>, j: nat): nat
    requires j < |r|
  {
    if Find(r, r[j].key) == j then Lookups(m, ops, r[j].key) else 0
  }

  ghost predicate Counted<V>(r: seq<KeyVal<V>>, m: seq<KeyVal<V>>, ops: seq<Op<V>>)
  {
    && Compact(r)
    && (forall j | 0 <= j < |r| && r[j].key != 0 :: r[j].priority == HitsAt(r, m, ops, j) % TWO64)
    && (forall key: u64 | Lookups(m, ops, key) > 0 :: Holds(r, key))
  }

  /** Where the entry of slot `j` is after a hit on slot `i`. */
  function Moves<V>(r: seq<KeyVal<V>>, i: nat, j: nat): nat
    requires i < |r|
  {
    if Swaps(r, i) && j == i then i - 1 else if Swaps(r, i) && j == i - 1 then i else j
  }

  /** A hit keeps the first slot of every key first. */
  lemma FirstStaysFirst<V>(r: seq<KeyVal<V>>, key: u64, other: u64)
    requires Reaches(r, key) && Holds(r, other)
    ensures Holds(Looked(r, key), other)
    ensures Find(Looked(r, key), other) == Moves(r, Find(r, key), Find(r, other))
  {
    FindIs(Looked(r, key), other, Moves(r, Find(r, key), Find(r, other)));
  }

  lemma LookupsOfOneMore<V>(m: seq<KeyVal<V>>, front: seq<Op<V>>, op: Op<V>, key: u64)
    ensures ApplyAll(m, front + [op]) == Apply(ApplyAll(m, front), op)
    ensures Lookups(m, front + [op], key) ==
            Lookups(m, front, key) + if op == Get(key) && Reaches(ApplyAll(m, front), key) then 1 else 0
  {
    assert (front + [op])[..|front|] == front;
  }

  lemma HitKeepsCount<V>(m: seq<KeyVal<V>>, front: seq<Op<V>>, key: u64)
    requires var r := ApplyAll(m, front); Counted(r, m, front) && Reaches(r, key)
    ensures var ops := front + [Get(key)]; Counted(ApplyAll(m, ops), m, ops)
  {
    hide Find, Moved, Ends, ApplyAll, Lookups, Swaps;
    var ops, r := front + [Get(key)], ApplyAll(m, front);
    LookupsOfOneMore(m, front, Get(key), key);
    var n, i := ApplyAll(m, ops), Find(r, key);
    forall j | 0 <= j < |n| && n[j].key != 0 ensures n[j].priority == HitsAt(n, m, ops, j) % TWO64 {
      MovesBack(r, i, j);
      MovedIs(r, i, Moves(r, i, j));
      HitCounts(m, front, key, r, n, Moves(r, i, j));
    }
    forall q: u64 | Lookups(m, ops, q) > 0 ensures Holds(n, q) {
      LookupsOfOneMore(m, front, Get(key), q);
      FirstStaysFirst(r, key, q);
    }
    MovedIsCompact(r, i);
  }

  lemma MovedIs<V>(r: seq<KeyVal<V>>, i: nat, j: nat)
    requires i < |r| && j < |r|
    ensures Moves(r, i, j) < |r|
    ensures Moved(r, i)[Moves(r, i, j)] == if j == i then r[i].(priority := (r[i].priority + 1) % TWO64) else r[j]
  {
  }

  lemma MovedIsCompact<V>(r: seq<KeyVal<V>>, i: nat)
    requires i < |r| && r[i].key != 0 && Compact(r)
    ensures Compact(Moved(r, i))
  {
    assert forall j | 0 <= j < |r| :: Moved(r, i)[j].key == 0 <==> r[j].key == 0;
  }

  lemma MovesBack<V>(r: seq<KeyVal<V>>, i: nat, j: nat)
    requires i < |r|
    ensures Moves(r, i, Moves(r, i, j)) == j
  {
  }

  /** The slot `j` before the hit, followed to where it is afterwards. */
  lemma HitCounts<V>(m: seq<KeyVal<V>>, front: seq<Op<V>>, key: u64, r: seq<KeyVal<V>>, n: seq<KeyVal<V>>, j: nat)
    requires r == ApplyAll(m, front) && Counted(r, m, front)
    requires Reaches(r, key) && n == Moved(r, Find(r, key)) && j < |r| && r[j].key != 0
    ensures var d := Moves(r, Find(r, key), j);
      d < |n| && n[d].priority == HitsAt(n, m, front + [Get(key)], d) % TWO64
  {
    hide Find, Moved, ApplyAll, Lookups, Swaps;
    var i, q := Find(r, key), r[j].key;
    var d := Moves(r, i, j);
    MovedIs(r, i, j);
    FindAtMost(r, q, j);
    FirstStaysFirst(r, key, q);
    LookupsOfOneMore(m, front, Get(key), q);
    Apart(r, i, j, Find(r, q));
    Wrapped(Lookups(m, front, q));
  }

  /** No two slots move to the same place. */
  lemma Apart<V>(r: seq<KeyVal<V>>, i: nat, j: nat, k: nat)
    requires i < |r|
    ensures Moves(r, i, j) == Moves(r, i, k) <==> j == k
  {
  }

  lemma Wrapped(n: nat)
    ensures (n % TWO64 + 1) % TWO64 == (n + 1) % TWO64
  {
  }

  lemma {:induction false} FindAtMost<V>(r: seq<KeyVal<V>>, key: u64, j: nat)
    requires j < |r| && r[j].key == key != 0 && forall i | 0 <= i <= j :: r[i].key != 0
    ensures Find(r, key) <= j && Holds(r, key)
  {
    if j > 0 && r[0].key != key {
      FindAtMost(r[1..], key, j - 1);
    }
  }


  lemma MissKeepsCount<V>(m: seq<KeyVal<V>>, front: seq<Op<V>>, key: u64)
    requires var r := ApplyAll(m, front); Counted(r, m, front) && !Reaches(r, key)
    ensures var ops := front + [Get(key)]; Counted(ApplyAll(m, ops), m, ops)
  {
    hide Find;
    var ops, r := front + [Get(key)], ApplyAll(m, front);
    assert ops[..|ops| - 1] == front;
    assert forall q: u64 :: Lookups(m, ops, q) == Lookups(m, front, q);
    assert forall j | 0 <= j < |r| :: HitsAt(r, m, ops, j) == HitsAt(r, m, front, j);
  }

  lemma AddKeepsCount<V>(m: seq<KeyVal<V>>, front: seq<Op<V>>, key: u64, value: V)
    requires var r := ApplyAll(m, front); key != 0 && Counted(r, m, front) && Find(r, 0) < |r|
    ensures var ops := front + [Add(key, value)]; Counted(ApplyAll(m, ops), m, ops)
  {
    hide Find, ApplyAll, Lookups;
    var ops, r := front + [Add(key, value)], ApplyAll(m, front);
    var op: Op<V> := Add(key, value);
    LookupsOfOneMore(m, front, op, key);
    var n := ApplyAll(m, ops);
    forall q: u64 | Lookups(m, ops, q) > 0 ensures Holds(n, q) {
      LookupsOfOneMore(m, front, op, q);
      AddedFind(r, key, value, q);
    }
    forall j | 0 <= j < |n| && n[j].key != 0 ensures n[j].priority == HitsAt(n, m, ops, j) % TWO64 {
      LookupsOfOneMore(m, front, op, n[j].key);
      AddedFind(r, key, value, n[j].key);
      if j != Find(r, 0) { FindAtMost(r, n[j].key, j); }
    }
    AddedIsCompact(r, key, value);
  }

  lemma AddedIsCompact<V>(r: seq<KeyVal<V>>, key: u64, value: V)
    requires Compact(r) && key != 0
    ensures Compact(Added(r, key, value))
  {
  }

  lemma AddedFind<V>(r: seq<KeyVal<V>>, key: u64, value: V, q: u64)
    requires q != 0 && key != 0 && Compact(r) && Find(r, 0) < |r|
    ensures Holds(r, q) ==> Find(Added(r, key, value), q) == Find(r, q) < Find(r, 0) && Holds(Added(r, key, value), q)
  {
    if Holds(r, q) {
      assert Find(r, q) < Find(r, 0);
      FindIs(Added(r, key, value), q, Find(r, q));
    }
  }

  /** After any run of registrations that fit and lookups, the priority of a used slot is the number of lookups that
      have found it. */
  lemma {:induction false} PriorityCountsHits<V>(m: seq<KeyVal<V>>, ops: seq<Op<V>>)
    requires Blank(m)
    requires forall op | op in ops && op.Add? :: op.key != 0
    requires |Registered(ops)| <= |m|
    ensures Counted(ApplyAll(m, ops), m, ops)
  {
    hide Counted;
    if ops == [] {
      BlankCounts(m);
    } else {
      var front, op := ops[..|ops| - 1], ops[|ops| - 1];
      PriorityCountsHits(m, front);
      assert ops == front + [op];
      match op {
        case Get(k) =>
          if Reaches(ApplyAll(m, front), k) { HitKeepsCount(m, front, k); } else { MissKeepsCount(m, front, k); }
        case Add(k, v) =>
          TableIsAssociationList(m, front);
          FindIs(ApplyAll(m, front), 0, |Registered(front)|);
          AddKeepsCount(m, front, k, v);
      }
    }
  }

  lemma BlankCounts<V>(m: seq<KeyVal<V>>)
    requires Blank(m)
    ensures Counted(m, m, [])
  {
  }

  // ---------------------------------------------------------------- what get_value returns

  /** Counting this one, the entry under `key` has been found more often than the one in front of it. */
  predicate Overtakes<V>(m: seq<KeyVal<V>>, ops: seq<Op<V>>, key: u64)
  {
    var r := ApplyAll(m, ops);
    var i := Find(r, key);
    0 < i < |r| && (Lookups(m, ops, key) + 1) % TWO64 > HitsAt(r, m, ops, i - 1) % TWO64
  }

  predicate SameEntry<V(==)>(a: KeyVal<V>, b: KeyVal<V>) { a.key == b.key && a.value == b.value }

  /** A lookup moves its entry one place forward exactly if it overtakes, and moves no other but the one it passes. */
  lemma MovesForwardExactly<V>(m: seq<KeyVal<V>>, ops: seq<Op<V>>, key: u64)
    requires Blank(m)
    requires forall op | op in ops && op.Add? :: op.key != 0
    requires |Registered(ops)| <= |m|
    requires Reaches(ApplyAll(m, ops), key)
    ensures var r, n := ApplyAll(m, ops), ApplyAll(m, ops + [Get(key)]);
      var i := Find(r, key);
      && |n| == |r| && (Find(n, key) == i - 1 <==> Overtakes(m, ops, key)) && Find(n, key) <= i
      && (if Overtakes(m, ops, key) then SameEntry(n[i - 1], r[i]) && SameEntry(n[i], r[i - 1])
          else SameEntry(n[i], r[i]) && (i > 0 ==> n[i - 1] == r[i - 1]))
      && forall j | 0 <= j < |r| && j != i && j != i - 1 :: n[j] == r[j]
  {
    hide Counted;
    PriorityCountsHits(m, ops);
    SwapsIsOvertakes(m, ops, key);
    assert (ops + [Get(key)])[..|ops|] == ops;
    FirstStaysFirst(ApplyAll(m, ops), key, key);
  }

  lemma SwapsIsOvertakes<V>(m: seq<KeyVal<V>>, ops: seq<Op<V>>, key: u64)
    requires Counted(ApplyAll(m, ops), m, ops) && Reaches(ApplyAll(m, ops), key)
    ensures Swaps(ApplyAll(m, ops), Find(ApplyAll(m, ops), key)) <==> Overtakes(m, ops, key)
  {
    hide Lookups, ApplyAll, Swaps, Find, HitsAt, Ends;
    var r := ApplyAll(m, ops);
    var i := Find(r, key);
    OwnHits(r, m, ops, key);
    NoneFreeBefore(r, key);
    SwapsByCount(r, i, Lookups(m, ops, key), if i > 0 then HitsAt(r, m, ops, i - 1) else 0);
  }

  lemma OwnHits<V>(r: seq<KeyVal<V>>, m: seq<KeyVal<V>>, ops: seq<Op<V>>, key: u64)
    requires Holds(r, key)
    ensures HitsAt(r, m, ops, Find(r, key)) == Lookups(m, ops, key)
  {
  }

  lemma NoneFreeBefore<V>(r: seq<KeyVal<V>>, key: u64)
    requires Holds(r, key)
    ensures forall j | 0 <= j <= Find(r, key) :: r[j].key != 0
  {
  }

  lemma SwapsByCount<V>(r: seq<KeyVal<V>>, i: nat, own: nat, front: nat)
    requires i < |r| && r[i].priority == own % TWO64 && (i > 0 ==> r[i - 1].priority == front % TWO64)
    ensures Swaps(r, i) <==> i > 0 && (own + 1) % TWO64 > front % TWO64
  {
    Wrapped(own);
  }

  /** After any run a lookup returns the value first registered under its key, exactly when its scan ends and it does
      not overtake an entry with another value. */
  lemma ReturnedExactly<V>(m: seq<KeyVal<V>>, ops: seq<Op<V>>, key: u64)
    requires Blank(m)
    requires forall op | op in ops && op.Add? :: op.key != 0
    requires |Registered(ops)| <= |m|
    ensures var r := ApplyAll(m, ops);
      var i := Find(r, key);
      Answered(r, key) == Returned(FirstOf(Registered(ops), key)) <==>
      Ends(r, key) && !(Holds(r, key) && Overtakes(m, ops, key) && r[i - 1].value != r[i].value)
  {
    hide Counted, Overtakes;
    TableIsAssociationList(m, ops);
    PriorityCountsHits(m, ops);
    var r := ApplyAll(m, ops);
    if Reaches(r, key) {
      SwapsIsOvertakes(m, ops, key);
      InFront(m, ops, key);
    }
  }

  lemma InFront<V>(m: seq<KeyVal<V>>, ops: seq<Op<V>>, key: u64)
    ensures Overtakes(m, ops, key) ==> 0 < Find(ApplyAll(m, ops), key)
  {
  }

  function Adds<V>(l: seq<(u64, V)>): seq<Op<V>>
  {
    if l == [] then [] else Adds(l[..|l| - 1]) + [Add(l[|l| - 1].0, l[|l| - 1].1)]
  }

  /** Registrations alone fill the slots in order, with priority 0. */
  lemma {:induction false} AddsInOrder<V>(m: seq<KeyVal<V>>, l: seq<(u64, V)>)
    requires Blank(m) && |l| <= |m| && forall i | 0 <= i < |l| :: l[i].0 != 0
    ensures var r := ApplyAll(m, Adds(l));
      && |r| == |m| && Used(r, |l|)
      && forall i | 0 <= i < |l| :: r[i] == KeyVal(l[i].0, 0, l[i].1)
  {
    if l != [] {
      var v, x := l[..|l| - 1], l[|l| - 1];
      AddsInOrder(m, v);
      assert Adds(l)[..|Adds(v)|] == Adds(v);
      FindIs(ApplyAll(m, Adds(v)), 0, |v|);
    }
  }

  lemma {:induction false} AddsRegister<V>(l: seq<(u64, V)>)
    ensures Registered(Adds(l)) == l
  {
    if l != [] {
      var v, x := l[..|l| - 1], l[|l| - 1];
      AddsRegister(v);
      assert Adds(l)[..|Adds(l)| - 1] == Adds(v);
    }
  }

  lemma {:induction false} FirstOfIs<V>(l: seq<(u64, V)>, i: nat)
    requires i < |l| && forall j | 0 <= j < i :: l[j].0 != l[i].0
    ensures FirstOf(l, l[i].0) == Some(l[i].1)
  {
    var v := l[..|l| - 1];
    if i < |v| {
      FirstOfIs(v, i);
    } else {
      FirstOfNone(v, l[i].0);
    }
  }

  lemma {:induction false} FirstOfNone<V>(l: seq<(u64, V)>, key: u64)
    requires forall j | 0 <= j < |l| :: l[j].0 != key
    ensures FirstOf(l, key) == None
  {
    if l != [] {
      FirstOfNone(l[..|l| - 1], key);
    }
  }

  /** After registrations alone, looking up any protocol but the first returns the handler of the one registered before
      it, in place of its own, as long as the index reaches it; from the 257th on the lookup does not return. */
  lemma FirstLookupReturnsTheNeighbour<V>(m: seq<KeyVal<V>>, l: seq<(u64, V)>, i: nat)
    requires Blank(m) && |l| <= |m| && 0 < i < |l|
    requires forall j | 0 <= j < |l| :: l[j].0 != 0
    requires forall j | 0 <= j < i :: l[j].0 != l[i].0
    ensures Answered(ApplyAll(m, Adds(l)), l[i].0) == if i < INDICES then Returned(Some(l[i - 1].1)) else Scanning
    ensures FirstOf(Registered(Adds(l)), l[i].0) == Some(l[i].1)
  {
    hide ApplyAll, Adds, Find, FirstOf, Registered;
    AddsInOrder(m, l);
    var r := ApplyAll(m, Adds(l));
    FindIs(r, l[i].0, i);
    assert Swaps(r, i) && Touched(r, i)[i - 1] == r[i - 1];
    AddsRegister(l);
    FirstOfIs(l, i);
  }

  const TWO_FREE := [KeyVal(0, 0, 0), KeyVal(0, 0, 0)]

  const TWO_PROTOCOLS: seq<(u64, int)> := [(1, 10), (2, 20)]

  /** Two protocols in two slots: the second is looked up, and the handler of the first comes back. */
  lemma SecondReadsTheFirst(ops: seq<Op<int>>)
    requires ops == Adds(TWO_PROTOCOLS)
    ensures Answered(ApplyAll(TWO_FREE, ops), 2) == Returned(Some(10)) && FirstOf(Registered(ops), 2) == Some(20)
  {
    hide ApplyAll, Adds, FirstOf, Registered, Answered;
    FirstLookupReturnsTheNeighbour(TWO_FREE, TWO_PROTOCOLS, 1);
  }
}
