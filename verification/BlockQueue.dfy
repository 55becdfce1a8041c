/** What the block buffer stores, as a plain sequence of segments. */
module BlockQueue {
  import opened Wire

  /** TCP_BLOCK_BUFFER_DEFAULT_SIZE */
  const BLOCKS: nat := 10

  /** Stable insertion: the new segment goes before the first one with a larger number. */
  function Insert(q: seq<Segment>, s: Segment): (r: seq<Segment>)
    ensures |r| == |q| + 1
  {
    if q == [] then [s]
    else if s.seqNum >= q[0].seqNum then [q[0]] + Insert(q[1..], s)
    else [s] + q
  }

  /** The case the C code has no branch for: `previous_block` is still null when it is written through. */
  predicate InsertsBeforeHead(q: seq<Segment>, n: u32)
  {
    q != [] && n < q[0].seqNum
  }

  /** The write through the null `previous_block` happens only once a free block has been found. */
  predicate AddFaults(q: seq<Segment>, n: u32)
  {
    |q| < BLOCKS && InsertsBeforeHead(q, n)
  }

  /** Storing a segment; with no free block it is dropped. */
  function Buffered(q: seq<Segment>, s: Segment): seq<Segment>
  {
    if |q| < BLOCKS then Insert(q, s) else q
  }

  /** Storing one segment after another. */
  function BufferAll(q: seq<Segment>, xs: seq<Segment>): seq<Segment>
    decreases xs
  {
    if xs == [] then q else BufferAll(Buffered(q, xs[0]), xs[1..])
  }

  /** Is a segment numbered `n` taken as the continuation of `start`? */
  predicate Continues(n: u32, start: u32)
  {
    n == start || n == U32(start + 1)
  }

  function After(s: Segment): u32 { U32(s.seqNum + |s.payload|) }

  /** How many segments at the front are ready when `start` is the next number wanted. */
  function Ready(q: seq<Segment>, start: u32): (n: nat)
    ensures n <= |q|
  {
    if q != [] && Continues(q[0].seqNum, start) then 1 + Ready(q[1..], After(q[0])) else 0
  }

  predicate Sorted(q: seq<Segment>)
  {
    forall i, j | 0 <= i < j < |q| :: q[i].seqNum <= q[j].seqNum
  }

  /** The segments carrying number `n`, in order. */
  function WithNumber(q: seq<Segment>, n: u32): seq<Segment>
  {
    if q == [] then []
    else (if q[0].seqNum == n then [q[0]] else []) + WithNumber(q[1..], n)
  }

  /** Where a segment numbered `n` is put. */
  function Place(q: seq<Segment>, n: u32): (p: nat)
    ensures p <= |q|
    ensures forall i | 0 <= i < p :: q[i].seqNum <= n
    ensures p < |q| ==> n < q[p].seqNum
  {
    if q == [] || n < q[0].seqNum then 0 else 1 + Place(q[1..], n)
  }

  lemma {:induction false} InsertSplits(q: seq<Segment>, s: Segment)
    ensures var p := Place(q, s.seqNum); Insert(q, s) == q[..p] + [s] + q[p..]
  {
    if q != [] && s.seqNum >= q[0].seqNum {
      InsertSplits(q[1..], s);
      var p := Place(q[1..], s.seqNum);
      assert q[..p + 1] == [q[0]] + q[1..][..p];
      assert q[p + 1..] == q[1..][p..];
    }
  }

  /** A segment numbered no lower than everything queued goes to the end. */
  lemma InsertAppends(q: seq<Segment>, s: Segment)
    requires forall i | 0 <= i < |q| :: q[i].seqNum <= s.seqNum
    ensures Insert(q, s) == q + [s]
  {
    InsertSplits(q, s);
  }

  lemma InsertSorted(q: seq<Segment>, s: Segment)
    requires Sorted(q)
    ensures Sorted(Insert(q, s))
  {
    InsertSplits(q, s);
    var p, r := Place(q, s.seqNum), Insert(q, s);
    forall i, j | 0 <= i < j < |r| ensures r[i].seqNum <= r[j].seqNum {
      assert r[i] == if i < p then q[i] else if i == p then s else q[i - 1];
      assert r[j] == if j < p then q[j] else if j == p then s else q[j - 1];
    }
  }

  /** Storing loses nothing and invents nothing. */
  lemma {:induction false} InsertContents(q: seq<Segment>, s: Segment)
    ensures multiset(Insert(q, s)) == multiset(q) + multiset{s}
  {
    if q != [] && s.seqNum >= q[0].seqNum {
      InsertContents(q[1..], s);
      assert q == [q[0]] + q[1..];
    }
  }

  lemma {:induction false} WithNumberNone(q: seq<Segment>, n: u32)
    ensures WithNumber(q, n) == [] <==> forall i | 0 <= i < |q| :: q[i].seqNum != n
  {
    if q != [] {
      WithNumberNone(q[1..], n);
      if forall i | 0 <= i < |q| :: q[i].seqNum != n {
        assert q[0].seqNum != n;
        forall i | 0 <= i < |q[1..]| ensures q[1..][i].seqNum != n { assert q[1..][i] == q[i + 1]; }
      } else {
        var i :| 0 <= i < |q| && q[i].seqNum == n;
        if i > 0 { assert q[1..][i - 1].seqNum == n; }
      }
    }
  }

  /** Ties are placed after the segments with the same number that are already queued. */
  lemma {:induction false} InsertIsStable(q: seq<Segment>, s: Segment, n: u32)
    requires Sorted(q)
    ensures WithNumber(Insert(q, s), n) == WithNumber(q, n) + if s.seqNum == n then [s] else []
  {
    var tail := if s.seqNum == n then [s] else [];
    if q == [] {
      assert [s][1..] == [];
    } else if s.seqNum >= q[0].seqNum {
      InsertIsStable(q[1..], s, n);
      assert Insert(q, s)[0] == q[0] && Insert(q, s)[1..] == Insert(q[1..], s);
      var head := if q[0].seqNum == n then [q[0]] else [];
      assert head + (WithNumber(q[1..], n) + tail) == head + WithNumber(q[1..], n) + tail;
    } else {
      assert ([s] + q)[0] == s && ([s] + q)[1..] == q;
      if s.seqNum == n {
        WithNumberNone(q, n);
        assert [s] + [] == [] + [s];
      }
    }
  }

  /** Of a row of arrivals, those that still find a free block behind `used` occupied ones. */
  function Admitted(used: nat, xs: seq<Segment>): seq<Segment>
  {
    if used >= BLOCKS then [] else if |xs| <= BLOCKS - used then xs else xs[..BLOCKS - used]
  }

  lemma {:induction false} FullStaysFull(q: seq<Segment>, xs: seq<Segment>)
    requires |q| >= BLOCKS || xs == []
    ensures BufferAll(q, xs) == q
    decreases xs
  {
    if xs != [] {
      FullStaysFull(q, xs[1..]);
    }
  }

  lemma AdmittedNone(used: nat, xs: seq<Segment>)
    requires used >= BLOCKS || xs == []
    ensures Admitted(used, xs) == []
  {
  }

  lemma AdmittedOne(used: nat, xs: seq<Segment>)
    requires used < BLOCKS && xs != []
    ensures var r := Admitted(used, xs);
      r == [xs[0]] + Admitted(used + 1, xs[1..]) && r[0] == xs[0] && r[1..] == Admitted(used + 1, xs[1..])
  {
  }

  /** Those admitted carry on with what the first of them leaves. */
  lemma AdmittedWithNumber(used: nat, xs: seq<Segment>, n: u32)
    ensures WithNumber(Admitted(used, xs), n) ==
            if used >= BLOCKS || xs == [] then []
            else (if xs[0].seqNum == n then [xs[0]] else []) + WithNumber(Admitted(used + 1, xs[1..]), n)
  {
    if used >= BLOCKS || xs == [] { AdmittedNone(used, xs); } else { AdmittedOne(used, xs); }
  }

  /** A row of arrivals leaves the buffer sorted, with ties in order of arrival. */
  lemma {:induction false} BufferAllKeeps(q: seq<Segment>, xs: seq<Segment>, n: u32)
    requires Sorted(q)
    ensures Sorted(BufferAll(q, xs))
    ensures WithNumber(BufferAll(q, xs), n) == WithNumber(q, n) + WithNumber(Admitted(|q|, xs), n)
    decreases xs
  {
    hide Sorted, Insert, Admitted, WithNumber;
    AdmittedWithNumber(|q|, xs, n);
    if |q| >= BLOCKS || xs == [] {
      FullStaysFull(q, xs);
    } else {
      InsertSorted(q, xs[0]);
      InsertIsStable(q, xs[0], n);
      BufferAllKeeps(Insert(q, xs[0]), xs[1..], n);
    }
  }

  /** Exactly the arrivals that find a block are kept. */
  lemma {:induction false} BufferAllContents(q: seq<Segment>, xs: seq<Segment>)
    ensures multiset(BufferAll(q, xs)) == multiset(q) + multiset(Admitted(|q|, xs))
    decreases xs
  {
    if |q| >= BLOCKS {
      FullStaysFull(q, xs);
    } else if xs != [] {
      InsertContents(q, xs[0]);
      BufferAllContents(Insert(q, xs[0]), xs[1..]);
      AdmittedOne(|q|, xs);
    }
  }

  /** A sorted queue is determined by what it holds under each number. */
  lemma {:induction false} SortedIsDetermined(p: seq<Segment>, q: seq<Segment>)
    requires Sorted(p) && Sorted(q)
    requires forall n: u32 :: WithNumber(p, n) == WithNumber(q, n)
    ensures p == q
  {
    if p == [] {
      assert q != [] ==> WithNumber(p, q[0].seqNum) == WithNumber(q, q[0].seqNum);
    } else {
      assert WithNumber(p, p[0].seqNum) == WithNumber(q, p[0].seqNum);
      WithNumberNone(q, p[0].seqNum);
      assert q != [];
      WithNumberNone(p, q[0].seqNum);
      assert WithNumber(p, q[0].seqNum) == WithNumber(q, q[0].seqNum);
      assert p[0].seqNum == q[0].seqNum;
      assert p[0] == WithNumber(p, p[0].seqNum)[0] == q[0];
      forall n: u32 ensures WithNumber(p[1..], n) == WithNumber(q[1..], n) {
        assert WithNumber(p, n) == WithNumber(q, n);
        var h := if p[0].seqNum == n then [p[0]] else [];
        assert WithNumber(p[1..], n) == WithNumber(p, n)[|h|..];
        assert WithNumber(q[1..], n) == WithNumber(q, n)[|h|..];
      }
      SortedIsDetermined(p[1..], q[1..]);
    }
  }

  /** Two arrival orders fill an empty buffer alike exactly when, among the arrivals that find a free block, they
      agree on the order of equal numbers. */
  lemma ArrivalOrder(xs: seq<Segment>, ys: seq<Segment>)
    ensures BufferAll([], xs) == BufferAll([], ys) <==>
            forall n: u32 :: WithNumber(Admitted(0, xs), n) == WithNumber(Admitted(0, ys), n)
  {
    BufferAllKeeps([], xs, 0);
    BufferAllKeeps([], ys, 0);
    forall n: u32
      ensures WithNumber(BufferAll([], xs), n) == WithNumber(Admitted(0, xs), n)
      ensures WithNumber(BufferAll([], ys), n) == WithNumber(Admitted(0, ys), n)
    {
      BufferAllKeeps([], xs, n);
      BufferAllKeeps([], ys, n);
    }
    if forall n: u32 :: WithNumber(Admitted(0, xs), n) == WithNumber(Admitted(0, ys), n) {
      SortedIsDetermined(BufferAll([], xs), BufferAll([], ys));
    } else {
      var n: u32 :| WithNumber(Admitted(0, xs), n) != WithNumber(Admitted(0, ys), n);
      assert WithNumber(BufferAll([], xs), n) == WithNumber(Admitted(0, xs), n);
    }
  }

  predicate DistinctNumbers(xs: seq<Segment>)
  {
    forall i, j | 0 <= i < j < |xs| :: xs[i].seqNum != xs[j].seqNum
  }

  lemma {:induction false} WithNumberOfDistinct(xs: seq<Segment>, i: nat)
    requires DistinctNumbers(xs) && i < |xs|
    ensures WithNumber(xs, xs[i].seqNum) == [xs[i]]
  {
    if i == 0 {
      WithNumberNone(xs[1..], xs[0].seqNum);
    } else {
      assert xs[i] == xs[1..][i - 1];
      WithNumberOfDistinct(xs[1..], i - 1);
    }
  }

  /** With pairwise distinct numbers only the choice of the arrivals that find a free block matters, and so nothing
      at all while there are enough blocks. */
  lemma ArrivalOrderOfDistinct(xs: seq<Segment>, ys: seq<Segment>)
    requires DistinctNumbers(xs) && DistinctNumbers(ys)
    ensures BufferAll([], xs) == BufferAll([], ys) <==> multiset(Admitted(0, xs)) == multiset(Admitted(0, ys))
    ensures multiset(xs) == multiset(ys) && |xs| <= BLOCKS ==> BufferAll([], xs) == BufferAll([], ys)
  {
    hide BufferAll, DistinctNumbers, WithNumber;
    BufferAllContents([], xs);
    BufferAllContents([], ys);
    assert multiset(BufferAll([], xs)) == multiset(Admitted(0, xs));
    assert multiset(BufferAll([], ys)) == multiset(Admitted(0, ys));
    DistinctPrefix(xs);
    DistinctPrefix(ys);
    if multiset(Admitted(0, xs)) == multiset(Admitted(0, ys)) {
      SameWithEachNumber(Admitted(0, xs), Admitted(0, ys));
      ArrivalOrder(xs, ys);
    }
    if multiset(xs) == multiset(ys) && |xs| <= BLOCKS {
      assert |xs| == |multiset(xs)| == |multiset(ys)| == |ys|;
      assert Admitted(0, xs) == xs && Admitted(0, ys) == ys;
    }
  }

  lemma DistinctPrefix(xs: seq<Segment>)
    requires DistinctNumbers(xs)
    ensures DistinctNumbers(Admitted(0, xs))
  {
  }

  lemma SameWithEachNumber(xs: seq<Segment>, ys: seq<Segment>)
    requires multiset(xs) == multiset(ys) && DistinctNumbers(xs) && DistinctNumbers(ys)
    ensures forall n: u32 :: WithNumber(xs, n) == WithNumber(ys, n)
  {
    forall n: u32 ensures WithNumber(xs, n) == WithNumber(ys, n) {
      WithNumberNone(xs, n);
      WithNumberNone(ys, n);
      if i :| 0 <= i < |xs| && xs[i].seqNum == n {
        assert xs[i] in multiset(ys);
        var j :| 0 <= j < |ys| && ys[j] == xs[i];
        WithNumberOfDistinct(xs, i);
        WithNumberOfDistinct(ys, j);
      } else {
        forall j | 0 <= j < |ys| ensures ys[j].seqNum != n {
          assert ys[j] in multiset(xs);
        }
      }
    }
  }

  /** As written, the arrivals can be stored one after another without the null write. */
  predicate StoresWithoutFault(q: seq<Segment>, xs: seq<Segment>)
    decreases xs
  {
    xs == [] || (!AddFaults(q, xs[0].seqNum) && StoresWithoutFault(Buffered(q, xs[0]), xs[1..]))
  }

  /** As written, storing survives exactly when none of the arrivals that find a free block is numbered below the
      head; those that find none are dropped before the write. */
  lemma {:induction false} StoresWithoutFaultExactly(q: seq<Segment>, xs: seq<Segment>)
    ensures StoresWithoutFault(q, xs) <==>
            forall s | s in Admitted(|q|, xs) :: (q + xs)[0].seqNum <= s.seqNum
    decreases xs
  {
    if xs != [] {
      var s, rest := xs[0], Admitted(|q| + 1, xs[1..]);
      if |q| >= BLOCKS {
        StoresWithoutFaultExactly(q, xs[1..]);
      } else {
        assert Admitted(|q|, xs) == [s] + rest;
        if !InsertsBeforeHead(q, s.seqNum) {
          StoresWithoutFaultExactly(Insert(q, s), xs[1..]);
          assert (Insert(q, s) + xs[1..])[0].seqNum == (q + xs)[0].seqNum <= s.seqNum;
        } else {
          assert s in Admitted(|q|, xs);
        }
      }
    }
  }
}
