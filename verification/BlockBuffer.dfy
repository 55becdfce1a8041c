/** The reassembly and send buffer: a sorted linked list of blocks beside a free list. */
module BlockBuffer {
  import opened Wire
  import opened BlockQueue

  /** A pointer into the array of blocks allocated with the buffer. */
  type Pointer = p: int | -1 <= p < BLOCKS

  const NULL: Pointer := -1

  datatype Block = Block(payloadSize: u16, sequenceNum: u32, data: Segment, next: Pointer)
  {
    predicate Holds(s: Segment)
    {
      data == s && sequenceNum == s.seqNum && payloadSize == |s.payload|
    }
  }

  ghost function Nth(list: seq<Pointer>, i: nat): Pointer
  {
    if i < |list| then list[i] else NULL
  }

  ghost predicate Distinct(list: seq<Pointer>)
  {
    forall i, j | 0 <= i < j < |list| :: list[i] != list[j]
  }

  /** From `first`, the links of `m` run through `list` in order and end in null. */
  ghost predicate Linked(m: seq<Block>, first: Pointer, list: seq<Pointer>)
  {
    && first == Nth(list, 0)
    && forall i | 0 <= i < |list| :: 0 <= list[i] < |m| && m[list[i]].next == Nth(list, i + 1)
  }

  ghost predicate Stored(m: seq<Block>, list: seq<Pointer>, contents: seq<Segment>)
  {
    && |contents| == |list|
    && forall i | 0 <= i < |list| :: 0 <= list[i] < |m| && m[list[i]].Holds(contents[i])
  }

  /** Every block of the array is in exactly one of the two lists, exactly once. */
  ghost predicate Conserved(used: seq<Pointer>, free: seq<Pointer>)
  {
    && |used| + |free| == BLOCKS
    && forall p: Pointer :: multiset(used + free)[p] == if p == NULL then 0 else 1
  }

  /** Two disjoint null-terminated lists over the array `m`: the queue, and the free blocks. */
  ghost predicate Shape(m: seq<Block>, blocks: Pointer, used: seq<Pointer>, contents: seq<Segment>,
                        freeList: Pointer, free: seq<Pointer>)
  {
    && |m| == BLOCKS
    && Linked(m, blocks, used) && Stored(m, used, contents)
    && Linked(m, freeList, free)
    && Conserved(used, free)
  }

  class Buffer {
    const pool: array<Block>
    var freeList: Pointer
    var blocks: Pointer

    /** The queued segments, and the blocks of the two lists, each in list order. */
    ghost var Contents: seq<Segment>
    ghost var used: seq<Pointer>
    ghost var free: seq<Pointer>

    ghost predicate Valid()
      reads this, pool
    {
      Shape(pool[..], blocks, used, Contents, freeList, free)
    }

    constructor ()
      ensures Valid() && fresh(pool)
      ensures Contents == []
    {
      pool := new Block[BLOCKS];
      blocks := NULL;
      Contents, used := [], [];
      new;
      // the free list is linked from its last block to its first
      var block: Pointer := NULL;
      ghost var made: seq<Pointer> := [];
      var i := BLOCKS;
      while i > 0
        invariant 0 <= i <= BLOCKS && pool.Length == BLOCKS
        invariant |made| == BLOCKS - i && forall k | 0 <= k < |made| :: made[k] == i + k
        invariant Linked(pool[..], block, made)
        invariant blocks == NULL && Contents == [] && used == []
      {
        i := i - 1;
        ghost var m := pool[..];
        pool[i] := pool[i].(next := block);
        assert pool[..] == m[i := m[i].(next := block)];
        LinkedPush(m, block, made, i, m[i].(next := block));
        made := [i] + made;
        block := i;
      }
      freeList := block;
      free := made;
      CountUp(made, BLOCKS);
    }

    /** Take a free block, fill it and link it in behind everything numbered no higher. */
    method Add(s: Segment) returns (r: Pointer)
      requires Valid()
      requires !AddFaults(Contents, s.seqNum)
      modifies this, pool
      ensures Valid()
      ensures Contents == Buffered(old(Contents), s)
      ensures r == NULL <==> old(|Contents|) == BLOCKS
      ensures r != NULL ==> old(free) == [r] + free
    {
      var newBlock := freeList;
      if newBlock == NULL {
        return NULL;
      }
      var previous, block, k := FindPlace(s.seqNum);
      LinkIn(newBlock, previous, block, s, k);
      r := newBlock;
    }

    /** Fill `newBlock` and link it in between `previous` and `block`. */
    method LinkIn(newBlock: Pointer, previous: Pointer, block: Pointer, s: Segment, ghost k: nat)
      requires Valid() && newBlock == freeList != NULL
      requires k == Place(Contents, s.seqNum) && block == Nth(used, k)
      requires if k > 0 then previous == used[k - 1] != freeList else used == []
      modifies this, pool
      ensures Valid()
      ensures Contents == Insert(old(Contents), s)
      ensures old(free) == [newBlock] + free
    {
      AddedBehind(pool[..], blocks, used, Contents, freeList, free, k, s);
      ghost var m := LinkBehind(pool[..], used, k, newBlock, s);
      hide Linked, Stored, Conserved, Insert, Place, Distinct;
      freeList := pool[newBlock].next;
      pool[newBlock] := Block(|s.payload|, s.seqNum, s, block);
      if blocks != NULL {
        pool[previous] := pool[previous].(next := newBlock);
      } else {
        blocks := newBlock;
      }
      assert pool[..] == m;
      used, free, Contents := used[..k] + [newBlock] + used[k..], free[1..], Insert(Contents, s);
    }

    /** The scan for the blocks coming right before and right after number `n`. */
    method FindPlace(n: u32) returns (previous: Pointer, block: Pointer, ghost k: nat)
      requires Valid() && !InsertsBeforeHead(Contents, n)
      ensures k == Place(Contents, n) && block == Nth(used, k)
      ensures if k > 0 then previous == used[k - 1] != freeList else used == []
    {
      Facts(pool[..], blocks, used, Contents, freeList, free);
      hide Shape;
      block := blocks;
      previous := NULL;
      k := 0;
      while block != NULL && n >= pool[block].sequenceNum
        invariant 0 <= k <= |used| && block == Nth(used, k)
        invariant previous == if k > 0 then used[k - 1] else NULL
        invariant forall i | 0 <= i < k :: Contents[i].seqNum <= n
        decreases |used| - k
      {
        At(pool[..], blocks, used, Contents, freeList, free, k);
        previous := block;
        block := pool[block].next;
        k := k + 1;
      }
      if k < |used| { At(pool[..], blocks, used, Contents, freeList, free, k); }
      PlaceIs(Contents, n, k);
    }

    /** Unlink up to `n` blocks at the front and put each at the front of the free list. */
    method RemoveFront(n: u16)
      requires Valid()
      modifies this, pool
      ensures Valid()
      ensures Contents == old(Contents)[if n < old(|Contents|) then n else old(|Contents|)..]
    {
      var block := blocks;
      var left := n;
      ghost var k := 0;
      while left > 0 && block != NULL
        invariant Valid() && block == blocks
        invariant 0 <= k <= |old(Contents)| && k + left == n
        invariant Contents == old(Contents)[k..]
        decreases left
      {
        left := left - 1;
        Release(block);
        k := k + 1;
        block := blocks;
      }
    }

    /** Move the first block to the free list. */
    method Release(block: Pointer)
      requires Valid() && block == blocks != NULL
      modifies this, pool
      ensures Valid()
      ensures Contents == old(Contents)[1..] && used == old(used)[1..] && free == [block] + old(free)
    {
      Released(pool[..], block, used, Contents, freeList, free);
      ghost var m := pool[..][block := pool[block].(next := freeList)];
      blocks := pool[block].next;
      pool[block] := pool[block].(next := freeList);
      freeList := block;
      assert pool[..] == m;
      used, free, Contents := used[1..], [block] + free, Contents[1..];
    }

    /** Count the blocks that continue one another from `start`. */
    method NumReady(start: u32) returns (n: u16)
      requires Valid()
      ensures n == Ready(Contents, start)
    {
      Facts(pool[..], blocks, used, Contents, freeList, free);
      hide Shape;
      n := 0;
      var want := start;
      var block := blocks;
      while block != NULL && Continues(pool[block].sequenceNum, want)
        invariant 0 <= n <= |used| && block == Nth(used, n)
        invariant Ready(Contents, start) == n + Ready(Contents[n..], want)
        decreases |used| - n
      {
        At(pool[..], blocks, used, Contents, freeList, free, n);
        want := U32(pool[block].sequenceNum + pool[block].payloadSize);
        n := n + 1;
        block := pool[block].next;
      }
    }

    /** Would storing number `n` write through the null `previous` pointer? */
    method WouldFault(n: u32) returns (yes: bool)
      requires Valid()
      ensures yes == AddFaults(Contents, n)
    {
      assert blocks != NULL ==> pool[..][used[0]].Holds(Contents[0]);
      yes := freeList != NULL && blocks != NULL && n < pool[blocks].sequenceNum;
    }

    /** The first block, or null. */
    method GetHead() returns (b: Pointer)
      requires Valid()
      ensures b == NULL <==> Contents == []
      ensures b != NULL ==> pool[b].Holds(Contents[0])
    {
      b := blocks;
    }
  }

  /** What Shape says of the queue as a whole. */
  lemma Facts(m: seq<Block>, blocks: Pointer, used: seq<Pointer>, contents: seq<Segment>,
              freeList: Pointer, free: seq<Pointer>)
    requires Shape(m, blocks, used, contents, freeList, free)
    ensures |m| == BLOCKS && |used| == |contents| <= BLOCKS && blocks == Nth(used, 0)
    ensures forall i | 0 <= i < |used| :: used[i] != NULL && used[i] != freeList
  {
    OnceOnly(used, free);
    assert freeList != NULL ==> freeList == free[0];
    assert forall i | 0 <= i < |used| :: used[i] in used;
  }

  /** What the `i`-th queued block holds and points to. */
  lemma At(m: seq<Block>, blocks: Pointer, used: seq<Pointer>, contents: seq<Segment>,
           freeList: Pointer, free: seq<Pointer>, i: nat)
    requires Shape(m, blocks, used, contents, freeList, free) && i < |used|
    ensures |m| == BLOCKS && |contents| == |used| && used[i] != NULL
    ensures m[used[i]].Holds(contents[i]) && m[used[i]].next == Nth(used, i + 1)
  {
  }

  /** A block is in one list only, and there once. */
  lemma OnceOnly(used: seq<Pointer>, free: seq<Pointer>)
    requires Conserved(used, free)
    ensures Distinct(used) && Distinct(free)
    ensures forall p | p in used :: p !in free
  {
    var all := used + free;
    forall i, j | 0 <= i < j < |all| ensures all[i] != all[j] {
      assert all == all[..j] + [all[j]] + all[j + 1..];
      assert multiset(all)[all[j]] >= multiset(all[..j])[all[j]] + 1;
      assert all[i] in all[..j];
      assert multiset(all[..j])[all[i]] >= 1;
    }
    assert forall i | 0 <= i < |used| :: all[i] == used[i];
    assert forall i | 0 <= i < |free| :: all[|used| + i] == free[i];
  }

  /** Taking the first free block into the queue loses no block. */
  lemma Moved(used: seq<Pointer>, free: seq<Pointer>, k: nat)
    requires Conserved(used, free) && free != [] && k <= |used|
    ensures Conserved(used[..k] + [free[0]] + used[k..], free[1..])
  {
    assert used == used[..k] + used[k..] && free == [free[0]] + free[1..];
    assert multiset(used[..k] + [free[0]] + used[k..] + free[1..]) == multiset(used + free);
  }

  lemma {:induction false} CountUp(list: seq<Pointer>, n: nat)
    requires |list| == n <= BLOCKS && forall k | 0 <= k < |list| :: list[k] == k
    ensures forall p: Pointer :: multiset(list)[p] == if 0 <= p < n then 1 else 0
  {
    if n > 0 {
      CountUp(list[..n - 1], n - 1);
      assert list == list[..n - 1] + [list[n - 1]];
    }
  }

  lemma LinkedPop(m: seq<Block>, first: Pointer, list: seq<Pointer>)
    requires Linked(m, first, list) && list != []
    ensures first == list[0] && Linked(m, m[first].next, list[1..])
  {
    forall i | 0 <= i < |list[1..]|
      ensures 0 <= list[1..][i] < |m| && m[list[1..][i]].next == Nth(list[1..], i + 1)
    {
      assert list[1..][i] == list[i + 1];
    }
  }

  lemma LinkedPush(m: seq<Block>, first: Pointer, list: seq<Pointer>, p: Pointer, b: Block)
    requires Linked(m, first, list) && 0 <= p < |m| && p !in list && b.next == first
    ensures Linked(m[p := b], p, [p] + list)
  {
    var m', after := m[p := b], [p] + list;
    forall i | 0 <= i < |after| ensures 0 <= after[i] < |m| && m'[after[i]].next == Nth(after, i + 1) {
      assert i > 0 ==> after[i] == list[i - 1] && m[list[i - 1]].next == Nth(list, i);
    }
  }

  /** Writing to a block outside a list leaves the list as it was. */
  lemma LinkedElsewhere(m: seq<Block>, first: Pointer, list: seq<Pointer>, contents: seq<Segment>, p: Pointer, b: Block)
    requires 0 <= p < |m| && p !in list
    ensures Linked(m, first, list) ==> Linked(m[p := b], first, list)
    ensures Stored(m, list, contents) ==> Stored(m[p := b], list, contents)
  {
  }

  /** The array after `p` has been filled with `s` and linked in behind the first `k` blocks of `list`. */
  ghost function LinkBehind(m: seq<Block>, list: seq<Pointer>, k: nat, p: Pointer, s: Segment): seq<Block>
    requires k <= |list| && (k > 0 ==> 0 <= list[k - 1] < |m|) && 0 <= p < |m|
  {
    var m1 := m[p := Block(|s.payload|, s.seqNum, s, Nth(list, k))];
    if k == 0 then m1 else m1[list[k - 1] := m[list[k - 1]].(next := p)]
  }

  lemma LinkedInsert(m: seq<Block>, first: Pointer, list: seq<Pointer>, k: nat, p: Pointer, s: Segment)
    requires Linked(m, first, list) && Distinct(list)
    requires k <= |list| && 0 <= p < |m| && p !in list
    ensures Linked(LinkBehind(m, list, k, p, s), if k == 0 then p else first, list[..k] + [p] + list[k..])
  {
    var after, m' := list[..k] + [p] + list[k..], LinkBehind(m, list, k, p, s);
    forall i | 0 <= i < |after| ensures 0 <= after[i] < |m'| && m'[after[i]].next == Nth(after, i + 1) {
      if i < k - 1 {
        assert m[list[i]].next == list[i + 1] && list[i] != list[k - 1];
      } else if i == k - 1 {
        assert after[i] == list[i] && after[i + 1] == p;
      } else if i == k {
        assert after[i] == p && Nth(after, i + 1) == Nth(list, k);
      } else {
        assert after[i] == list[i - 1] && m[list[i - 1]].next == Nth(list, i);
        assert k > 0 ==> list[k - 1] != list[i - 1];
      }
    }
  }

  lemma StoredInsert(m: seq<Block>, list: seq<Pointer>, contents: seq<Segment>, k: nat, p: Pointer, s: Segment)
    requires Stored(m, list, contents) && k <= |list| && 0 <= p < |m| && p !in list
    ensures Stored(LinkBehind(m, list, k, p, s), list[..k] + [p] + list[k..], contents[..k] + [s] + contents[k..])
  {
    var after, m' := list[..k] + [p] + list[k..], LinkBehind(m, list, k, p, s);
    forall i | 0 <= i < |after|
      ensures 0 <= after[i] < |m'| && m'[after[i]].Holds((contents[..k] + [s] + contents[k..])[i])
    {
      var j := if i < k then i else i - 1;
      assert i != k ==> after[i] == list[j] && m[list[j]].Holds(contents[j]);
    }
  }

  /** Filling the first free block and linking it in at its place keeps the shape. */
  lemma AddedBehind(m: seq<Block>, blocks: Pointer, used: seq<Pointer>, contents: seq<Segment>,
                    freeList: Pointer, free: seq<Pointer>, k: nat, s: Segment)
    requires Shape(m, blocks, used, contents, freeList, free) && free != []
    requires k == Place(contents, s.seqNum)
    ensures Shape(LinkBehind(m, used, k, freeList, s), if k == 0 then freeList else blocks,
                  used[..k] + [freeList] + used[k..], Insert(contents, s), m[freeList].next, free[1..])
  {
    OnceOnly(used, free);
    LinkedPop(m, freeList, free);
    LinkedInsert(m, blocks, used, k, freeList, s);
    StoredInsert(m, used, contents, k, freeList, s);
    InsertSplits(contents, s);
    var b := Block(|s.payload|, s.seqNum, s, Nth(used, k));
    assert freeList !in free[1..];
    LinkedElsewhere(m, m[freeList].next, free[1..], [], freeList, b);
    if k > 0 {
      assert used[k - 1] in used;
      LinkedElsewhere(m[freeList := b], m[freeList].next, free[1..], [], used[k - 1], m[used[k - 1]].(next := freeList));
    }
    Moved(used, free, k);
  }

  /** Moving the first queued block to the front of the free list keeps the shape. */
  lemma Released(m: seq<Block>, blocks: Pointer, used: seq<Pointer>, contents: seq<Segment>,
                 freeList: Pointer, free: seq<Pointer>)
    requires Shape(m, blocks, used, contents, freeList, free) && used != []
    ensures Shape(m[blocks := m[blocks].(next := freeList)], m[blocks].next, used[1..], contents[1..],
                  blocks, [blocks] + free)
  {
    OnceOnly(used, free);
    LinkedPop(m, blocks, used);
    assert used == [blocks] + used[1..];
    forall i | 0 <= i < |used[1..]| ensures m[used[1..][i]].Holds(contents[1..][i]) {
      assert m[used[i + 1]].Holds(contents[i + 1]);
    }
    LinkedElsewhere(m, m[blocks].next, used[1..], contents[1..], blocks, m[blocks].(next := freeList));
    LinkedPush(m, freeList, free, blocks, m[blocks].(next := freeList));
    assert multiset(used[1..] + ([blocks] + free)) == multiset(used + free);
  }

  /** The place found by scanning is the place of the specification. */
  lemma {:induction false} PlaceIs(q: seq<Segment>, n: u32, k: nat)
    requires k <= |q|
    requires forall i | 0 <= i < k :: q[i].seqNum <= n
    requires k < |q| ==> n < q[k].seqNum
    ensures Place(q, n) == k
  {
    if k > 0 {
      PlaceIs(q[1..], n, k - 1);
    }
  }
}
