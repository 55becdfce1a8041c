/** The table of resolved addresses: a ring of 256 entries, updated in place, against a bounded FIFO map. */
module ArpTable {
  import opened Wire
  import opened Wrappers

  /** ARP_RESOLUTION_LIST_SIZE */
  const SIZE: nat := 256

  /** Constants as the 16-bit words stand in memory. */
  const ETHERNET: u16 := 256
  const IPV4: u16 := 0x8
  const REQUEST: u16 := 256
  const RESPONSE: u16 := 512

  type Mac = m: seq<u8> | |m| == 6 witness [0, 0, 0, 0, 0, 0]

  datatype Header = Header(hdwType: u16, proType: u16, hdwLength: u8, proLength: u8, operation: u16,
                           senderMac: Mac, senderIp: u32, targetMac: Mac, targetIp: u32)

  /** Whether a socket with a handler is attached, and whether it takes packets for itself. */
  datatype Attachment = Detached | Attached(passthrough: bool)

  datatype Interface = Interface(mac: Mac, ipv4: u32)

  datatype Entry = Entry(ipv4: u32, mac: Mac)

  datatype Ring = Ring(slots: seq<Option<Entry>>, next: nat)

  // ---------------------------------------------------------------- the ring

  /** arp_get_ip_mapping: the first slot holding `ip`, scanning up to the first free one. */
  function Find(slots: seq<Option<Entry>>, ip: u32): (r: Option<nat>)
    ensures r.Some? ==> r.value < |slots| && slots[r.value].Some? && slots[r.value].value.ipv4 == ip
  {
    if slots == [] || slots[0].None? then None
    else if slots[0].value.ipv4 == ip then Some(0)
    else match Find(slots[1..], ip)
         case None => None
         case Some(i) => Some(i + 1)
  }

  function RingLookup(r: Ring, ip: u32): Option<Mac>
  {
    match Find(r.slots, ip)
    case None => None
    case Some(i) => Some(r.slots[i].value.mac)
  }

  /** arp_insert_mapping */
  function RingInsert(r: Ring, e: Entry): Ring
    requires r.next < |r.slots|
  {
    Ring(r.slots[r.next := Some(e)], (r.next + 1) % SIZE)
  }

  predicate Relevant(h: Header) { h.hdwType == ETHERNET && h.proType == IPV4 }

  /** The table after arp_read: merge what is known, insert what is meant for us. */
  function RingRead(r: Ring, h: Header, own: u32): Ring
    requires r.next < |r.slots|
  {
    var e := Entry(h.senderIp, h.senderMac);
    if !Relevant(h) then r
    else match Find(r.slots, h.senderIp)
         case Some(i) => r.(slots := r.slots[i := Some(e)])
         case None => if h.targetIp == own then RingInsert(r, e) else r
  }

  function Reply(h: Header, own: Interface): Option<Header>
  {
    if Relevant(h) && h.targetIp == own.ipv4 && h.operation == REQUEST then
      Some(Header(h.hdwType, h.proType, h.hdwLength, h.proLength, RESPONSE, own.mac, h.targetIp, h.senderMac, h.senderIp))
    else None
  }

  // ---------------------------------------------------------------- the table in memory

  class ArpEntry {
    var ipv4: u32
    var mac: Mac

    constructor (ipv4: u32, mac: Mac)
      ensures this.ipv4 == ipv4 && this.mac == mac
    {
      this.ipv4, this.mac := ipv4, mac;
    }
  }

  class ResolutionList {
    const list: array<ArpEntry?>
    var insertIdx: nat
    ghost var entries: set<ArpEntry>

    ghost predicate Valid()
      reads this, list
    {
      && list.Length == SIZE && insertIdx < SIZE
      && (forall i | 0 <= i < SIZE && list[i] != null :: list[i] in entries)
      && (forall i, j | 0 <= i < j < SIZE && list[i] != null :: list[i] != list[j])
    }

    ghost function Slot(i: nat): Option<Entry>
      requires Valid() && i < SIZE
      reads this, list, entries
    {
      if list[i] == null then None else Some(Entry(list[i].ipv4, list[i].mac))
    }

    /** The table as a value. */
    ghost function Value(): (r: Ring)
      requires Valid()
      reads this, list, entries
      ensures |r.slots| == SIZE && r.next == insertIdx
      ensures forall i | 0 <= i < SIZE :: r.slots[i] == Slot(i)
    {
      Ring(seq(SIZE, i requires 0 <= i < SIZE && Valid() reads this, list, entries => Slot(i)), insertIdx)
    }

    constructor ()
      ensures Valid() && fresh(list) && entries == {}
      ensures Value() == Ring(seq(SIZE, _ => None), 0)
    {
      list := new ArpEntry?[SIZE](_ => null);
      insertIdx := 0;
      entries := {};
    }

    method InsertMapping(entry: ArpEntry)
      requires Valid() && entry !in entries
      modifies this, list
      ensures Valid() && entries == old(entries) + {entry}
      ensures Value() == RingInsert(old(Value()), Entry(entry.ipv4, entry.mac))
    {
      list[insertIdx] := entry;
      insertIdx := (insertIdx + 1) % SIZE;
      entries := entries + {entry};
      assert Value().slots == RingInsert(old(Value()), Entry(entry.ipv4, entry.mac)).slots;
    }

    method GetIpMapping(ip: u32) returns (e: ArpEntry?, ghost at: nat)
      requires Valid()
      ensures e == null <==> Find(Value().slots, ip).None?
      ensures e != null ==> at < SIZE && e == list[at] && Find(Value().slots, ip) == Some(at)
    {
      var i := 0;
      at := 0;
      ghost var slots := Value().slots;
      while i < SIZE
        invariant 0 <= i <= SIZE
        invariant forall j | 0 <= j < i :: slots[j].Some? && slots[j].value.ipv4 != ip
      {
        e := list[i];
        assert slots[i] == Slot(i);
        if e == null {
          FindNone(slots, ip, i);
          return;
        }
        if ip == e.ipv4 {
          FindSome(slots, ip, i);
          return e, i;
        }
        i := i + 1;
      }
      FindNone(slots, ip, i);
      e := null;
    }

    /** arp_read: an attached handler sees every packet, and one that passes through nothing else happens to. Of the
        others the table is updated, and a request for us is answered. */
    method Read(h: Header, own: Interface, socket: Attachment) returns (reply: Option<Header>, handed: bool)
      requires Valid()
      modifies this, list, entries
      ensures Valid() && fresh(entries - old(entries))
      ensures handed == socket.Attached?
      ensures if socket == Attached(true) then Value() == old(Value()) && reply == None
              else Value() == RingRead(old(Value()), h, own.ipv4) && reply == Reply(h, own)
    {
      reply, handed := None, socket.Attached?;
      if socket.Attached? && socket.passthrough {
        return;
      }
      if h.hdwType == ETHERNET && h.proType == IPV4 {
        var mapping, at := GetIpMapping(h.senderIp);
        if mapping != null {
          mapping.mac := h.senderMac;
          mapping.ipv4 := h.senderIp;
          assert Value().slots == RingRead(old(Value()), h, own.ipv4).slots;
        }
        if h.targetIp == own.ipv4 {
          if mapping == null {
            var entry := new ArpEntry(h.senderIp, h.senderMac);
            InsertMapping(entry);
          }
          if h.operation == REQUEST {
            reply := Some(Header(h.hdwType, h.proType, h.hdwLength, h.proLength, RESPONSE,
                                 own.mac, h.targetIp, h.senderMac, h.senderIp));
          }
        }
      }
    }
  }

  lemma {:induction false} FindNone(slots: seq<Option<Entry>>, ip: u32, n: nat)
    requires n <= |slots| && (n < |slots| ==> slots[n].None?)
    requires forall j | 0 <= j < n :: slots[j].Some? && slots[j].value.ipv4 != ip
    ensures Find(slots, ip).None?
  {
    if n > 0 {
      assert forall j | 0 <= j < n - 1 :: slots[1..][j] == slots[j + 1];
      FindNone(slots[1..], ip, n - 1);
    }
  }

  lemma {:induction false} FindSome(slots: seq<Option<Entry>>, ip: u32, n: nat)
    requires n < |slots| && slots[n].Some? && slots[n].value.ipv4 == ip
    requires forall j | 0 <= j < n :: slots[j].Some? && slots[j].value.ipv4 != ip
    ensures Find(slots, ip) == Some(n)
  {
    if n > 0 {
      assert forall j | 0 <= j < n - 1 :: slots[1..][j] == slots[j + 1];
      FindSome(slots[1..], ip, n - 1);
    }
  }

  // ---------------------------------------------------------------- a bounded FIFO map

  /** The entries oldest first: at most SIZE, the oldest leaving when another one comes. */
  function FifoInsert(f: seq<Entry>, e: Entry): seq<Entry>
  {
    (if |f| == SIZE then f[1..] else f) + [e]
  }

  function FifoMerge(f: seq<Entry>, e: Entry): seq<Entry>
  {
    seq(|f|, i requires 0 <= i < |f| => if f[i].ipv4 == e.ipv4 then e else f[i])
  }

  predicate Knows(f: seq<Entry>, ip: u32) { exists i :: 0 <= i < |f| && f[i].ipv4 == ip }

  function FifoLookup(f: seq<Entry>, ip: u32): Option<Mac>
  {
    if f == [] then None else if f[0].ipv4 == ip then Some(f[0].mac) else FifoLookup(f[1..], ip)
  }

  function FifoRead(f: seq<Entry>, h: Header, own: u32): seq<Entry>
  {
    var e := Entry(h.senderIp, h.senderMac);
    if !Relevant(h) then f
    else if Knows(f, h.senderIp) then FifoMerge(f, e)
    else if h.targetIp == own then FifoInsert(f, e)
    else f
  }

  predicate DistinctAddresses(f: seq<Entry>)
  {
    forall i, j | 0 <= i < j < |f| :: f[i].ipv4 != f[j].ipv4
  }

  lemma {:induction false} FifoLookupIs(f: seq<Entry>, ip: u32, i: nat)
    requires DistinctAddresses(f) && i < |f| && f[i].ipv4 == ip
    ensures FifoLookup(f, ip) == Some(f[i].mac)
  {
    if i > 0 {
      assert f[0].ipv4 != f[i].ipv4 && f[1..][i - 1] == f[i];
      FifoLookupIs(f[1..], ip, i - 1);
    }
  }

  lemma {:induction false} FifoLookupNone(f: seq<Entry>, ip: u32)
    requires !Knows(f, ip)
    ensures FifoLookup(f, ip) == None
  {
    if f != [] {
      assert f[0].ipv4 != ip;
      assert forall i | 0 <= i < |f[1..]| :: f[1..][i] == f[i + 1];
      FifoLookupNone(f[1..], ip);
    }
  }

  /** Inserting a new address is seen at once, drops exactly the oldest entry of a full table, and nothing else. */
  lemma InsertEvictsTheOldest(f: seq<Entry>, e: Entry, ip: u32)
    requires DistinctAddresses(f) && |f| <= SIZE && !Knows(f, e.ipv4)
    ensures DistinctAddresses(FifoInsert(f, e)) && |FifoInsert(f, e)| <= SIZE
    ensures FifoLookup(FifoInsert(f, e), ip) ==
            if ip == e.ipv4 then Some(e.mac)
            else if |f| == SIZE && f[0].ipv4 == ip then None
            else FifoLookup(f, ip)
  {
    var g, d := FifoInsert(f, e), if |f| == SIZE then 1 else 0;
    assert forall i | 0 <= i < |g| - 1 :: g[i] == f[i + d];
    if ip == e.ipv4 {
      FifoLookupIs(g, ip, |g| - 1);
    } else if i :| 0 <= i < |f| && f[i].ipv4 == ip {
      FifoLookupIs(f, ip, i);
      if i < d { FifoLookupNone(g, ip); } else { FifoLookupIs(g, ip, i - d); }
    } else {
      FifoLookupNone(f, ip);
      FifoLookupNone(g, ip);
    }
  }

  lemma MergeUpdates(f: seq<Entry>, e: Entry, ip: u32)
    requires DistinctAddresses(f) && Knows(f, e.ipv4)
    ensures DistinctAddresses(FifoMerge(f, e))
    ensures FifoLookup(FifoMerge(f, e), ip) == if ip == e.ipv4 then Some(e.mac) else FifoLookup(f, ip)
  {
    var g := FifoMerge(f, e);
    if i :| 0 <= i < |f| && f[i].ipv4 == ip {
      FifoLookupIs(f, ip, i);
      FifoLookupIs(g, ip, i);
    } else {
      FifoLookupNone(f, ip);
      FifoLookupNone(g, ip);
    }
  }

  // ---------------------------------------------------------------- the ring is that map

  predicate Full(r: Ring) { forall i | 0 <= i < |r.slots| :: r.slots[i].Some? }

  /** Used slots are a prefix until the ring is full, and no address is held twice. */
  predicate WellFormed(r: Ring)
  {
    && |r.slots| == SIZE && r.next < SIZE
    && (Full(r) || ((forall i | 0 <= i < r.next :: r.slots[i].Some?) && forall i | r.next <= i < SIZE :: r.slots[i].None?))
    && forall i, j | 0 <= i < j < SIZE && r.slots[i].Some? && r.slots[j].Some? :: r.slots[i].value.ipv4 != r.slots[j].value.ipv4
  }

  /** The slot of the `i`-th oldest entry. */
  function SlotOf(r: Ring, i: nat): nat
    requires WellFormed(r) && i < SIZE
  {
    if !Full(r) || r.next + i < SIZE then (if Full(r) then r.next + i else i) else r.next + i - SIZE
  }

  function Count(r: Ring): nat
    requires WellFormed(r)
  {
    if Full(r) then SIZE else r.next
  }

  function Fifo(r: Ring): (f: seq<Entry>)
    requires WellFormed(r)
    ensures |f| == Count(r) && forall i | 0 <= i < |f| :: r.slots[SlotOf(r, i)] == Some(f[i])
  {
    seq(Count(r), i requires 0 <= i < Count(r) => r.slots[SlotOf(r, i)].value)
  }

  /** Which entry of the FIFO a used slot is. */
  function AgeOf(r: Ring, s: nat): (i: nat)
    requires WellFormed(r) && s < SIZE && r.slots[s].Some?
    ensures i < Count(r) && SlotOf(r, i) == s
  {
    if !Full(r) then s else if s >= r.next then s - r.next else s + SIZE - r.next
  }

  lemma FifoIsDistinct(r: Ring)
    requires WellFormed(r)
    ensures DistinctAddresses(Fifo(r))
  {
    var f := Fifo(r);
    forall i, j | 0 <= i < j < |f| ensures f[i].ipv4 != f[j].ipv4 {
      assert SlotOf(r, i) != SlotOf(r, j);
      assert r.slots[SlotOf(r, i)] == Some(f[i]) && r.slots[SlotOf(r, j)] == Some(f[j]);
    }
  }

  /** Scanning the ring finds what the FIFO map holds. */
  lemma LookupAgrees(r: Ring, ip: u32)
    requires WellFormed(r)
    ensures RingLookup(r, ip) == FifoLookup(Fifo(r), ip)
    ensures Find(r.slots, ip).Some? <==> Knows(Fifo(r), ip)
  {
    var f := Fifo(r);
    FifoIsDistinct(r);
    if i :| 0 <= i < |f| && f[i].ipv4 == ip {
      var s := SlotOf(r, i);
      assert r.slots[s] == Some(f[i]);
      FindSome(r.slots, ip, s);
      FifoLookupIs(f, ip, i);
    } else {
      forall s | 0 <= s < Count(r) ensures r.slots[s].Some? && r.slots[s].value.ipv4 != ip {
        assert r.slots[SlotOf(r, AgeOf(r, s))] == Some(f[AgeOf(r, s)]);
      }
      FindNone(r.slots, ip, Count(r));
      FifoLookupNone(f, ip);
    }
  }

  lemma InsertKeepsShape(r: Ring, e: Entry)
    requires WellFormed(r) && Find(r.slots, e.ipv4).None?
    ensures WellFormed(RingInsert(r, e))
    ensures Full(RingInsert(r, e)) <==> Full(r) || r.next + 1 == SIZE
  {
    var n, f := RingInsert(r, e), Fifo(r);
    LookupAgrees(r, e.ipv4);
    forall s | 0 <= s < SIZE && r.slots[s].Some? ensures r.slots[s].value.ipv4 != e.ipv4 {
      assert r.slots[SlotOf(r, AgeOf(r, s))] == Some(f[AgeOf(r, s)]);
    }
    assert Full(r) ==> Full(n);
    assert !Full(r) ==> r.slots[r.next].None?;
    assert r.next + 1 < SIZE && !Full(r) ==> n.slots[r.next + 1].None?;
  }

  /** Every entry that stays grows older by one place if the ring was full. */
  lemma SlotsAge(r: Ring, e: Entry, i: nat)
    requires WellFormed(r) && WellFormed(RingInsert(r, e))
    requires Full(RingInsert(r, e)) <==> Full(r) || r.next + 1 == SIZE
    requires i + (if Full(r) then 1 else 0) < Count(r)
    ensures SlotOf(RingInsert(r, e), i) == SlotOf(r, i + if Full(r) then 1 else 0) != r.next
  {
    assert r.next < SIZE;
    hide WellFormed, Full;
  }

  lemma InsertRefines(r: Ring, e: Entry)
    requires WellFormed(r) && Find(r.slots, e.ipv4).None?
    ensures WellFormed(RingInsert(r, e)) && Fifo(RingInsert(r, e)) == FifoInsert(Fifo(r), e)
  {
    InsertKeepsShape(r, e);
    var n, f := RingInsert(r, e), Fifo(r);
    assert |f| < SIZE || Full(r);
    assert |Fifo(n)| == |FifoInsert(f, e)|;
    hide WellFormed, Full, Find, Fifo;
    forall i | 0 <= i < |FifoInsert(f, e)| ensures Fifo(n)[i] == FifoInsert(f, e)[i] {
      InsertAt(r, e, i);
    }
  }

  lemma InsertAt(r: Ring, e: Entry, i: nat)
    requires WellFormed(r) && WellFormed(RingInsert(r, e))
    requires Full(RingInsert(r, e)) <==> Full(r) || r.next + 1 == SIZE
    requires i < |FifoInsert(Fifo(r), e)| == |Fifo(RingInsert(r, e))|
    ensures Fifo(RingInsert(r, e))[i] == FifoInsert(Fifo(r), e)[i]
  {
    var n, f, d := RingInsert(r, e), Fifo(r), if Full(r) then 1 else 0;
    assert n.slots[SlotOf(n, i)] == Some(Fifo(n)[i]);
    if i < |f| - d {
      SlotsAge(r, e, i);
      assert r.slots[SlotOf(r, i + d)] == Some(f[i + d]);
    } else {
      assert SlotOf(n, i) == r.next;
    }
  }

  lemma MergeRefines(r: Ring, e: Entry)
    requires WellFormed(r) && Find(r.slots, e.ipv4).Some?
    ensures var n := r.(slots := r.slots[Find(r.slots, e.ipv4).value := Some(e)]);
      WellFormed(n) && Fifo(n) == FifoMerge(Fifo(r), e)
  {
    var at := Find(r.slots, e.ipv4).value;
    var n := r.(slots := r.slots[at := Some(e)]);
    assert Full(n) <==> Full(r) by { assert forall i | 0 <= i < SIZE :: n.slots[i].Some? == r.slots[i].Some?; }
    var f, g := Fifo(r), FifoMerge(Fifo(r), e);
    forall i | 0 <= i < |g| ensures Fifo(n)[i] == g[i] {
      assert r.slots[SlotOf(r, i)] == Some(f[i]) && n.slots[SlotOf(n, i)] == Some(Fifo(n)[i]);
    }
  }

  /** One packet does to the ring what it does to the map. */
  lemma ReadRefines(r: Ring, h: Header, own: u32)
    requires WellFormed(r)
    ensures WellFormed(RingRead(r, h, own)) && Fifo(RingRead(r, h, own)) == FifoRead(Fifo(r), h, own)
  {
    var e := Entry(h.senderIp, h.senderMac);
    LookupAgrees(r, h.senderIp);
    if Relevant(h) {
      if Find(r.slots, h.senderIp).Some? { MergeRefines(r, e); }
      else if h.targetIp == own { InsertRefines(r, e); }
    }
  }

  function RingReadAll(r: Ring, hs: seq<Header>, own: u32): (n: Ring)
    requires r.next < |r.slots| == SIZE
    ensures n.next < |n.slots| == SIZE
    decreases |hs|
  {
    if hs == [] then r else RingReadAll(RingRead(r, hs[0], own), hs[1..], own)
  }

  function FifoReadAll(f: seq<Entry>, hs: seq<Header>, own: u32): seq<Entry>
    decreases |hs|
  {
    if hs == [] then f else FifoReadAll(FifoRead(f, hs[0], own), hs[1..], own)
  }

  lemma {:induction false} RingIsFifo(r: Ring, hs: seq<Header>, own: u32)
    requires WellFormed(r)
    ensures WellFormed(RingReadAll(r, hs, own)) && Fifo(RingReadAll(r, hs, own)) == FifoReadAll(Fifo(r), hs, own)
    decreases |hs|
  {
    hide RingRead, FifoRead, Fifo;
    if hs != [] {
      ReadRefines(r, hs[0], own);
      RingIsFifo(RingRead(r, hs[0], own), hs[1..], own);
    }
  }

  /** Whatever packets have come since the table was empty, a lookup finds what the FIFO map holds. */
  lemma TableIsFifoMap(hs: seq<Header>, own: u32, ip: u32)
    ensures var r := RingReadAll(Ring(seq(256, _ => None), 0), hs, own);
      && WellFormed(r) && Fifo(r) == FifoReadAll([], hs, own)
      && RingLookup(r, ip) == FifoLookup(FifoReadAll([], hs, own), ip)
  {
    var empty := Ring(seq(SIZE, _ => None), 0);
    assert empty.slots[0].None?;
    assert Fifo(empty) == [];
    RingIsFifo(empty, hs, own);
    LookupAgrees(RingReadAll(empty, hs, own), ip);
  }

  /** A relevant packet from a known sender, or meant for us, leaves its sender's address resolved as it says. */
  lemma LatestAddressWins(r: Ring, h: Header, own: u32)
    requires WellFormed(r) && Relevant(h)
    ensures var n := RingRead(r, h, own);
      && WellFormed(n)
      && (RingLookup(n, h.senderIp) == Some(h.senderMac) <==>
            Find(r.slots, h.senderIp).Some? || h.targetIp == own)
  {
    ReadRefines(r, h, own);
    var n, f, e := RingRead(r, h, own), Fifo(r), Entry(h.senderIp, h.senderMac);
    LookupAgrees(r, h.senderIp);
    LookupAgrees(n, h.senderIp);
    FifoIsDistinct(r);
    if Knows(f, h.senderIp) { MergeUpdates(f, e, h.senderIp); }
    else if h.targetIp == own { InsertEvictsTheOldest(f, e, h.senderIp); }
    else { FifoLookupNone(f, h.senderIp); }
  }

  // ---------------------------------------------------------------- two hosts

  /** `h` is what `asker` broadcasts to learn the address of `ip`, in the numbers of RFC 826. */
  predicate Asks(h: Header, asker: Interface, ip: u32)
  {
    && h.hdwType == Swap16(1) && h.proType == Swap16(0x0800) && h.operation == Swap16(1)
    && h.senderMac == asker.mac && h.senderIp == asker.ipv4 && h.targetIp == ip
  }

  /** The question is answered, to the asker and nobody else, and the answer says where the address asked for is. */
  predicate Answers(reply: Header, h: Header, asker: Interface, other: Interface)
  {
    && reply.hdwType == h.hdwType && reply.proType == h.proType
    && reply.hdwLength == h.hdwLength && reply.proLength == h.proLength && reply.operation == Swap16(2)
    && reply.targetMac == asker.mac && reply.targetIp == asker.ipv4
    && reply.senderMac == other.mac && reply.senderIp == other.ipv4
  }

  /** A question for `other` read by it, and the answer read by the asker: afterwards each resolves the other. */
  method Resolve(h: Header, asker: Interface, askers: ResolutionList, other: Interface, others: ResolutionList)
    returns (reply: Option<Header>)
    requires Asks(h, asker, other.ipv4)
    requires askers.Valid() && others.Valid() && WellFormed(askers.Value()) && WellFormed(others.Value())
    requires askers != others && askers.list != others.list && askers.entries !! others.entries
    modifies askers, askers.list, askers.entries, others, others.list, others.entries
    ensures askers.Valid() && others.Valid()
    ensures reply.Some? && Answers(reply.value, h, asker, other)
    ensures RingLookup(askers.Value(), other.ipv4) == Some(other.mac)
    ensures RingLookup(others.Value(), asker.ipv4) == Some(asker.mac)
  {
    hide RingRead, WellFormed, RingLookup;
    ghost var before := askers.Value();
    var handed;
    reply, handed := others.Read(h, other, Detached);
    assert askers.Value() == before;
    Exchange(h, asker, before, other, old(others.Value()));
    ghost var after := others.Value();
    var _, _ := askers.Read(reply.value, asker, Detached);
    assert others.Value() == after;
  }

  /** The same of the tables as values. */
  lemma Exchange(h: Header, asker: Interface, askers: Ring, other: Interface, others: Ring)
    requires Asks(h, asker, other.ipv4) && WellFormed(askers) && WellFormed(others)
    ensures var reply := Reply(h, other);
      && reply.Some? && Answers(reply.value, h, asker, other)
      && RingLookup(RingRead(askers, reply.value, asker.ipv4), other.ipv4) == Some(other.mac)
      && RingLookup(RingRead(others, h, other.ipv4), asker.ipv4) == Some(asker.mac)
  {
    hide RingRead, RingLookup, WellFormed;
    LatestAddressWins(others, h, other.ipv4);
    LatestAddressWins(askers, Reply(h, other).value, asker.ipv4);
  }

  /** There is no answer exactly to what is not a question for us over Ethernet and IPv4, and so none to an answer. */
  lemma NoAnswerExactly(h: Header, own: Interface)
    ensures Reply(h, own) == None <==>
            h.hdwType != Swap16(1) || h.proType != Swap16(0x0800) || h.operation != Swap16(1) || h.targetIp != own.ipv4
    ensures forall anyone: Interface :: Reply(h, own).Some? ==> Reply(Reply(h, own).value, anyone) == None
  {
  }
}
