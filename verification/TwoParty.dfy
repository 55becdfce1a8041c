/**
 * Two endpoints running this code, one connecting and one listening, over a network that may
 * lose, duplicate, delay and reorder: any segment handed down by one side may reach the other at any time.
 */
module TwoParty {
  import opened Wire
  import opened BlockQueue
  import opened Engine
  import opened SendQueue
  import opened Handshake

  // ---------------------------------------------------------------- the system

  /**
   * The byte stream of one direction: the first sequence number, whether its side listens, the bytes its
   * application has written, and every value its next sequence number has had since the handshake.
   */
  datatype Stream = Stream(initial: u32, passive: bool, wrote: seq<u8>, marks: set<int>)
  {
    /** The sequence number after the last byte written. */
    function End(): int { initial + 1 + |wrote| }

    function Extend(payload: Payload): Stream
    {
      this.(wrote := wrote + payload, marks := marks + {End() + |payload|})
    }
  }

  datatype Net = Net(a: Slot, b: Slot, da: Stream, db: Stream)

  /**
   * `patched` adds the missing branch for a segment in front of the queue's head. The two liberties are
   * what stream safety needs excluded: `oneByte` lets applications write single bytes, `earlyData` lets
   * data reach a patched endpoint that is still in SYN-RECEIVED.
   */
  datatype Setup = Setup(cfgA: Config, cfgB: Config, patched: bool, oneByte: bool, earlyData: bool)
  {
    predicate Careful() { !oneByte && (patched ==> !earlyData) }
  }

  predicate Init(su: Setup, n: Net)
  {
    && su.cfgA.initial + 1 < TWO32 - 1 && su.cfgB.initial + 1 < TWO32 - 1
    && n.a == Present(Connect(su.cfgA, true)) && n.b == Absent
    && n.da == Stream(su.cfgA.initial, false, [], {su.cfgA.initial + 1})
    && n.db == Stream(su.cfgB.initial, true, [], {su.cfgB.initial + 1})
  }

  /** `from` has handed `s` down. Without `earlyData`, no data reaches a patched endpoint in SYN-RECEIVED. */
  predicate Deliverable(su: Setup, from: Slot, to: Slot, s: Segment)
  {
    && from.Present? && s in from.tcb.out.sent
    && (su.patched && !su.earlyData && to.Present? && to.tcb.state.SynReceived? ==> s.payload == [])
  }

  /** The application writes when ESTABLISHED, and never up to the end of the number space. */
  predicate Writes(su: Setup, at: Slot, payload: Payload, d: Stream, at': Slot, d': Stream)
  {
    && at.Present? && at.tcb.state.Established? && !at.tcb.fault
    && (|payload| == 1 ==> su.oneByte) && d.End() + |payload| < TWO32 - 1
    && at' == Present(Send(at.tcb, payload))
    && d' == if |payload| <= TCP_ROOM then d.Extend(payload) else d
  }

  function SetLink(c: Tcb, up: bool): Tcb { c.(out := c.out.(linkUp := up)) }

  datatype Action = ToA(s: Segment) | ToB(s: Segment) | WriteA(p: Payload) | WriteB(p: Payload) | LinkA(up: bool) | LinkB(up: bool)

  predicate Step(su: Setup, n: Net, act: Action, n': Net)
  {
    match act
    case ToA(s) => Deliverable(su, n.b, n.a, s) && n' == n.(a := Read(n.a, s, su.cfgA, su.patched))
    case ToB(s) => Deliverable(su, n.a, n.b, s) && n' == n.(b := Read(n.b, s, su.cfgB, su.patched))
    case WriteA(p) => Writes(su, n.a, p, n.da, n'.a, n'.da) && n' == n.(a := n'.a, da := n'.da)
    case WriteB(p) => Writes(su, n.b, p, n.db, n'.b, n'.db) && n' == n.(b := n'.b, db := n'.db)
    case LinkA(up) => n.a.Present? && n' == n.(a := Present(SetLink(n.a.tcb, up)))
    case LinkB(up) => n.b.Present? && n' == n.(b := Present(SetLink(n.b.tcb, up)))
  }

  /** A run: every state follows from the one before by the action recorded between them. */
  predicate IsRun(su: Setup, run: seq<Net>, acts: seq<Action>)
  {
    && |run| == |acts| + 1
    && Init(su, run[0])
    && forall i | 0 <= i < |acts| :: Step(su, run[i], acts[i], run[i + 1])
  }

  // ---------------------------------------------------------------- the invariant

  ghost predicate Laid(d: Stream)
  {
    && d.End() < TWO32 - 1
    && d.initial + 1 in d.marks && d.End() in d.marks
    && (forall m | m in d.marks :: d.initial + 1 <= m <= d.End())
    && (forall m, m' | m in d.marks && m' in d.marks && m < m' :: m + 2 <= m')
  }

  /** A segment that stream `d` may have put on the network, acknowledging no more than `ackLimit`. */
  ghost predicate Good(s: Segment, d: Stream, peerInitial: u32, ackLimit: int)
  {
    && !s.flags.rst && !s.flags.fin
    && if s.flags.syn then
         && s.seqNum == d.initial && s.payload == []
         && s.flags == (if d.passive then SYN_ACK else SYN) && (d.passive ==> s.ackNum == peerInitial + 1)
       else
         && s.flags.ack && peerInitial + 1 <= s.ackNum <= ackLimit
         && s.seqNum in d.marks && s.seqNum + |s.payload| in d.marks
         && d.initial + 1 <= s.seqNum && s.seqNum + |s.payload| <= d.End()
         && s.payload == d.wrote[s.seqNum - d.initial - 1..s.seqNum + |s.payload| - d.initial - 1]
  }

  /** What `c` may acknowledge: nothing before it has seen the other side's SYN. */
  function AckLimit(c: Tcb): int { if c.state.SynSent? then 0 else c.recvNext }

  ghost predicate Sender(c: Tcb, d: Stream, peerInitial: u32)
  {
    && Laid(d) && c.sendInitial == d.initial && c.sendNext == d.End()
    && Ordered(c.out, c.sendNext)
    && forall s | s in Accepted(c.out) :: Good(s, d, peerInitial, AckLimit(c))
  }

  /** `c` has received exactly the front of stream `d` up to one of its marks. */
  ghost predicate Receiver(c: Tcb, d: Stream, inFlight: seq<Segment>)
  {
    && c.recvInitial == d.initial && c.recvNext in d.marks && d.initial + 1 <= c.recvNext <= d.End()
    && c.delivered == d.wrote[..c.recvNext - d.initial - 1]
    && forall s | s in c.inQ :: s in inFlight
  }

  ghost predicate Synchronized(c: Tcb)
  {
    && c.handler.RunOthers?
    && (c.state.Established? || (c.state.SynReceived? && c.sendUna == c.sendInitial && c.sendNext == c.sendInitial + 1))
  }

  /** Nothing of `c` has been acknowledged beyond what the peer has received. */
  ghost predicate AckedBy(c: Tcb, peer: Tcb)
  {
    c.sendUna <= c.sendInitial || c.sendUna <= AckLimit(peer)
  }

  /** As written, the queue is empty between two reads or its head is not ready; patched, SYN-RECEIVED queues no data. */
  ghost predicate AtRest(c: Tcb, patched: bool)
  {
    if patched then c.state.SynReceived? ==> forall s | s in c.inQ :: s.payload == []
    else Ready(c.inQ, c.recvNext) == 0
  }

  /** `c` can take what `peer` sends. */
  ghost predicate Connected(c: Tcb, own: Stream, peer: Tcb, theirs: Stream, patched: bool)
  {
    && Sender(c, own, theirs.initial) && Sender(peer, theirs, own.initial)
    && Receiver(c, theirs, peer.out.sent)
    && Synchronized(c) && AckedBy(c, peer) && AckLimit(peer) <= c.sendNext
    && AtRest(c, patched)
  }

  ghost predicate Opening(c: Tcb, own: Stream)
  {
    && c.state.SynSent? && c.handler.RunSynSent? && c.inQ == [] && c.delivered == []
    && c.sendUna <= c.sendInitial && own.wrote == []
  }

  /** The listening side has answered the SYN, and has seen and sent nothing but SYNs. */
  ghost predicate Answered(c: Tcb)
  {
    c.state.SynReceived? && (forall s | s in c.inQ :: s.flags.syn) && (forall s | s in Accepted(c.out) :: s.flags.syn)
  }

  ghost predicate Inv(su: Setup, n: Net)
  {
    && su.Careful() && !n.da.passive && n.db.passive && Laid(n.db) && n.db.initial == su.cfgB.initial
    && n.a.Present? && Sender(n.a.tcb, n.da, n.db.initial)
    && (n.b.Absent? ==> n.db.wrote == [] && Opening(n.a.tcb, n.da))
    && (n.b.Present? ==>
          var a, b := n.a.tcb, n.b.tcb;
          && Connected(b, n.db, a, n.da, su.patched)
          && if a.state.SynSent? then Opening(a, n.da) && Answered(b) && n.db.wrote == []
             else a.state.Established? && Connected(a, n.da, b, n.db, su.patched))
  }

  // ---------------------------------------------------------------- one round of tcp_others

  /** What happens to the receiving endpoint `c` when it reads: its own stream stays, it may answer and take bytes. */
  ghost predicate Evolves(c: Tcb, r: Tcb)
  {
    && r.sendInitial == c.sendInitial && r.sendNext == c.sendNext
    && c.out.sent <= r.out.sent
    && c.recvNext <= r.recvNext
  }

  /** Everything the rounds keep, but for what is queued. */
  ghost predicate Keeps(c: Tcb, own: Stream, peer: Tcb, theirs: Stream)
  {
    && Sender(c, own, theirs.initial) && Sender(peer, theirs, own.initial)
    && Receiver(c, theirs, peer.out.sent)
    && Synchronized(c) && AckedBy(c, peer) && AckLimit(peer) <= c.sendNext
  }

  /** An acknowledgement written by a synchronized endpoint is a good segment of its stream. */
  lemma AckIsGood(c: Tcb, own: Stream, peer: Tcb, theirs: Stream)
    requires Keeps(c, own, peer, theirs)
    ensures var r := Write(c, ACK, []);
      Keeps(r, own, peer, theirs) && Evolves(c, r) && r == c.(out := r.out)
  {
    WriteAppends(c, ACK, []);
    var r := Write(c, ACK, []);
    assert Good(Form(c, ACK, []), own, theirs.initial, AckLimit(c));
    forall s | s in Accepted(r.out) ensures Good(s, own, theirs.initial, AckLimit(r)) {
      assert s in Accepted(c.out) || s == Form(c, ACK, []);
    }
  }

  /** The first `n` segments continue one another exactly from `t`, and none is a SYN. */
  ghost predicate Exact(q: seq<Segment>, n: nat, t: int)
    decreases n
  {
    n == 0 || (q != [] && q[0].seqNum == t && !q[0].flags.syn && Exact(q[1..], n - 1, t + |q[0].payload|))
  }

  /** Marks lie at least two apart, so the tolerance for `start + 1` never admits a segment of the stream. */
  lemma {:induction false} ReadyIsExact(q: seq<Segment>, start: u32, d: Stream, peerInitial: u32, ackLimit: int)
    requires Laid(d) && start in d.marks
    requires forall s | s in q :: Good(s, d, peerInitial, ackLimit)
    ensures Exact(q, Ready(q, start), start)
  {
    if q != [] && Continues(q[0].seqNum, start) {
      assert Good(q[0], d, peerInitial, ackLimit);
      assert q[0].seqNum == start && !q[0].flags.syn;
      ReadyIsExact(q[1..], After(q[0]), d, peerInitial, ackLimit);
    }
  }

  /** A position the window has already refused: whatever starts there or later is refused too. */
  ghost predicate Beyond(c: Tcb, t: int)
  {
    t > c.recvNext && (c.recvWindow == 0 || c.recvNext + c.recvWindow <= t || c.recvNext + c.recvWindow >= TWO32)
  }

  /** The rest of a batch starts where the endpoint continues, or where nothing is accepted any more. */
  ghost predicate InStep(c: Tcb, t: int) { c.recvNext == t || Beyond(c, t) }

  lemma AcceptedIsNext(c: Tcb, s: Segment)
    requires InStep(c, s.seqNum) && InWindow(c, s) && s.seqNum + |s.payload| < TWO32
    ensures c.recvNext == s.seqNum && |s.payload| <= c.recvWindow
  {
  }

  lemma RefusedStaysRefused(c: Tcb, s: Segment)
    requires InStep(c, s.seqNum) && !InWindow(c, s) && s.seqNum + |s.payload| < TWO32
    ensures InStep(c, s.seqNum + |s.payload|)
  {
  }

  /** Data is not skipped by an endpoint in SYN-RECEIVED, unless nothing follows it in the batch. */
  ghost predicate NoSkip(c: Tcb, n: nat)
  {
    c.state.SynReceived? ==> n <= 1 || forall s | s in c.inQ :: s.payload == []
  }

  /** What a round amounts to for a good segment. */
  lemma RoundCases(c: Tcb)
    requires c.inQ != [] && Synchronized(c)
    requires var s := c.inQ[0]; !s.flags.syn && !s.flags.rst && !s.flags.fin && s.flags.ack
    requires c.inQ[0].ackNum <= c.sendNext && (c.state.SynReceived? ==> AckOk(c, c.inQ[0].ackNum))
    ensures var s, r := c.inQ[0], OthersRound(c);
      && r.exit == Bottom
      && r.tcb == Pop(RoundBeforePop(c))
  {
  }

  lemma PopKeeps(c: Tcb, own: Stream, peer: Tcb, theirs: Stream)
    requires Keeps(c, own, peer, theirs) && c.inQ != []
    ensures Keeps(Pop(c), own, peer, theirs)
  {
  }

  /** One round on a good segment: what it keeps, and where it leaves the rest of the batch. */
  lemma RoundKeeps(c: Tcb, own: Stream, peer: Tcb, theirs: Stream, n: nat)
    requires Keeps(c, own, peer, theirs) && n > 0
    requires c.inQ != [] && !c.inQ[0].flags.syn && InStep(c, c.inQ[0].seqNum) && NoSkip(c, n)
    ensures var r, t := OthersRound(c), c.inQ[0].seqNum + |c.inQ[0].payload|;
      && r.exit == Bottom
      && Keeps(r.tcb, own, peer, theirs) && Evolves(c, r.tcb)
      && r.tcb.inQ == c.inQ[1..] && (c.state.Established? ==> r.tcb.state.Established?)
      && r.tcb.fault == c.fault
      && (n == 1 || InStep(r.tcb, t)) && NoSkip(r.tcb, n - 1)
  {
    var s := c.inQ[0];
    assert s in peer.out.sent && s in Accepted(peer.out);
    assert Good(s, theirs, own.initial, AckLimit(peer));
    RoundCases(c);
    var m := RoundBeforePop(c);
    PopKeeps(m, own, peer, theirs) by { MiddleKeeps(c, own, peer, theirs); }
    MiddleKeeps(c, own, peer, theirs);
    if !InWindow(c, s) {
      RefusedStaysRefused(c, s);
    } else {
      AcceptedIsNext(c, s);
    }
  }

  /** The block before the segment is removed, as RoundCases has it. */
  ghost function RoundBeforePop(c: Tcb): Tcb
    requires c.inQ != []
  {
    var s := c.inQ[0];
    if !InWindow(c, s) then Write(c, ACK, [])
    else if c.state.SynReceived? then
      c.(sendWindow := s.window, lastUpdateSeq := s.seqNum, lastUpdateAck := s.ackNum, state := Established)
    else if s.payload == [] then TakeAck(c, s)
    else ReceivePayload(TakeAck(c, s), s.payload)
  }

  lemma MiddleKeeps(c: Tcb, own: Stream, peer: Tcb, theirs: Stream)
    requires Keeps(c, own, peer, theirs)
    requires c.inQ != [] && !c.inQ[0].flags.syn && InStep(c, c.inQ[0].seqNum)
    ensures var m, s := RoundBeforePop(c), c.inQ[0];
      && Keeps(m, own, peer, theirs) && Evolves(c, m) && m.inQ == c.inQ && m.fault == c.fault
      && (if !InWindow(c, s) then m.state == c.state && m.recvNext == c.recvNext && m.recvWindow == c.recvWindow
          else m.state.Established? && (c.state.Established? ==> m.recvNext == c.recvNext + |s.payload|)
               && (c.state.SynReceived? ==> m.recvNext == c.recvNext))
  {
    var s := c.inQ[0];
    assert s in peer.out.sent && s in Accepted(peer.out);
    assert Good(s, theirs, own.initial, AckLimit(peer));
    if !InWindow(c, s) {
      AckIsGood(c, own, peer, theirs);
    } else {
      AcceptedIsNext(c, s);
      if c.state.SynReceived? {
        AcceptKeeps(c, RoundBeforePop(c), own, peer, theirs);
      } else {
        var e := TakeAck(c, s);
        AcceptKeeps(c, e, own, peer, theirs);
        if s.payload != [] {
          PayloadKeeps(e, own, peer, theirs, s);
        }
      }
    }
  }

  /** Taking an acknowledgement of a good segment touches neither the streams nor the queues. */
  lemma AcceptKeeps(c: Tcb, r: Tcb, own: Stream, peer: Tcb, theirs: Stream)
    requires Keeps(c, own, peer, theirs) && r.state.Established?
    requires r == c.(sendWindow := r.sendWindow, lastUpdateSeq := r.lastUpdateSeq, lastUpdateAck := r.lastUpdateAck,
                     state := r.state, sendUna := r.sendUna)
    requires r.sendUna == c.sendUna || r.sendUna <= AckLimit(peer)
    ensures Keeps(r, own, peer, theirs) && Evolves(c, r)
  {
  }

  /** Handing the bytes up before or after writing the acknowledgement makes no difference. */
  lemma AckAfterDelivery(c: Tcb, payload: Payload)
    requires c.recvNext + |payload| < TWO32 && |payload| <= c.recvWindow
    ensures ReceivePayload(c, payload) ==
            Write(c.(recvNext := c.recvNext + |payload|, recvWindow := c.recvWindow - |payload|,
                     delivered := c.delivered + payload), ACK, [])
  {
  }

  /** Taking the payload at `recvNext` moves the receiver to the end of the segment and answers it. */
  lemma PayloadKeeps(c: Tcb, own: Stream, peer: Tcb, theirs: Stream, s: Segment)
    requires Keeps(c, own, peer, theirs) && c.state.Established?
    requires !s.flags.syn && Good(s, theirs, own.initial, AckLimit(peer)) && s.seqNum == c.recvNext
    requires |s.payload| <= c.recvWindow
    ensures var r := ReceivePayload(c, s.payload);
      && Keeps(r, own, peer, theirs) && Evolves(c, r) && r.inQ == c.inQ && r.state == c.state && r.fault == c.fault
      && r.recvNext == s.seqNum + |s.payload| && r.recvWindow == c.recvWindow - |s.payload|
  {
    hide Write;
    var m := c.(recvNext := c.recvNext + |s.payload|, recvWindow := c.recvWindow - |s.payload|,
                delivered := c.delivered + s.payload);
    var from := c.recvNext - theirs.initial - 1;
    assert theirs.wrote[..from] + theirs.wrote[from..from + |s.payload|] == theirs.wrote[..from + |s.payload|];
    assert Keeps(m, own, peer, theirs);
    AckIsGood(m, own, peer, theirs);
    AckAfterDelivery(c, s.payload);
  }

  lemma {:induction false} BatchKeeps(c: Tcb, own: Stream, peer: Tcb, theirs: Stream, n: nat, t: int)
    requires Keeps(c, own, peer, theirs) && !c.fault
    requires Exact(c.inQ, n, t) && InStep(c, t) && NoSkip(c, n)
    ensures var r := Others(c, n);
      && Keeps(r, own, peer, theirs) && Evolves(c, r) && !r.fault
      && n <= |c.inQ| && r.inQ == c.inQ[n..] && (c.state.Established? ==> r.state.Established?)
    decreases n
  {
    if n > 0 {
      RoundKeeps(c, own, peer, theirs, n);
      var r := OthersRound(c).tcb;
      if n > 1 {
        BatchKeeps(r, own, peer, theirs, n - 1, t + |c.inQ[0].payload|);
        assert c.inQ[1..][n - 1..] == c.inQ[n..];
      } else {
        assert Others(r, 0) == r;
      }
    }
  }

  // ---------------------------------------------------------------- one read

  lemma BufferedHolds(q: seq<Segment>, s: Segment)
    ensures forall x | x in Buffered(q, s) :: x in q || x == s
  {
    InsertSplits(q, s);
  }

  /** As written, a batch is never longer than the one segment that has just arrived in an empty queue. */
  lemma BatchOfOne(q: seq<Segment>, s: Segment, start: u32)
    requires Ready(q, start) == 0 && !AddFaults(q, s.seqNum)
    ensures Ready(Buffered(q, s), start) > 0 ==> q == [] && Buffered(q, s) == [s] && Ready([s], start) == 1
  {
  }

  lemma ReceiveKeeps(c: Tcb, own: Stream, peer: Tcb, theirs: Stream, s: Segment, patched: bool)
    requires Connected(c, own, peer, theirs, patched) && !c.fault
    requires s in peer.out.sent && (patched && c.state.SynReceived? ==> s.payload == [])
    ensures var r := Receive(c, s, patched);
      && r.Present? && Connected(r.tcb, own, peer, theirs, patched) && Evolves(c, r.tcb)
      && (c.state.Established? ==> r.tcb.state.Established?)
      && (s.flags.syn && Answered(c) ==> Answered(r.tcb))
  {
    if patched || !AddFaults(c.inQ, s.seqNum) {
      var c1 := c.(inQ := Buffered(c.inQ, s));
      var n := Ready(c1.inQ, c1.recvNext);
      BufferedHolds(c.inQ, s);
      forall x | x in c1.inQ ensures x in peer.out.sent && Good(x, theirs, own.initial, AckLimit(peer)) {
        assert x in Accepted(peer.out);
      }
      ReadyIsExact(c1.inQ, c.recvNext, theirs, own.initial, AckLimit(peer));
      if !patched {
        BatchOfOne(c.inQ, s, c.recvNext);
      }
      if n > 0 {
        BatchKeeps(c1, own, peer, theirs, n, c.recvNext);
        assert !c1.inQ[0].flags.syn && c1.inQ[0] in c1.inQ;
      }
    }
  }

  /** The other endpoint is not affected by what `c` does when it reads. */
  lemma PeerUnaffected(peer: Tcb, theirs: Stream, c: Tcb, r: Tcb, own: Stream, patched: bool)
    requires Connected(peer, theirs, c, own, patched) && Evolves(c, r)
    requires Sender(r, own, theirs.initial)
    requires !c.state.SynSent? && !r.state.SynSent? && r.recvNext <= peer.sendNext
    ensures Connected(peer, theirs, r, own, patched)
  {
  }

  // ---------------------------------------------------------------- the handshake

  /** The connecting side begins with its SYN on the network and nothing else. */
  lemma ConnectOpens(cfg: Config, peerInitial: u32)
    requires cfg.initial + 1 < TWO32 - 1
    ensures var c, d := Connect(cfg, true), Stream(cfg.initial, false, [], {cfg.initial + 1});
      Sender(c, d, peerInitial) && Opening(c, d) && !c.fault
  {
    ConnectIs(cfg);
    var s := Form(Create(cfg.(active := true), STUB_HEADER, SynSent), SYN, []);
    assert Good(s, Stream(cfg.initial, false, [], {cfg.initial + 1}), peerInitial, 0);
  }

  /** A SYN reaches the listening side: a block is created, and answers with its own SYN. */
  lemma ListenKeeps(cfg: Config, s: Segment, a: Tcb, da: Stream, db: Stream, patched: bool)
    requires Sender(a, da, db.initial) && Opening(a, da) && !da.passive
    requires Laid(db) && db.passive && db.wrote == [] && db.initial == cfg.initial
    requires s in a.out.sent
    ensures var r := Read(Absent, s, cfg, patched);
      && r.Present? && Answered(r.tcb) && !r.tcb.fault
      && Connected(r.tcb, db, a, da, patched)
  {
    hide Read, Write;
    assert s in Accepted(a.out);
    assert Good(s, da, db.initial, AckLimit(a));
    ListenAnswers(cfg, s, patched);
    var c2 := Create(cfg, s, Listen).(recvNext := s.seqNum + 1, state := SynReceived, handler := RunOthers);
    WriteToIdle(c2, SYN_ACK);
    assert Good(Form(c2, SYN_ACK, []), db, da.initial, s.seqNum + 1);
    assert da.wrote[..0] == [];
  }

  /** The answer to the SYN reaches the connecting side: it becomes ESTABLISHED and acknowledges. */
  lemma SynSentKeeps(a: Tcb, da: Stream, b: Tcb, db: Stream, s: Segment, patched: bool)
    requires Sender(a, da, db.initial) && Opening(a, da) && !a.fault && db.passive && !da.passive
    requires Connected(b, db, a, da, patched) && b.state.SynReceived? && db.wrote == [] && s in b.out.sent
    requires s.flags.syn
    ensures var r := Receive(a, s, patched);
      && r.Present? && r.tcb.state.Established? && !r.tcb.fault
      && Connected(r.tcb, da, b, db, patched) && Connected(b, db, r.tcb, da, patched)
  {
    hide Receive, Write;
    assert s in Accepted(b.out);
    assert Good(s, db, da.initial, AckLimit(b));
    SynSentAnswers(a, s, patched);
    var c2 := a.(recvInitial := s.seqNum, recvNext := s.seqNum + 1, sendUna := s.ackNum,
                 state := Established, handler := RunOthers);
    WriteAppends(c2, ACK, []);
    var f, r := Form(c2, ACK, []), Receive(a, s, patched).tcb;
    assert Good(f, da, db.initial, AckLimit(r));
    forall x | x in Accepted(r.out) ensures Good(x, da, db.initial, AckLimit(r)) {
      assert x in Accepted(a.out) || x == f;
    }
    assert db.wrote[..0] == [];
  }

  // ---------------------------------------------------------------- every step, every run

  /** An application write extends its stream and disturbs nobody. */
  lemma SendKeeps(c: Tcb, own: Stream, peer: Tcb, theirs: Stream, payload: Payload, patched: bool)
    requires Connected(c, own, peer, theirs, patched) && Connected(peer, theirs, c, own, patched)
    requires c.state.Established? && !c.fault
    requires |payload| != 1 && |payload| <= TCP_ROOM && own.End() + |payload| < TWO32 - 1
    ensures var r, d := Send(c, payload), own.Extend(payload);
      && Connected(r, d, peer, theirs, patched) && Connected(peer, theirs, r, d, patched)
      && r.state == c.state && !r.fault
  {
    var r, d := Send(c, payload), own.Extend(payload);
    SenderSends(c, own, theirs.initial, payload);
    ReceiverExtends(peer, own, payload, c.out.sent, r.out.sent);
    hide Send, Sender, Receiver, Laid;
  }

  /** The new bytes lie behind everything written before. */
  lemma LaidExtends(d: Stream, payload: Payload)
    requires Laid(d) && |payload| != 1 && d.End() + |payload| < TWO32 - 1
    ensures Laid(d.Extend(payload)) && d.Extend(payload).End() == d.End() + |payload|
  {
  }

  lemma SenderSends(c: Tcb, own: Stream, peerInitial: u32, payload: Payload)
    requires Sender(c, own, peerInitial) && c.state.Established? && !c.fault && peerInitial + 1 <= c.recvNext
    requires |payload| != 1 && |payload| <= TCP_ROOM && own.End() + |payload| < TWO32 - 1
    ensures var r := Send(c, payload);
      && Sender(r, own.Extend(payload), peerInitial) && c.out.sent <= r.out.sent
      && r == c.(sendNext := r.sendNext, out := r.out) && c.sendNext <= r.sendNext
  {
    LaidExtends(own, payload);
    WriteAppends(c, PSH_ACK, payload);
    hide Write, Laid;
    var f, r, d := Form(c, PSH_ACK, payload), Send(c, payload), own.Extend(payload);
    NewIsGood(c, own, peerInitial, payload);
    forall s | s in Accepted(r.out) ensures Good(s, d, peerInitial, AckLimit(r)) {
      if s in Accepted(c.out) {
        GoodExtends(s, own, payload, peerInitial, AckLimit(c));
      } else {
        assert s == f;
      }
    }
  }

  lemma NewIsGood(c: Tcb, own: Stream, peerInitial: u32, payload: Payload)
    requires Laid(own) && c.sendNext == own.End() && peerInitial + 1 <= c.recvNext && own.End() + |payload| < TWO32 - 1
    ensures Good(Form(c, PSH_ACK, payload), own.Extend(payload), peerInitial, c.recvNext)
  {
    assert own.Extend(payload).wrote[|own.wrote|..|own.wrote| + |payload|] == payload;
  }

  lemma ReceiverExtends(peer: Tcb, d: Stream, payload: Payload, before: seq<Segment>, now: seq<Segment>)
    requires Receiver(peer, d, before) && before <= now
    ensures Receiver(peer, d.Extend(payload), now)
  {
    var n := peer.recvNext - d.initial - 1;
    assert d.Extend(payload).wrote[..n] == d.wrote[..n];
  }

  lemma GoodExtends(s: Segment, d: Stream, payload: Payload, peerInitial: u32, ackLimit: int)
    requires Good(s, d, peerInitial, ackLimit)
    ensures Good(s, d.Extend(payload), peerInitial, ackLimit)
  {
  }

  lemma InitKeeps(su: Setup, n: Net)
    requires su.Careful() && Init(su, n)
    ensures Inv(su, n)
  {
    hide Connect;
    ConnectOpens(su.cfgA, su.cfgB.initial);
  }

  lemma StepToA(su: Setup, n: Net, s: Segment, n': Net)
    requires Inv(su, n) && Step(su, n, ToA(s), n')
    ensures Inv(su, n')
  {
    hide Receive;
    var a, b := n.a.tcb, n.b.tcb;
    assert s in Accepted(b.out);
    if a.state.SynSent? && !a.fault {
      SynSentKeeps(a, n.da, b, n.db, s, su.patched);
    } else if !a.fault {
      ReceiveKeeps(a, n.da, b, n.db, s, su.patched);
      PeerUnaffected(b, n.db, a, n'.a.tcb, n.da, su.patched);
    }
  }

  lemma StepToB(su: Setup, n: Net, s: Segment, n': Net)
    requires Inv(su, n) && Step(su, n, ToB(s), n')
    ensures Inv(su, n')
  {
    hide Receive;
    var a := n.a.tcb;
    assert s in Accepted(a.out) && Good(s, n.da, n.db.initial, AckLimit(a));
    if n.b.Absent? {
      ListenKeeps(su.cfgB, s, a, n.da, n.db, su.patched);
    } else if !n.b.tcb.fault {
      ReceiveKeeps(n.b.tcb, n.db, a, n.da, s, su.patched);
      if !a.state.SynSent? {
        PeerUnaffected(a, n.da, n.b.tcb, n'.b.tcb, n.db, su.patched);
      }
    }
  }

  lemma StepWriteA(su: Setup, n: Net, p: Payload, n': Net)
    requires Inv(su, n) && Step(su, n, WriteA(p), n')
    ensures Inv(su, n')
  {
    hide Send, Connected, Sender;
    EstablishedHasPeer(su, n);
    if |p| <= TCP_ROOM { SendKeeps(n.a.tcb, n.da, n.b.tcb, n.db, p, su.patched); } else { SendRefused(n.a.tcb, p); }
    SendersOf(n'.a.tcb, n'.da, n'.b.tcb, n'.db, su.patched);
  }

  lemma StepWriteB(su: Setup, n: Net, p: Payload, n': Net)
    requires Inv(su, n) && Step(su, n, WriteB(p), n')
    ensures Inv(su, n')
  {
    hide Send, Connected, Sender;
    EstablishedHasPeer(su, n);
    if |p| <= TCP_ROOM { SendKeeps(n.b.tcb, n.db, n.a.tcb, n.da, p, su.patched); } else { SendRefused(n.b.tcb, p); }
    SendersOf(n'.a.tcb, n'.da, n'.b.tcb, n'.db, su.patched);
  }

  lemma EstablishedHasPeer(su: Setup, n: Net)
    requires Inv(su, n)
    ensures n.a.tcb.state.Established? ==> n.b.Present?
    ensures n.b.Present? && n.b.tcb.state.Established? ==> n.a.tcb.state.Established?
  {
  }

  lemma SendersOf(a: Tcb, da: Stream, b: Tcb, db: Stream, patched: bool)
    ensures Connected(a, da, b, db, patched) ==> Sender(a, da, db.initial) && Laid(db) && Laid(da)
  {
  }

  lemma LinkKeeps(c: Tcb, own: Stream, peer: Tcb, theirs: Stream, up: bool, patched: bool)
    ensures Sender(c, own, theirs.initial) ==> Sender(SetLink(c, up), own, theirs.initial)
    ensures Connected(c, own, peer, theirs, patched) ==> Connected(SetLink(c, up), own, peer, theirs, patched)
    ensures Connected(peer, theirs, c, own, patched) ==> Connected(peer, theirs, SetLink(c, up), own, patched)
  {
    assert Accepted(SetLink(c, up).out) == Accepted(c.out);
  }

  lemma StepKeeps(su: Setup, n: Net, act: Action, n': Net)
    requires Inv(su, n) && Step(su, n, act, n')
    ensures Inv(su, n')
  {
    hide Receive, Send, Connected, Sender;
    match act {
      case ToA(s) => StepToA(su, n, s, n');
      case ToB(s) => StepToB(su, n, s, n');
      case WriteA(p) => StepWriteA(su, n, p, n');
      case WriteB(p) => StepWriteB(su, n, p, n');
      case LinkA(up) =>
        LinkKeeps(n.a.tcb, n.da, if n.b.Present? then n.b.tcb else n.a.tcb, n.db, up, su.patched);
      case LinkB(up) =>
        LinkKeeps(n.b.tcb, n.db, n.a.tcb, n.da, up, su.patched);
    }
  }

  /** A payload that leaves no room for the header is refused, and nothing changes. */
  lemma SendRefused(c: Tcb, payload: Payload)
    requires |payload| > TCP_ROOM
    ensures Send(c, payload) == c
  {
  }

  /** The invariant holds in every state of every run. */
  lemma {:induction false} RunKeeps(su: Setup, run: seq<Net>, acts: seq<Action>, i: nat)
    requires su.Careful() && IsRun(su, run, acts) && i < |run|
    ensures Inv(su, run[i])
  {
    if i == 0 {
      InitKeeps(su, run[0]);
    } else {
      RunKeeps(su, run, acts, i - 1);
      StepKeeps(su, run[i - 1], acts[i - 1], run[i]);
    }
  }

  // ---------------------------------------------------------------- what the runs guarantee

  /** The bytes handed up on either side are a prefix of what the other side's application wrote. */
  predicate Faithful(n: Net)
  {
    && (n.a.Present? ==> n.a.tcb.delivered <= n.db.wrote)
    && (n.b.Present? ==> n.b.tcb.delivered <= n.da.wrote)
  }

  /** The bytes handed up on either side are the first bytes the other side's application wrote. */
  lemma StreamSafety(su: Setup, run: seq<Net>, acts: seq<Action>, i: nat)
    requires su.Careful() && IsRun(su, run, acts) && i < |run|
    ensures run[i].a.Present? && Faithful(run[i])
  {
    RunKeeps(su, run, acts, i);
  }

  /** What is acknowledged has been received, what has been received has been sent, byte for byte. */
  lemma NumberSandwich(su: Setup, run: seq<Net>, acts: seq<Action>, i: nat)
    requires su.Careful() && IsRun(su, run, acts) && i < |run|
    requires run[i].a.Present? && !run[i].a.tcb.state.SynSent?
    ensures run[i].b.Present?
    ensures var n := run[i]; var a, b := n.a.tcb, n.b.tcb;
      && a.sendUna <= b.recvNext <= a.sendNext && b.sendUna <= a.recvNext <= b.sendNext
      && b.recvNext == a.sendInitial + 1 + |b.delivered| && a.recvNext == b.sendInitial + 1 + |a.delivered|
      && a.sendNext == n.da.End() && b.sendNext == n.db.End()
  {
    RunKeeps(su, run, acts, i);
  }

  /** No segment acknowledges what its receiver has not sent, so that branch of tcp_others is never taken. */
  lemma NoUnsentAcks(su: Setup, run: seq<Net>, acts: seq<Action>, i: nat)
    requires su.Careful() && IsRun(su, run, acts) && i < |run| && run[i].a.Present? && run[i].b.Present?
    ensures forall s | s in run[i].a.tcb.out.sent + run[i].b.tcb.inQ && !s.flags.syn ::
              run[i].b.tcb.sendInitial < s.ackNum <= run[i].b.tcb.sendNext
    ensures forall s | s in run[i].b.tcb.out.sent + run[i].a.tcb.inQ && !s.flags.syn ::
              run[i].a.tcb.sendInitial < s.ackNum <= run[i].a.tcb.sendNext
  {
    RunKeeps(su, run, acts, i);
    var a, b := run[i].a.tcb, run[i].b.tcb;
    forall s | s in a.out.sent + b.inQ && !s.flags.syn ensures b.sendInitial < s.ackNum <= b.sendNext {
      assert s in Accepted(a.out);
    }
    forall s | s in b.out.sent + a.inQ && !s.flags.syn ensures a.sendInitial < s.ackNum <= a.sendNext {
      assert s in Accepted(b.out);
    }
  }

  /** The two sides only ever open and transfer: nobody resets, closes or drops the connection. */
  lemma NobodyResets(su: Setup, run: seq<Net>, acts: seq<Action>, i: nat)
    requires su.Careful() && IsRun(su, run, acts) && i < |run|
    ensures run[i].a.Present? && (run[i].a.tcb.state.SynSent? || run[i].a.tcb.state.Established?)
    ensures run[i].b.Present? ==> run[i].b.tcb.state.SynReceived? || run[i].b.tcb.state.Established?
    ensures forall s | s in run[i].a.tcb.out.sent :: !s.flags.rst && !s.flags.fin
    ensures run[i].b.Present? ==> forall s | s in run[i].b.tcb.out.sent :: !s.flags.rst && !s.flags.fin
  {
    RunKeeps(su, run, acts, i);
    forall s | s in run[i].a.tcb.out.sent ensures !s.flags.rst && !s.flags.fin {
      assert s in Accepted(run[i].a.tcb.out);
    }
    if run[i].b.Present? {
      forall s | s in run[i].b.tcb.out.sent ensures !s.flags.rst && !s.flags.fin {
        assert s in Accepted(run[i].b.tcb.out);
      }
    }
  }
}
