/** The receive buffer as written over whole runs, from before there is a connection. */
module Reassembly {
  import opened Wire
  import opened BlockQueue
  import opened Engine
  import opened SendQueue
  import opened StateMachine
  import opened Handshake
  import opened Resets
  import opened Jam
  import opened Unopened

  // ---------------------------------------------------------------- the listening side

  /** A listening block between two reads wants number 0, and has nothing ready. */
  ghost predicate Listening(c: Tcb)
  {
    c.state.Listen? && c.handler.RunListen? && c.recvNext == 0 && Ready(c.inQ, 0) == 0
  }

  ghost predicate Calm(slot: Slot) { slot.Present? ==> EmptyOrJammed(slot.tcb) || Listening(slot.tcb) }

  lemma ListeningReads(c: Tcb, s: Segment)
    requires Listening(c) && !c.fault
    ensures Calm(Receive(c, s, false))
  {
    hide ListenStep, Insert;
    if c.inQ == [] {
      assert Buffered([], s) == [s] by { InsertAppends([], s); }
      if Ready([s], 0) > 0 { ListensAlone(c.(inQ := [s])); }
    } else if !AddFaults(c.inQ, s.seqNum) {
      KeepHead(c.inQ, s);
    }
  }

  lemma ListensAlone(d: Tcb)
    requires d.state.Listen? && d.handler.RunListen? && |d.inQ| == 1
    ensures Calm(ListenStep(d))
  {
    hide Write;
    var s := d.inQ[0];
    WriteFrame(d.(sendNext := s.ackNum, recvNext := 0), RST, []);
    WriteFrame(d.(recvInitial := s.seqNum, recvNext := U32(s.seqNum + 1), state := SynReceived,
                  handler := RunOthers, sendNext := d.sendInitial), SYN_ACK, []);
  }

  lemma HappenIsCalm(slot: Slot, e: Event)
    requires SlotSound(slot) && Calm(slot)
    ensures Calm(Happen(slot, e, false))
  {
    hide Receive, Write, EmptyOrJammed;
    if slot.Absent? {
      if e.Arrive? && e.s.flags.syn {
        FirstSegmentListens(e.cfg, e.s, false);
        ListensAlone(Create(e.cfg, e.s, Listen).(inQ := [e.s]));
      }
    } else {
      var c := slot.tcb;
      if EmptyOrJammed(c) {
        HappenEmptiesOrJams(c, e);
      } else {
        NotFaulted(c);
        match e {
          case Arrive(s, cfg) => ListeningReads(c, s);
          case Submit(p) => WriteFrame(c, PSH_ACK, p);
          case LinkTo(up) =>
        }
      }
    }
  }

  lemma NotFaulted(c: Tcb)
    ensures c.fault ==> EmptyOrJammed(c)
  {
  }

  lemma {:induction false} RunIsCalm(slot: Slot, es: seq<Event>)
    requires SlotSound(slot) && Calm(slot)
    ensures Calm(HappenAll(slot, es, false))
    decreases |es|
  {
    hide Happen, Calm;
    if es != [] {
      HappenIsCalm(slot, es[0]);
      HappenIsSound(slot, es[0], false);
      RunIsCalm(Happen(slot, es[0], false), es[1..]);
    }
  }

  /** In every state of every run that starts without a block, the receive queue of a synchronized block is empty or
      jammed: no segment is ever taken from behind another one. */
  lemma NothingIsReassembled(es: seq<Event>)
    ensures Calm(HappenAll(Absent, es, false))
  {
    hide HappenAll;
    RunIsCalm(Absent, es);
  }

  /** Over every run that starts without a block: whatever reset is formed while it listens answers the segment that
      has just arrived, and has the number that acknowledges. */
  lemma ListenResetsAsAsked(es: seq<Event>, s: Segment, cfg: Config)
    ensures var slot, r := HappenAll(Absent, es, false), HappenAll(Absent, es + [Arrive(s, cfg)], false);
      var before := if slot.Present? then slot.tcb.out.built else [];
      var window := if slot.Present? then slot.tcb.recvWindow else cfg.window;
      r.Present? && (slot.Present? ==> slot.tcb.state.Listen?) ==>
        && before <= r.tcb.out.built
        && forall i | |before| <= i < |r.tcb.out.built| && r.tcb.out.built[i].flags.rst ::
             s.flags.ack && r.tcb.out.built[i] == Segment(s.ackNum, 0, RST, window, [])
  {
    hide HappenAll, Happen;
    var slot := HappenAll(Absent, es, false);
    ReachableStates(Absent, es, false);
    NothingIsReassembled(es);
    HappenAllOn(Absent, es, [Arrive(s, cfg)], false);
    OneMore(slot, Arrive(s, cfg), false);
    if slot.Present? && slot.tcb.state.Listen? { ListenForms(slot.tcb, s, cfg); }
    if slot.Absent? { CreateForms(s, cfg); }
  }

  predicate FormsAsAsked(before: seq<Segment>, r: Slot, s: Segment, window: u16)
  {
    r.Present? ==>
      && before <= r.tcb.out.built
      && forall i | |before| <= i < |r.tcb.out.built| && r.tcb.out.built[i].flags.rst ::
           s.flags.ack && r.tcb.out.built[i] == Segment(s.ackNum, 0, RST, window, [])
  }

  lemma ListenForms(c: Tcb, s: Segment, cfg: Config)
    requires Sound(c) && c.state.Listen? && Calm(Present(c))
    ensures FormsAsAsked(c.out.built, Happen(Present(c), Arrive(s, cfg), false), s, c.recvWindow)
  {
    hide ListenStep, Insert;
    if !c.fault {
      if c.inQ == [] {
        assert Buffered([], s) == [s] by { InsertAppends([], s); }
        if Ready([s], 0) > 0 { HeadForms(c.(inQ := [s])); }
      } else if !AddFaults(c.inQ, s.seqNum) {
        KeepHead(c.inQ, s);
      }
    }
  }

  lemma CreateForms(s: Segment, cfg: Config)
    ensures FormsAsAsked([], Happen(Absent, Arrive(s, cfg), false), s, cfg.window)
  {
    hide ListenStep, Receive;
    if s.flags.syn {
      FirstSegmentListens(cfg, s, false);
      HeadForms(Create(cfg, s, Listen).(inQ := [s]));
    }
  }

  lemma HeadForms(d: Tcb)
    requires d.inQ != []
    ensures FormsAsAsked(d.out.built, ListenStep(d), d.inQ[0], d.recvWindow)
  {
    hide Write;
    var s := d.inQ[0];
    if s.flags.ack && !s.flags.rst {
      ListenReset(d);
    } else {
      WriteFrame(d.(recvInitial := s.seqNum, recvNext := U32(s.seqNum + 1), state := SynReceived,
                    handler := RunOthers, sendNext := d.sendInitial), SYN_ACK, []);
    }
  }

  // ---------------------------------------------------------------- the connecting side

  /** tcp_syn_sent leaves the segment where it is, as long as nothing more is written. */
  predicate Stays(c: Tcb, s: Segment) { (!s.flags.syn && !s.flags.rst) || Refuses(c, s) }

  predicate Waiting(c: Tcb)
  {
    c.state.SynSent? && c.handler.RunSynSent? && (c.inQ == [] || Stays(c, c.inQ[0]))
  }

  ghost predicate CalmOrWaiting(slot: Slot) { Calm(slot) || (slot.Present? && Waiting(slot.tcb)) }

  /** Bytes are written while the block is in SYN-SENT. */
  predicate WritesEarly(slot: Slot, e: Event)
  {
    slot.Present? && slot.tcb.state.SynSent? && e.Submit? && e.payload != []
  }

  predicate NeverWritesEarly(slot: Slot, es: seq<Event>)
    decreases |es|
  {
    es == [] || (!WritesEarly(slot, es[0]) && NeverWritesEarly(Happen(slot, es[0], false), es[1..]))
  }

  lemma WaitingReads(c: Tcb, s: Segment)
    requires Waiting(c) && !c.fault
    ensures CalmOrWaiting(Receive(c, s, false))
  {
    hide SynSentStep, Insert;
    if !AddFaults(c.inQ, s.seqNum) {
      var d := c.(inQ := Buffered(c.inQ, s), recvNext := s.seqNum);
      if c.inQ == [] {
        ReadAlone(c, s);
        assert Buffered([], s) == [s] by { InsertAppends([], s); }
        if Stays(c, s) { HeadStays(d); } else { HeadIsTaken(d); }
      } else {
        KeepHead(c.inQ, s);
        HeadStays(d);
      }
    }
  }

  lemma HeadStays(d: Tcb)
    requires d.state.SynSent? && d.handler.RunSynSent? && d.inQ != [] && Stays(d, d.inQ[0])
    ensures Waiting(d) && SynSentStep(d).Present? && Waiting(SynSentStep(d).tcb)
  {
    hide Write;
    WriteFrame(d, RST, []);
  }

  /** A segment that is dealt with alone leaves an empty queue. */
  lemma HeadIsTaken(d: Tcb)
    requires d.state.SynSent? && d.handler.RunSynSent? && |d.inQ| == 1 && !Stays(d, d.inQ[0])
    ensures CalmOrWaiting(SynSentStep(d))
  {
    hide Write, AnswerSyn;
    var s := d.inQ[0];
    AnswerSynFrame(d.(recvInitial := s.seqNum, recvNext := U32(s.seqNum + 1),
                      sendUna := if s.flags.ack then s.ackNum else d.sendUna), s);
  }

  lemma HappenIsCalmOrWaiting(slot: Slot, e: Event)
    requires SlotSound(slot) && CalmOrWaiting(slot) && !WritesEarly(slot, e)
    ensures CalmOrWaiting(Happen(slot, e, false))
  {
    hide Receive, Write, Calm;
    if Calm(slot) {
      HappenIsCalm(slot, e);
    } else {
      var c := slot.tcb;
      match e {
        case Arrive(s, cfg) => if !c.fault { WaitingReads(c, s); }
        case Submit(p) => WriteFrame(c, PSH_ACK, p);
        case LinkTo(up) =>
      }
    }
  }

  lemma {:induction false} RunIsCalmOrWaiting(slot: Slot, es: seq<Event>)
    requires SlotSound(slot) && CalmOrWaiting(slot) && NeverWritesEarly(slot, es)
    ensures CalmOrWaiting(HappenAll(slot, es, false))
    decreases |es|
  {
    hide Happen, CalmOrWaiting, WritesEarly;
    if es != [] {
      HappenIsCalmOrWaiting(slot, es[0]);
      HappenIsSound(slot, es[0], false);
      RunIsCalmOrWaiting(Happen(slot, es[0], false), es[1..]);
    }
  }

  // ---------------------------------------------------------------- leaving SYN-SENT

  /** The block as it opens on `h`, as far as the window test is concerned. */
  function OpenedBy(c: Tcb, h: Segment): Tcb
  {
    var taken := if h.flags.ack then |h.payload| else 0;
    c.(recvNext := U32(U32(h.seqNum + 1) + taken), recvWindow := U16(c.recvWindow - taken),
       state := if h.flags.ack then Established else SynReceived)
  }

  /** What has been waiting behind the SYN can be taken from there. */
  predicate TakenBehind(o: Tcb, rest: seq<Segment>)
  {
    rest != [] && Takes(o, rest[0])
  }

  /** Whatever was written before: a block that opens on the head `h` of its queue is left empty or jammed, exactly
      unless the segment that was waiting next behind it is the one to take then. */
  lemma LeavingSynSentExactly(c: Tcb, s: Segment)
    requires c.state.SynSent? && c.handler.RunSynSent? && !c.fault && c.sendUna <= c.sendInitial
    requires !AddFaults(c.inQ, s.seqNum)
    requires var q := Buffered(c.inQ, s);
      q != [] && Continues(q[0].seqNum, s.seqNum) && q[0].flags.syn && !q[0].flags.rst && !Refuses(c, q[0])
    ensures var q, r := Buffered(c.inQ, s), Receive(c, s, false);
      && r.Present? && r.tcb.inQ == q[1..] && r.tcb.handler.RunOthers?
      && (r.tcb.fault || (EmptyOrJammed(r.tcb) <==> !TakenBehind(OpenedBy(c, q[0]), q[1..])))
  {
    hide Write, Insert, AnswerSyn, InWindow, OthersRound;
    var q := Buffered(c.inQ, s);
    var h := q[0];
    var d := c.(inQ := q, recvNext := s.seqNum);
    assert Ready(q, s.seqNum) >= 1;
    assert Receive(c, s, false) == SynSentStep(d);
    var c1 := d.(recvInitial := h.seqNum, recvNext := U32(h.seqNum + 1),
                 sendUna := if h.flags.ack then h.ackNum else d.sendUna);
    AnswerSynFrame(c1, h);
    AnswerReceives(c1, h);
    var r := Receive(c, s, false).tcb;
    if q[1..] != [] {
      SameWindow(OpenedBy(c, h), r, r.inQ[0]);
      ReturnsExactly(r);
    }
  }

  lemma AnswerReceives(c: Tcb, s: Segment)
    ensures var r, taken := AnswerSyn(c, s), if c.sendUna > c.sendInitial then |s.payload| else 0;
      r.recvNext == U32(c.recvNext + taken) && r.recvWindow == U16(c.recvWindow - taken) && r.active == c.active
  {
    hide Write;
    var e := c.(state := Established, handler := RunOthers);
    WriteFrame(e, ACK, []);
    WriteFrame(e.(recvNext := U32(e.recvNext + |s.payload|), recvWindow := U16(e.recvWindow - |s.payload|)), ACK, []);
    WriteFrame(c.(state := SynReceived, handler := RunOthers), SYN_ACK, []);
  }

  /** While a block is free and no number wraps, that cannot be: the copy that has the head looked at again lies
      right behind it. */
  lemma RoomKeepsCalm(c: Tcb, s: Segment)
    requires Sorted(c.inQ) && |c.inQ| < BLOCKS && !AddFaults(c.inQ, s.seqNum)
    requires var q := Buffered(c.inQ, s);
      Continues(q[0].seqNum, s.seqNum) && s.seqNum + 1 < TWO32 && q[0].seqNum + |q[0].payload| + 2 < TWO32
    ensures var q := Buffered(c.inQ, s); !TakenBehind(OpenedBy(c, q[0]), q[1..])
  {
    hide Insert, Sorted, InWindow;
    if c.inQ == [] {
      InsertAppends([], s);
    } else {
      KeepHead(c.inQ, s);
      CopyLiesBehind(c.inQ, s);
    }
  }

  lemma CopyLiesBehind(q: seq<Segment>, s: Segment)
    requires Sorted(q) && q != [] && |q| < BLOCKS && !AddFaults(q, s.seqNum)
    requires Continues(q[0].seqNum, s.seqNum) && s.seqNum + 1 < TWO32
    ensures var r := Buffered(q, s); |r| > 1 && r[0] == q[0] && r[0].seqNum == r[1].seqNum == s.seqNum
  {
    assert q[0].seqNum == s.seqNum && Insert(q, s) == [q[0]] + Insert(q[1..], s);
    if |q| > 1 {
      assert q[1..][0] == q[1] && q[0].seqNum <= q[1].seqNum;
    } else {
      assert q[1..] == [];
    }
  }

  // ---------------------------------------------------------------- the failing run

  lemma PilesUp(c: Tcb, d: Segment) returns (r: Tcb)
    requires c.state.SynSent? && c.handler.RunSynSent? && !c.fault && c.inQ != [] && |c.inQ| < BLOCKS
    requires (forall i | 0 <= i < |c.inQ| :: c.inQ[i].seqNum <= d.seqNum) && !Continues(c.inQ[0].seqNum, d.seqNum)
    ensures Happen(Present(c), Arrive(d, NO_CONFIG), false) == Present(r)
    ensures r == c.(inQ := c.inQ + [d], recvNext := d.seqNum)
  {
    hide Insert;
    InsertAppends(c.inQ, d);
    r := c.(inQ := c.inQ + [d], recvNext := d.seqNum);
  }

  /** Segments numbered above the head pile up behind it. */
  lemma {:induction false} PileUp(c: Tcb, d: Segment, n: nat) returns (es: seq<Event>, r: Tcb)
    requires c.state.SynSent? && c.handler.RunSynSent? && !c.fault && c.inQ != [] && |c.inQ| + n <= BLOCKS
    requires (forall i | 0 <= i < |c.inQ| :: c.inQ[i].seqNum <= d.seqNum) && !Continues(c.inQ[0].seqNum, d.seqNum)
    ensures HappenAll(Present(c), es, false) == Present(r)
    ensures r == c.(inQ := r.inQ, recvNext := r.recvNext) && r.inQ == c.inQ + seq(n, _ => d)
    decreases n
  {
    hide Happen, HappenAll;
    if n == 0 {
      es, r := [], c;
      Nothing(Present(c), false);
      assert c.inQ + [] == c.inQ;
    } else {
      var m := PilesUp(c, d);
      es, r := PileUp(m, d, n - 1);
      HappenAllOn(Present(c), [Arrive(d, NO_CONFIG)], es, false);
      OneMore(Present(c), Arrive(d, NO_CONFIG), false);
      es := [Arrive(d, NO_CONFIG)] + es;
      assert c.inQ + [d] + seq(n - 1, _ => d) == c.inQ + seq(n, _ => d);
    }
  }

  /** A SYN-ACK that acknowledges too much, nine segments of data behind it, a write that makes it acceptable, and a
      second copy that finds no block: the connection opens with nine segments queued, the first of them ready. */
  lemma EarlyWriteUncorks(cfg: Config) returns (es: seq<Event>)
    requires cfg.initial + 3 < TWO32
    ensures !CalmOrWaiting(HappenAll(Present(Connect(cfg, true)), es, false))
  {
    hide Connect, HappenAll, Happen, SynSentStep, Write;
    ConnectIs(cfg);
    ConnectIsJust(cfg);
    var c0 := Connect(cfg, true);
    var far, data := Segment(500, cfg.initial + 3, SYN_ACK, 1000, []), Segment(501, 0, ACK, 1000, [7, 8]);
    var again := Arrive(far, NO_CONFIG);
    var c1 := Refused(c0, far);
    var more, c2 := PileUp(c1, data, 9);
    var c3 := WritesTwo(c2);
    Uncorked(c3, far, data);
    es := [again] + (more + ([Submit([1, 2])] + [again]));
    OneMore(Present(c0), again, false);
    HappenAllOn(Present(c0), [again], more + ([Submit([1, 2])] + [again]), false);
    HappenAllOn(Present(c1), more, [Submit([1, 2])] + [again], false);
    OneMore(Present(c2), Submit([1, 2]), false);
    HappenAllOn(Present(c2), [Submit([1, 2])], [again], false);
    OneMore(Present(c3), again, false);
  }

  lemma Refused(c: Tcb, s: Segment) returns (r: Tcb)
    requires JustConnected(c) && Refuses(c, s)
    ensures Happen(Present(c), Arrive(s, NO_CONFIG), false) == Present(r)
    ensures r == c.(inQ := [s], recvNext := s.seqNum, out := r.out) && Ordered(r.out, r.sendNext)
  {
    hide SynSentStep, Receive;
    ReadAlone(c, s);
    RefusalKeepsOrder(c.(inQ := [s], recvNext := s.seqNum));
    r := SynSentStep(c.(inQ := [s], recvNext := s.seqNum)).tcb;
  }

  lemma WritesTwo(c: Tcb) returns (r: Tcb)
    requires !c.fault && Ordered(c.out, c.sendNext) && c.sendNext + 2 < TWO32
    ensures Happen(Present(c), Submit([1, 2]), false) == Present(r)
    ensures r == c.(sendNext := c.sendNext + 2, out := r.out) && Ordered(r.out, r.sendNext)
  {
    hide Write;
    WriteAppends(c, PSH_ACK, [1, 2]);
    r := Send(c, [1, 2]);
  }

  lemma Uncorked(c: Tcb, far: Segment, data: Segment)
    requires c.state.SynSent? && c.handler.RunSynSent? && !c.fault && c.sendUna <= c.sendInitial && Ordered(c.out, c.sendNext)
    requires c.inQ == [far] + seq(9, _ => data) && far.seqNum == 500 && far.payload == [] && far.flags == SYN_ACK
    requires !Refuses(c, far) && data.seqNum == 501 && data.flags == ACK
    ensures !CalmOrWaiting(Happen(Present(c), Arrive(far, NO_CONFIG), false))
  {
    hide Receive, EmptyOrJammed, SynSentStep, InWindow, Insert;
    assert Buffered(c.inQ, far) == c.inQ;
    assert c.inQ[1..] == seq(9, _ => data);
    LeavingSynSentExactly(c, far);
    OpensWithoutFault(c.(recvNext := far.seqNum));
    assert Receive(c, far, false) == SynSentStep(c.(recvNext := far.seqNum)) by { HeadReady(c, far); }
  }

  lemma HeadReady(c: Tcb, s: Segment)
    requires c.state.SynSent? && c.handler.RunSynSent? && |c.inQ| == BLOCKS && c.inQ[0].seqNum == s.seqNum
    ensures Receive(c, s, false) == SynSentStep(c.(recvNext := s.seqNum))
  {
    hide SynSentStep;
    assert c.(inQ := c.inQ, recvNext := s.seqNum) == c.(recvNext := s.seqNum);
    assert Ready(c.inQ, s.seqNum) == 1 + Ready(c.inQ[1..], After(c.inQ[0]));
  }

  ghost predicate AlwaysCalm(c: Tcb, early: bool)
  {
    forall es: seq<Event> | early || NeverWritesEarly(Present(c), es) :: CalmOrWaiting(HappenAll(Present(c), es, false))
  }

  /** A connecting side reassembles nothing over any run, exactly when no bytes are written in SYN-SENT. */
  lemma CalmExactly(cfg: Config, early: bool)
    requires cfg.initial + 3 < TWO32
    ensures AlwaysCalm(Connect(cfg, true), early) <==> !early
  {
    hide Connect, HappenAll, NeverWritesEarly, CalmOrWaiting;
    var c := Connect(cfg, true);
    if early {
      var es := EarlyWriteUncorks(cfg);
      assert !CalmOrWaiting(HappenAll(Present(c), es, false));
    } else {
      StartsSound(cfg, true);
      ConnectWaits(cfg);
      forall es: seq<Event> | NeverWritesEarly(Present(c), es) ensures CalmOrWaiting(HappenAll(Present(c), es, false)) {
        RunIsCalmOrWaiting(Present(c), es);
      }
    }
  }

  lemma ConnectWaits(cfg: Config)
    requires cfg.initial + 1 < TWO32
    ensures CalmOrWaiting(Present(Connect(cfg, true)))
  {
    hide Connect;
    ConnectIs(cfg);
  }
}
