/** What the opening segments of a connection make of its block. */
module Handshake {
  import opened Wire
  import opened BlockQueue
  import opened Engine
  import opened SendQueue
  import opened StateMachine

  /** With nothing queued and the link up, a segment that fits the window goes straight down. */
  lemma DataToIdle(c: Tcb, flags: Flags, payload: Payload)
    requires c.out.queue == [] && c.out.linkUp && |payload| <= IP_ROOM && |payload| <= EffectiveWindow(c)
    ensures var s := Form(c, flags, payload);
      Write(c, flags, payload) ==
        c.(sendNext := U32(c.sendNext + |payload|), out := Output([], true, c.out.built + [s], c.out.sent + [s]))
  {
    hide EffectiveWindow;
    var s := Form(c, flags, payload);
    var o := Output([s], true, c.out.built + [s], c.out.sent);
    assert Buffered([], s) == [s];
    var o' := o.(sent := o.sent + [s], queue := []);
    assert CanRelease(o, EffectiveWindow(c)) && o.queue[1..] == [];
    assert Drain(o', EffectiveWindow(c)) == o';
  }

  lemma WriteToIdle(c: Tcb, flags: Flags)
    requires c.out.queue == [] && c.out.linkUp
    ensures var s := Form(c, flags, []);
      Write(c, flags, []) == c.(out := Output([], true, c.out.built + [s], c.out.sent + [s]))
  {
    DataToIdle(c, flags, []);
  }

  lemma ConnectIs(cfg: Config)
    requires cfg.initial + 1 < TWO32
    ensures var c0 := Create(cfg.(active := true), STUB_HEADER, SynSent);
      var s := Form(c0, SYN, []);
      Connect(cfg, true) == c0.(sendNext := cfg.initial + 1, out := Output([], true, [s], [s]))
  {
    hide Write, EffectiveWindow;
    var c0 := Create(cfg.(active := true), STUB_HEADER, SynSent);
    assert c0.(out := c0.out.(linkUp := true)) == c0;
    WriteToIdle(c0, SYN);
    var c := Write(c0, SYN, []);
    assert c.out.queue == [] && WriteOk([], c);
  }

  /** Connecting counts the SYN exactly when the layer below has taken it; otherwise it waits, numbered alike. */
  lemma ConnectCountsExactly(cfg: Config, linkUp: bool)
    requires cfg.initial + 1 < TWO32
    ensures var c := Connect(cfg, linkUp);
      && |c.out.built| == 1 && c.out.built[0].flags == SYN && c.out.built[0].seqNum == cfg.initial
      && c.out.sent == (if linkUp then c.out.built else []) && c.out.queue == (if linkUp then [] else c.out.built)
      && c.sendNext == if linkUp then cfg.initial + 1 else cfg.initial
  {
    hide Write, WriteOk, EffectiveWindow, Swap16;
    if linkUp {
      ConnectIs(cfg);
    } else {
      assert Swap16(0) == 0 by { NoWindow(); }
      var c0 := Create(cfg.(active := true), STUB_HEADER, SynSent);
      SynWaits(c0.(out := c0.out.(linkUp := false)));
    }
  }

  lemma NoWindow()
    ensures Swap16(0) == 0
  {
  }

  lemma SynWaits(c: Tcb)
    requires c.out == Output([], false, [], []) && c.sendWindow == 0
    ensures var s := Form(c, SYN, []);
      Write(c, SYN, []) == c.(out := Output([s], false, [s], [])) && !WriteOk([], Write(c, SYN, []))
  {
    var s := Form(c, SYN, []);
    assert Buffered([], s) == [s];
    assert Drain(Output([s], false, [s], []), 0) == Output([s], false, [s], []);
  }

  /** The SYN that creates a block is ready at once and goes to tcp_listen. */
  lemma FirstSegmentListens(cfg: Config, s: Segment, patched: bool)
    requires s.flags.syn
    ensures Read(Absent, s, cfg, patched) == ListenStep(Create(cfg, s, Listen).(inQ := [s]))
  {
    hide ListenStep;
    assert Insert([], s) == [s];
    assert Ready([s], s.seqNum) == 1 + Ready([], After(s));
  }

  /** What tcp_listen leaves of a new block when it answers a SYN. */
  lemma ListenAnswers(cfg: Config, s: Segment, patched: bool)
    requires s.flags.syn && !s.flags.rst && !s.flags.ack && cfg.initial + 1 < TWO32
    ensures var c2 := Create(cfg, s, Listen).(recvNext := U32(s.seqNum + 1), state := SynReceived, handler := RunOthers);
      Read(Absent, s, cfg, patched) == Present(Write(c2, SYN_ACK, []).(sendUna := cfg.initial, sendNext := cfg.initial + 1))
  {
    hide Write, Read, EffectiveWindow, Swap16;
    FirstSegmentListens(cfg, s, patched);
    var c2 := Create(cfg, s, Listen).(recvNext := U32(s.seqNum + 1), state := SynReceived, handler := RunOthers);
    WriteToIdle(c2.(inQ := [s]), SYN_ACK);
    WriteToIdle(c2, SYN_ACK);
  }

  /** What tcp_syn_sent leaves of the block when it takes the answer to its SYN. */
  lemma SynSentAnswers(a: Tcb, s: Segment, patched: bool)
    requires a.state.SynSent? && a.handler.RunSynSent? && a.inQ == [] && !a.fault
    requires s.flags == SYN_ACK && s.payload == [] && s.seqNum + 1 < TWO32
    requires a.sendInitial < s.ackNum <= a.sendNext
    ensures var c2 := a.(recvInitial := s.seqNum, recvNext := s.seqNum + 1, sendUna := s.ackNum,
                         state := Established, handler := RunOthers);
      Receive(a, s, patched) == Present(Notify(Write(c2, ACK, []), OnConnect).(
        sendWindow := s.window, lastUpdateSeq := s.seqNum, lastUpdateAck := s.ackNum))
  {
    var c1 := a.(inQ := [s], recvNext := s.seqNum);
    assert Insert([], s) == [s];
    assert Ready([s], s.seqNum) == 1 + Ready([], After(s));
    assert Receive(a, s, patched) == SynSentStep(c1);
    assert c1.inQ[1..] == a.inQ;
  }

  /** An acceptable SYN arrives at a connecting block. */
  predicate Connects(c: Tcb, s: Segment)
  {
    && c.state.SynSent? && c.handler.RunSynSent? && c.inQ == [] && !c.fault && c.sendUna <= c.sendInitial
    && s.flags.syn && !s.flags.rst && (s.flags.ack ==> c.sendInitial < s.ackNum <= c.sendNext)
  }

  /** What any such SYN makes of the block. */
  lemma ConnectsIs(c: Tcb, s: Segment, patched: bool)
    requires Connects(c, s)
    ensures var c2 := c.(recvInitial := s.seqNum, recvNext := U32(s.seqNum + 1), inQ := [s],
                         sendUna := if s.flags.ack then s.ackNum else c.sendUna);
      Receive(c, s, patched) == Present(Pop(AnswerSyn(c2, s).(
        sendWindow := s.window, lastUpdateSeq := s.seqNum, lastUpdateAck := s.ackNum)))
  {
    hide AnswerSyn;
    var c1 := c.(inQ := [s], recvNext := s.seqNum);
    assert Insert([], s) == [s];
    assert Ready([s], s.seqNum) == 1 + Ready([], After(s));
    assert Receive(c, s, patched) == SynSentStep(c1);
  }

  /** The segment completes the handshake of a block in SYN-RECEIVED. */
  predicate Completes(c: Tcb, s: Segment)
  {
    c.state.SynReceived? && InWindow(c, s) && s.flags.ack && !s.flags.rst && !s.flags.syn && AckOk(c, s.ackNum)
  }

  /** Payload on it is passed over, since the round began in SYN-RECEIVED. */
  lemma OpeningRound(c: Tcb)
    requires c.inQ != [] && Completes(c, c.inQ[0])
    ensures var s := c.inQ[0];
      var e := c.(sendWindow := s.window, lastUpdateSeq := s.seqNum, lastUpdateAck := s.ackNum, state := Established);
      OthersRound(c).tcb == Pop(FinStage(e, s, SynReceived))
  {
    hide Write, FinStage, InWindow;
  }

  lemma NoFin(c: Tcb, s: Segment)
    requires !s.flags.fin
    ensures FinStage(c, s, SynReceived) == c
  {
  }

  lemma FinAfterOpening(e: Tcb, s: Segment)
    requires e.state.Established? && Ordered(e.out, e.sendNext) && s.flags.fin && s.seqNum + 1 < TWO32
    ensures var r := FinStage(e, s, SynReceived);
      && r == e.(recvNext := s.seqNum + 1, sendNext := U32(e.sendNext + 1), upcalls := e.upcalls + [OnClose], out := r.out)
      && r.out.built == e.out.built + [Segment(e.sendNext, s.seqNum + 1, FIN_ACK, e.recvWindow, [])]
      && Ordered(r.out, e.sendNext)
  {
    hide Write;
    WriteAppends(e.(recvNext := U32(s.seqNum + 1)), FIN_ACK, []);
  }

  lemma OnlyThenOpened(c: Tcb)
    requires c.inQ != [] && c.state.SynReceived? && !Completes(c, c.inQ[0])
    ensures !OthersRound(c).tcb.state.Established?
  {
    hide Write, InWindow, FinStage;
    var s := c.inQ[0];
    WriteFrame(c, ACK, []);
    var w := c.(sendNext := s.ackNum);
    WriteFrame(w, RST, []);
    FinStageFrame(Write(w, RST, []), s, SynReceived);
  }
}
