/** The segments that end things: what resets and FIN answers carry, and when that is what RFC 9293 asks for. */
module Resets {
  import opened Wire
  import opened BlockQueue
  import opened Engine
  import opened SendQueue
  import opened StateMachine
  import opened Handshake

  /** The segment a step has formed last. */
  predicate Formed(c: Tcb, r: Tcb, s: Segment) { r.out.built == c.out.built + [s] }

  /** A segment in the window with FIN and an acknowledgement of nothing unsent. */
  predicate Finishes(c: Tcb, s: Segment)
  {
    InWindow(c, s) && s.flags.fin && s.flags.ack && !s.flags.rst && !s.flags.syn && s.ackNum <= c.sendNext
  }

  /** The number to acknowledge once `s` and its FIN have arrived, by section 3.10.7.4: the one after the FIN if `s` is
      what comes next, and otherwise still the one that is missing. */
  function Owed(c: Tcb, s: Segment): int
  {
    if s.seqNum == c.recvNext then c.recvNext + |s.payload| + 1 else c.recvNext
  }

  /** The answer to a FIN acknowledges the number after the FIN segment's first: that is what has been received,
      exactly when the FIN came in its place and without payload. */
  lemma FinAckExactly(c: Tcb)
    requires c.inQ != [] && c.state.Established? && Ordered(c.out, c.sendNext)
    requires Finishes(c, c.inQ[0]) && c.inQ[0].seqNum + |c.inQ[0].payload| + 1 < TWO32
    ensures var r, s := OthersRound(c).tcb, c.inQ[0];
      && r.state.CloseWait? && r.upcalls == c.upcalls + [OnClose] && r.delivered == c.delivered + s.payload
      && r.sendNext == U32(c.sendNext + 1) && |r.out.built| > |c.out.built|
      && (var f := r.out.built[|r.out.built| - 1];
          && f.flags == FIN_ACK && f.seqNum == c.sendNext && f.ackNum == r.recvNext
          && (f.ackNum == Owed(c, s) <==> s.seqNum == c.recvNext && s.payload == []))
  {
    hide Write, TakeAck, PayloadStage, FinStage;
    var s := c.inQ[0];
    FinRound(c);
    var e := TakeAck(c, s);
    TakeAckFrame(c, s);
    PayloadBeforeFin(e, s);
    FinAnswered(PayloadStage(e, s, Established), s);
    NotBefore(c, s);
  }

  lemma NotBefore(c: Tcb, s: Segment)
    requires InWindow(c, s)
    ensures c.recvNext <= s.seqNum
  {
  }

  lemma FinRound(c: Tcb)
    requires c.inQ != [] && c.state.Established? && Finishes(c, c.inQ[0])
    ensures var s := c.inQ[0];
      OthersRound(c).tcb == Pop(FinStage(PayloadStage(TakeAck(c, s), s, Established), s, Established))
  {
    hide Write, TakeAck, PayloadStage, FinStage, InWindow;
  }

  lemma PayloadBeforeFin(c: Tcb, s: Segment)
    requires Ordered(c.out, c.sendNext)
    ensures var p := PayloadStage(c, s, Established);
      && Ordered(p.out, p.sendNext) && p.sendNext == c.sendNext && p.upcalls == c.upcalls
      && p.delivered == c.delivered + s.payload && |c.out.built| <= |p.out.built|
  {
    hide Write;
    WriteAppends(c.(recvNext := U32(c.recvNext + |s.payload|), recvWindow := U16(c.recvWindow - |s.payload|)), ACK, []);
    assert s.payload == [] ==> c.delivered + s.payload == c.delivered;
  }

  lemma FinAnswered(p: Tcb, s: Segment)
    requires Ordered(p.out, p.sendNext) && s.flags.fin && s.seqNum + 1 < TWO32
    ensures var r := FinStage(p, s, Established);
      && r == p.(recvNext := s.seqNum + 1, sendNext := U32(p.sendNext + 1), out := r.out,
                 upcalls := p.upcalls + [OnClose], state := CloseWait)
      && r.out.built == p.out.built + [Segment(p.sendNext, s.seqNum + 1, FIN_ACK, p.recvWindow, [])]
      && Ordered(r.out, p.sendNext)
  {
    hide Write;
    WriteAppends(p.(recvNext := U32(s.seqNum + 1)), FIN_ACK, []);
  }

  /** A FIN on the segment that completes the handshake is answered and counted, but judged by SYN-RECEIVED. The state
      is the one section 3.10.7.4 asks for exactly when there is none: otherwise the block is left in ESTABLISHED, and
      the same FIN sent again is refused. */
  lemma FinOnOpeningExactly(c: Tcb)
    requires c.inQ != [] && Completes(c, c.inQ[0]) && Ordered(c.out, c.sendNext) && c.inQ[0].seqNum + 1 < TWO32
    ensures var r, s := OthersRound(c).tcb, c.inQ[0];
      && r.state.Established? && r.delivered == c.delivered
      && (r.state == (if s.flags.fin then CloseWait else Established) <==> !s.flags.fin)
      && (s.flags.fin ==>
            && r.recvNext == s.seqNum + 1 && r.sendNext == U32(c.sendNext + 1) && r.upcalls == c.upcalls + [OnClose]
            && Formed(c, r, Segment(c.sendNext, s.seqNum + 1, FIN_ACK, c.recvWindow, []))
            && OthersRound(r.(inQ := [s])).tcb.state.Established?)
  {
    hide Write, FinStage;
    var s := c.inQ[0];
    var e := c.(sendWindow := s.window, lastUpdateSeq := s.seqNum, lastUpdateAck := s.ackNum, state := Established);
    OpeningRound(c);
    if s.flags.fin {
      FinAfterOpening(e, s);
      var r := Pop(FinStage(e, s, SynReceived));
      RefusedBelow(r.(inQ := [s]));
    } else {
      assert FinStage(e, s, SynReceived) == e by { NoFin(e, s); }
    }
  }

  /** What lies below `receive_next` changes no state. */
  lemma RefusedBelow(c: Tcb)
    requires c.inQ != [] && c.inQ[0].seqNum < c.recvNext
    ensures OthersRound(c).tcb.state == c.state
  {
    hide Write;
    WriteFrame(c, ACK, []);
  }

  // ---------------------------------------------------------------- resets

  /** An acknowledgement tcp_syn_sent does not accept. */
  predicate Refuses(c: Tcb, s: Segment)
  {
    s.flags.ack && (s.ackNum <= c.sendInitial || s.ackNum > c.sendNext)
  }

  /** The reset that answers it is numbered `send_next`, and the segment stays at the front of the queue. */
  lemma SynSentReset(c: Tcb)
    requires c.inQ != [] && Refuses(c, c.inQ[0])
    ensures var r := SynSentStep(c);
      && r.Present? && r.tcb == c.(out := r.tcb.out, fault := r.tcb.fault)
      && r.tcb.fault == (c.fault || AddFaults(c.out.queue, c.sendNext))
      && (if AddFaults(c.out.queue, c.sendNext) then r.tcb.out.built == c.out.built
          else Formed(c, r.tcb, Segment(c.sendNext, c.recvNext, RST, c.recvWindow, [])))
  {
    hide Write;
    WriteFrame(c, RST, []);
  }

  /** Section 3.10.7.3 asks for a reset numbered by the acknowledgement it answers. */
  predicate ResetsAsAsked(c: Tcb, s: Segment)
  {
    var r := SynSentStep(c.(inQ := [s]));
    r.Present? && |r.tcb.out.built| > |c.out.built| && r.tcb.out.built[|c.out.built|].seqNum == s.ackNum
  }

  /** No such reset is ever numbered as asked, exactly when the SYN has been counted, or writing any is the end of it. */
  lemma SynSentResetExactly(c: Tcb)
    ensures (forall s | Refuses(c, s) :: !ResetsAsAsked(c, s)) <==>
            c.sendInitial < c.sendNext || AddFaults(c.out.queue, c.sendNext)
  {
    hide SynSentStep, AddFaults;
    forall s | Refuses(c, s)
      ensures ResetsAsAsked(c, s) <==> s.ackNum == c.sendNext && !AddFaults(c.out.queue, c.sendNext)
    {
      SynSentReset(c.(inQ := [s]));
    }
    if c.sendInitial >= c.sendNext && !AddFaults(c.out.queue, c.sendNext) {
      var s := Segment(0, c.sendNext, ACK, 0, []);
      assert Refuses(c, s) && ResetsAsAsked(c, s);
    }
  }

  /** In LISTEN an acknowledgement is answered by a reset with the number it acknowledges, as section 3.10.7.2 asks.
      The segment is removed, and the block goes on from that number, wanting number 0. */
  lemma ListenReset(c: Tcb)
    requires c.inQ != [] && c.inQ[0].flags.ack && !c.inQ[0].flags.rst
    ensures var r, s := ListenStep(c), c.inQ[0];
      && r.Present?
      && r.tcb == c.(sendNext := s.ackNum, recvNext := 0, inQ := c.inQ[1..], out := r.tcb.out, fault := r.tcb.fault)
      && r.tcb.fault == (c.fault || AddFaults(c.out.queue, s.ackNum))
      && (if AddFaults(c.out.queue, s.ackNum) then r.tcb.out.built == c.out.built
          else Formed(c, r.tcb, Segment(s.ackNum, 0, RST, c.recvWindow, [])))
  {
    hide Write;
    WriteFrame(c.(sendNext := c.inQ[0].ackNum, recvNext := 0), RST, []);
  }

  /** An acknowledgement that does not complete the handshake. */
  predicate FailsToOpen(c: Tcb, s: Segment)
  {
    InWindow(c, s) && s.flags.ack && !s.flags.rst && !s.flags.syn && !s.flags.fin && !AckOk(c, s.ackNum)
  }

  /** In SYN-RECEIVED the reset is numbered as section 3.10.7.4 asks, but the connection goes on from that number.
      Behind a queue whose head is numbered higher, writing the reset is the null write of the send side. */
  lemma SynReceivedReset(c: Tcb)
    requires c.inQ != [] && c.state.SynReceived? && FailsToOpen(c, c.inQ[0])
    ensures var r, s := OthersRound(c).tcb, c.inQ[0];
      && r == c.(sendNext := s.ackNum, inQ := c.inQ[1..], out := r.out, fault := r.fault)
      && r.fault == (c.fault || AddFaults(c.out.queue, s.ackNum))
      && (if AddFaults(c.out.queue, s.ackNum) then r.out.built == c.out.built
          else Formed(c, r, Segment(s.ackNum, c.recvNext, RST, c.recvWindow, [])))
  {
    hide Write, InWindow;
    WriteFrame(c.(sendNext := c.inQ[0].ackNum), RST, []);
  }

  predicate KeepsNumbering(c: Tcb, s: Segment) { OthersRound(c.(inQ := [s])).tcb.sendNext == c.sendNext }

  /** Every such reset costs the connection its numbering, exactly when something it has sent is unacknowledged, as
      its SYN is until `send_next` has been overwritten once. */
  lemma SynReceivedResetExactly(c: Tcb)
    requires c.state.SynReceived? && c.recvNext + c.recvWindow < TWO32
    ensures (forall s | FailsToOpen(c, s) :: !KeepsNumbering(c, s)) <==> c.sendUna < c.sendNext
  {
    hide OthersRound, InWindow;
    forall s | FailsToOpen(c, s) ensures KeepsNumbering(c, s) <==> s.ackNum == c.sendNext {
      SameWindow(c, c.(inQ := [s]), s);
      RefusedRound(c.(inQ := [s]));
    }
    if c.sendUna >= c.sendNext {
      var s := Segment(c.recvNext, c.sendNext, ACK, 0, []);
      NextIsInWindow(c, s);
      assert FailsToOpen(c, s) && KeepsNumbering(c, s);
    }
  }

  lemma NextIsInWindow(c: Tcb, s: Segment)
    requires c.recvNext + c.recvWindow < TWO32 && s.seqNum == c.recvNext && s.payload == []
    ensures InWindow(c, s)
  {
  }

  /** The same acknowledgement a second time is measured against the number the reset took over: it now completes the
      handshake, exactly when it acknowledged what had not been sent. */
  lemma RefusedThenTaken(c: Tcb)
    requires c.inQ != [] && c.state.SynReceived? && FailsToOpen(c, c.inQ[0]) && c.sendUna < c.sendNext
    ensures var r, s := OthersRound(c).tcb, c.inQ[0];
      && (r.fault <==> c.fault || AddFaults(c.out.queue, s.ackNum))
      && (!r.fault ==> (OthersRound(r.(inQ := [s])).tcb.state.Established? <==> s.ackNum > c.sendNext))
  {
    hide OthersRound, InWindow;
    var r, s := OthersRound(c).tcb, c.inQ[0];
    SynReceivedReset(c);
    SameWindow(c, r.(inQ := [s]), s);
    if s.ackNum > c.sendNext { TakenRound(r.(inQ := [s])); } else { RefusedRound(r.(inQ := [s])); }
  }

  lemma TakenRound(c: Tcb)
    requires c.inQ != [] && Completes(c, c.inQ[0]) && !c.inQ[0].flags.fin
    ensures OthersRound(c).tcb.state.Established?
  {
    hide FinStage;
    OpeningRound(c);
    var s := c.inQ[0];
    NoFin(c.(sendWindow := s.window, lastUpdateSeq := s.seqNum, lastUpdateAck := s.ackNum, state := Established), s);
  }

  lemma RefusedRound(c: Tcb)
    requires c.inQ != [] && c.state.SynReceived? && FailsToOpen(c, c.inQ[0])
    ensures OthersRound(c).tcb.state.SynReceived? && OthersRound(c).tcb.sendNext == c.inQ[0].ackNum
  {
    hide Write, InWindow;
    WriteFrame(c.(sendNext := c.inQ[0].ackNum), RST, []);
  }

  /** tcp_close, which no run reaches, works out that its reset should acknowledge, but writes it without: the flags
      are those of section 3.10.7.1 exactly when the segment it answers carried an acknowledgement itself. */
  lemma CloseAnswersExactly(c: Tcb)
    requires c.inQ != [] && !c.inQ[0].flags.rst
    requires !AddFaults(c.out.queue, if c.inQ[0].flags.ack then c.inQ[0].ackNum else 0)
    ensures var r, s := CloseStep(c), c.inQ[0];
      && r.inQ == c.inQ[1..] && |r.out.built| == |c.out.built| + 1
      && (var f := r.out.built[|c.out.built|];
          && f.seqNum == (if s.flags.ack then s.ackNum else 0)
          && (!s.flags.ack ==> f.ackNum == U32(s.seqNum + |s.payload|))
          && (f.flags == (if s.flags.ack then RST else RST.(ack := true)) <==> s.flags.ack))
  {
    hide Write;
    var s := c.inQ[0];
    WriteFrame(c.(sendNext := s.ackNum), RST, []);
    WriteFrame(c.(sendNext := 0, recvNext := U32(s.seqNum + |s.payload|)), RST, []);
  }

  /** How many of the segments are no resets themselves. */
  function Answerable(q: seq<Segment>): nat
  {
    if q == [] then 0 else Answerable(q[1..]) + if q[0].flags.rst then 0 else 1
  }

  /** tcp_close removes what it is given, and answers each segment but a reset by one reset. */
  lemma {:induction false} CloseConsumes(c: Tcb, n: nat)
    requires n <= |c.inQ|
    ensures var r := Close(c, n);
      r.fault || (r.inQ == c.inQ[n..] && |r.out.built| == |c.out.built| + Answerable(c.inQ[..n]))
    decreases n
  {
    hide CloseStep;
    if n > 0 && !c.fault {
      CloseConsumesOne(c);
      CloseConsumes(CloseStep(c), n - 1);
      assert c.inQ[1..][n - 1..] == c.inQ[n..] && c.inQ[..n][1..] == c.inQ[1..][..n - 1] && c.inQ[..n][0] == c.inQ[0];
    }
  }

  lemma CloseConsumesOne(c: Tcb)
    requires c.inQ != []
    ensures var r := CloseStep(c);
      r.inQ == c.inQ[1..] && (r.fault || |r.out.built| == |c.out.built| + if c.inQ[0].flags.rst then 0 else 1)
  {
    hide Write;
    var s := c.inQ[0];
    WriteFrame(c.(sendNext := s.ackNum), RST, []);
    WriteFrame(c.(sendNext := 0, recvNext := U32(s.seqNum + |s.payload|)), RST, []);
  }
}
