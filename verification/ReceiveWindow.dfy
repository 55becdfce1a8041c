/** The advertised right edge stays where it is: the window shrinks by exactly what is delivered. */
module ReceiveWindow {
  import opened Wire
  import opened BlockQueue
  import opened Engine
  import opened SendQueue
  import opened StateMachine
  import opened Handshake

  /** No FIN, and no byte numbered past the end of the number space. */
  predicate Plain(s: Segment)
  {
    !s.flags.fin && s.seqNum + |s.payload| <= TWO32
  }

  /** What the window test accepts fits the window. */
  lemma AcceptedFits(c: Tcb, s: Segment)
    requires InWindow(c, s) && s.seqNum + |s.payload| <= TWO32
    ensures |s.payload| <= c.recvWindow
  {
  }

  /** Payload that passed the window test: the 16-bit window underflows only if the numbers of the segment wrap, and
      for a segment taken as the continuation exactly then. */
  lemma UnderflowExactly(c: Tcb, s: Segment)
    requires s.payload != [] && InWindow(c, s)
    ensures var fits := ReceivePayload(c, s.payload).recvWindow == c.recvWindow - |s.payload|;
      && (!fits ==> Wraps(s))
      && (Continues(s.seqNum, c.recvNext) ==> (!fits <==> Wraps(s)))
  {
    hide Write;
    WriteFrame(c.(recvNext := U32(c.recvNext + |s.payload|), recvWindow := U16(c.recvWindow - |s.payload|)), ACK, []);
  }

  // ---------------------------------------------------------------- the window test

  /** The distance from `receive_next`, modulo 2^32, lies within the window. */
  predicate Inside(c: Tcb, n: int) { (n - c.recvNext) % TWO32 < c.recvWindow }

  predicate FirstInside(c: Tcb, s: Segment) { Inside(c, s.seqNum) }

  predicate LastInside(c: Tcb, s: Segment) { Inside(c, s.seqNum + |s.payload| - 1) }

  /** The four cases of section 3.10.7.4 of RFC 9293: data needs its first or its last byte in an open window. */
  predicate Acceptable(c: Tcb, s: Segment)
  {
    if s.payload == [] then (if c.recvWindow == 0 then s.seqNum == c.recvNext else FirstInside(c, s))
    else c.recvWindow > 0 && (FirstInside(c, s) || LastInside(c, s))
  }

  predicate Wraps(s: Segment) { s.seqNum + |s.payload| > TWO32 }

  /** The test used, with plain comparisons and asking for both ends of the data, decides as RFC 9293 does exactly
      - for a closed window, always;
      - for a window inside the number space, when there is no data, when both ends of the data lie on the same side,
        or when the data starts in the window and its numbers wrap;
      - for a window that reaches the end of the number space, when there is nothing to accept. */
  lemma WindowTestExactly(c: Tcb, s: Segment)
    ensures (InWindow(c, s) <==> Acceptable(c, s)) <==>
            (|| c.recvWindow == 0
             || (if c.recvNext + c.recvWindow < TWO32
                 then s.payload == [] || (FirstInside(c, s) <==> LastInside(c, s)) || (FirstInside(c, s) && Wraps(s))
                 else !FirstInside(c, s) && (s.payload == [] || !LastInside(c, s))))
  {
    if c.recvNext + c.recvWindow < TWO32 {
      InsideIs(c, s.seqNum);
      if s.payload != [] { EndIs(c, s); }
    } else {
      assert U32(c.recvNext + c.recvWindow) == c.recvNext + c.recvWindow - TWO32;
    }
  }

  lemma EndIs(c: Tcb, s: Segment)
    requires s.payload != [] && c.recvNext + c.recvWindow < TWO32
    ensures var end := if Wraps(s) then s.seqNum + |s.payload| - 1 - TWO32 else s.seqNum + |s.payload| - 1;
      && end == U32(s.seqNum + |s.payload| - 1)
      && (LastInside(c, s) <==> c.recvNext <= end < c.recvNext + c.recvWindow)
  {
    var n := s.seqNum + |s.payload| - 1;
    var end := if Wraps(s) then n - TWO32 else n;
    InsideIs(c, end);
    if Wraps(s) { ShiftIs(c, end); }
  }

  lemma ShiftIs(c: Tcb, n: u32)
    ensures Inside(c, n + TWO32) <==> Inside(c, n)
  {
    var d := n - c.recvNext;
    assert (d + TWO32) % TWO32 == d % TWO32;
  }

  /** Without data the two tests agree on all segments exactly when the window does not reach the end of the number
      space; with data, only when the window is closed. */
  lemma WindowTestEverywhere(c: Tcb)
    ensures (forall s: Segment | s.payload == [] :: InWindow(c, s) <==> Acceptable(c, s)) <==>
            (c.recvWindow == 0 || c.recvNext + c.recvWindow < TWO32)
    ensures (forall s: Segment :: InWindow(c, s) <==> Acceptable(c, s)) <==> c.recvWindow == 0
  {
    hide InWindow, Acceptable, Inside, LastInside;
    forall s: Segment
      ensures (InWindow(c, s) <==> Acceptable(c, s)) <==>
              (|| c.recvWindow == 0
               || (if c.recvNext + c.recvWindow < TWO32
                   then s.payload == [] || (FirstInside(c, s) <==> LastInside(c, s)) || (FirstInside(c, s) && Wraps(s))
                   else !FirstInside(c, s) && (s.payload == [] || !LastInside(c, s))))
    {
      WindowTestExactly(c, s);
    }
    if c.recvWindow > 0 {
      NextIsInside(c);
      var next := Segment(c.recvNext, 0, ACK, 0, []);
      assert FirstInside(c, next);
      if c.recvNext + c.recvWindow < TWO32 {
        var over := Segment(c.recvNext + c.recvWindow - 1, 0, ACK, 0, [0, 0]);
        EdgeIsOutside(c, over);
        assert !(InWindow(c, over) <==> Acceptable(c, over));
      } else {
        assert !(InWindow(c, next) <==> Acceptable(c, next));
      }
    }
  }

  lemma NextIsInside(c: Tcb)
    requires c.recvWindow > 0
    ensures Inside(c, c.recvNext)
  {
  }

  /** Data that starts at the last number of the window and ends after it. */
  lemma EdgeIsOutside(c: Tcb, s: Segment)
    requires 0 < c.recvWindow && c.recvNext + c.recvWindow < TWO32
    requires s.seqNum == c.recvNext + c.recvWindow - 1 && |s.payload| == 2
    ensures FirstInside(c, s) && !LastInside(c, s) && !Wraps(s)
  {
    InsideIs(c, s.seqNum);
    InsideIs(c, s.seqNum + 1) by { assert s.seqNum + 1 < TWO32; }
  }

  lemma InsideIs(c: Tcb, n: u32)
    requires c.recvNext + c.recvWindow < TWO32
    ensures Inside(c, n) <==> c.recvNext <= n < c.recvNext + c.recvWindow
  {
    if n < c.recvNext { assert (n - c.recvNext) % TWO32 == n - c.recvNext + TWO32; }
  }

  /**
   * A synchronized block between SYN and FIN: its right edge is `edge`, bytes delivered and window add up
   * to `total`, and every segment formed since the first `from` advertised that edge.
   */
  ghost predicate Transfers(c: Tcb, edge: u32, total: nat, from: nat)
  {
    && c.handler.RunOthers? && (c.state.SynReceived? || c.state.Established?)
    && (forall s | s in c.inQ :: Plain(s))
    && U32(c.recvNext + c.recvWindow) == edge
    && |c.delivered| + c.recvWindow == total
    && from <= |c.out.built|
    && forall i | from <= i < |c.out.built| :: Advertises(c.out.built[i], edge)
  }

  predicate Advertises(s: Segment, edge: u32) { U32(s.ackNum + s.window) == edge }

  lemma WriteTransfers(c: Tcb, flags: Flags, payload: Payload, edge: u32, total: nat, from: nat)
    requires Transfers(c, edge, total, from)
    ensures Transfers(Write(c, flags, payload), edge, total, from)
  {
    hide Write;
    WriteFrame(c, flags, payload);
  }

  lemma PayloadTransfers(c: Tcb, payload: Payload, edge: u32, total: nat, from: nat)
    requires Transfers(c, edge, total, from) && |payload| <= c.recvWindow
    ensures Transfers(ReceivePayload(c, payload), edge, total, from)
  {
    hide Write, Plain, Advertises;
    var m := c.(recvNext := U32(c.recvNext + |payload|), recvWindow := c.recvWindow - |payload|);
    SameEdge(c, m, |payload|);
    WriteTransfers(m, ACK, [], edge, total - |payload|, from);
    WriteFrame(m, ACK, []);
  }

  /** The window shrinks from its left. */
  lemma SameEdge(c: Tcb, m: Tcb, n: nat)
    requires m.recvNext == U32(c.recvNext + n) && m.recvWindow == c.recvWindow - n
    ensures U32(m.recvNext + m.recvWindow) == U32(c.recvNext + c.recvWindow)
  {
  }

  lemma AckStageTransfers(c: Tcb, s: Segment, edge: u32, total: nat, from: nat)
    requires Transfers(c, edge, total, from)
    ensures var a := AckStage(c, s);
      Transfers(a.tcb, edge, total, from) && a.tcb.recvWindow == c.recvWindow
  {
    hide Write;
    WriteFrame(c, ACK, []);
    WriteFrame(c.(sendNext := s.ackNum), RST, []);
    WriteTransfers(c, ACK, [], edge, total, from);
    WriteTransfers(c.(sendNext := s.ackNum), RST, [], edge, total, from);
  }

  lemma PopTransfers(c: Tcb, edge: u32, total: nat, from: nat)
    requires Transfers(c, edge, total, from)
    ensures Transfers(Pop(c), edge, total, from)
    ensures forall u :: Transfers(c.(upcalls := u), edge, total, from)
  {
  }

  lemma RoundTransfers(c: Tcb, edge: u32, total: nat, from: nat)
    requires Transfers(c, edge, total, from) && c.inQ != []
    ensures Transfers(OthersRound(c).tcb, edge, total, from)
  {
    var s := c.inQ[0];
    assert Plain(s);
    hide Write, AckStage, InWindow, ReceivePayload, Transfers;
    PopTransfers(c, edge, total, from);
    WriteTransfers(c, ACK, [], edge, total, from);
    PopTransfers(Write(c, ACK, []), edge, total, from);
    AckStageTransfers(c, s, edge, total, from);
    var p := PayloadStage(AckStage(c, s).tcb, s, c.state);
    if InWindow(c, s) {
      AcceptedFits(c, s);
      PayloadTransfers(AckStage(c, s).tcb, s.payload, edge, total, from);
      PopTransfers(p, edge, total, from);
    }
  }

  lemma {:induction false} BatchTransfers(c: Tcb, n: nat, edge: u32, total: nat, from: nat)
    requires Transfers(c, edge, total, from)
    ensures Transfers(Others(c, n), edge, total, from)
    decreases n
  {
    hide OthersRound;
    if n > 0 && !c.fault && c.inQ != [] {
      RoundTransfers(c, edge, total, from);
      BatchTransfers(OthersRound(c).tcb, n - 1, edge, total, from);
    }
  }

  predicate PlainEvent(e: Event) { e.Arrive? ==> Plain(e.s) }

  lemma HappenTransfers(c: Tcb, e: Event, patched: bool, edge: u32, total: nat, from: nat)
    requires Transfers(c, edge, total, from) && PlainEvent(e)
    ensures var r := Happen(Present(c), e, patched); r.Present? && Transfers(r.tcb, edge, total, from)
  {
    hide Others, Write;
    match e {
      case Arrive(s, cfg) =>
        InsertSplits(c.inQ, s);
        var c1 := c.(inQ := Buffered(c.inQ, s));
        BatchTransfers(c1, Ready(c1.inQ, c1.recvNext), edge, total, from);
      case Submit(p) =>
        WriteTransfers(c, PSH_ACK, p, edge, total, from);
      case LinkTo(up) =>
    }
  }

  /** Over any run between SYN and FIN: bytes delivered plus the window stay the initial window, and every
      segment sent advertises the same right edge. */
  lemma {:induction false} RightEdgeIsFixed(c: Tcb, es: seq<Event>, patched: bool, edge: u32, total: nat, from: nat)
    requires Transfers(c, edge, total, from) && forall e | e in es :: PlainEvent(e)
    ensures var r := HappenAll(Present(c), es, patched); r.Present? && Transfers(r.tcb, edge, total, from)
    decreases |es|
  {
    hide Happen;
    if es != [] {
      HappenTransfers(c, es[0], patched, edge, total, from);
      RightEdgeIsFixed(Happen(Present(c), es[0], patched).tcb, es[1..], patched, edge, total, from);
    }
  }

  /** The listening side starts such a run: its first segment already advertises the edge it will keep. */
  lemma ListenStartsTransfer(cfg: Config, s: Segment, patched: bool)
    requires s.flags.syn && !s.flags.rst && !s.flags.ack && cfg.initial + 1 < TWO32
    ensures var r := Read(Absent, s, cfg, patched);
      r.Present? && Transfers(r.tcb, U32(U32(s.seqNum + 1) + cfg.window), cfg.window, 0)
  {
    hide Read, Write;
    ListenAnswers(cfg, s, patched);
    var c2 := Create(cfg, s, Listen).(recvNext := U32(s.seqNum + 1), state := SynReceived, handler := RunOthers);
    WriteTransfers(c2, SYN_ACK, [], U32(U32(s.seqNum + 1) + cfg.window), cfg.window, 0);
  }

  /** The connecting side takes payload on the SYN without looking at its window: it starts such a run with the
      configured window exactly when that payload fits, and otherwise the window underflows. */
  lemma ConnectStartsTransfer(c: Tcb, s: Segment, patched: bool)
    requires Connects(c, s) && c.delivered == []
    ensures var r, taken := Receive(c, s, patched), if s.flags.ack then s.payload else [];
      && r.Present? && r.tcb.delivered == taken && r.tcb.recvWindow == U16(c.recvWindow - |taken|)
      && (Transfers(r.tcb, U32(U32(s.seqNum + 1) + c.recvWindow), c.recvWindow, |c.out.built|) <==> |taken| <= c.recvWindow)
  {
    hide Receive, Write, Transfers;
    ConnectsIs(c, s, patched);
    var edge := U32(U32(s.seqNum + 1) + c.recvWindow);
    var c2 := c.(recvInitial := s.seqNum, recvNext := U32(s.seqNum + 1), inQ := [s],
                 sendUna := if s.flags.ack then s.ackNum else c.sendUna);
    AnswerTransfers(c2, s, edge);
    var a := AnswerSyn(c2, s);
    LateFields(a, s, edge, c.recvWindow, |c.out.built|);
  }

  lemma AnswerTransfers(c: Tcb, s: Segment, edge: u32)
    requires c.inQ == [s] && c.delivered == [] && edge == U32(c.recvNext + c.recvWindow)
    ensures var a, taken := AnswerSyn(c, s), if c.sendUna > c.sendInitial then s.payload else [];
      && a.inQ == [s] && a.delivered == taken && a.recvWindow == U16(c.recvWindow - |taken|)
      && (|taken| <= c.recvWindow <==> Transfers(a.(inQ := []), edge, c.recvWindow, |c.out.built|))
  {
    hide Write, Transfers;
    var e := c.(state := Established, handler := RunOthers);
    FirstWrite(c.(state := SynReceived, handler := RunOthers), s, SYN_ACK, edge);
    FirstWrite(e, s, ACK, edge);
    if c.sendUna > c.sendInitial && s.payload != [] {
      FirstPayload(e, s, edge);
    }
  }

  /** A synchronized block that has delivered nothing answers. */
  lemma FirstWrite(c: Tcb, s: Segment, flags: Flags, edge: u32)
    requires c.handler.RunOthers? && (c.state.SynReceived? || c.state.Established?)
    requires c.inQ == [s] && c.delivered == [] && edge == U32(c.recvNext + c.recvWindow)
    ensures var w := Write(c, flags, []);
      && w.inQ == [s] && w.delivered == [] && w.recvWindow == c.recvWindow
      && Transfers(w.(inQ := []), edge, c.recvWindow, |c.out.built|)
      && forall u :: Transfers(w.(inQ := [], upcalls := u), edge, c.recvWindow, |c.out.built|)
  {
    hide Write;
    WriteFrame(c, flags, []);
  }

  /** The same for payload that comes with the answer. */
  lemma FirstPayload(c: Tcb, s: Segment, edge: u32)
    requires c.handler.RunOthers? && c.state.Established?
    requires c.inQ == [s] && c.delivered == [] && edge == U32(c.recvNext + c.recvWindow)
    ensures var w := ReceivePayload(c, s.payload);
      && w.inQ == [s] && w.delivered == s.payload && w.recvWindow == U16(c.recvWindow - |s.payload|)
      && forall u :: |s.payload| <= c.recvWindow <==> Transfers(w.(inQ := [], upcalls := u), edge, c.recvWindow, |c.out.built|)
  {
    hide Write, Plain;
    var m := c.(recvNext := U32(c.recvNext + |s.payload|), recvWindow := U16(c.recvWindow - |s.payload|));
    WriteFrame(m, ACK, []);
    assert [] + s.payload == s.payload;
    if |s.payload| <= c.recvWindow { SameEdge(c, m, |s.payload|); }
  }

  lemma LateFields(a: Tcb, s: Segment, edge: u32, total: nat, from: nat)
    requires a.inQ == [s]
    ensures var r := Pop(a.(sendWindow := s.window, lastUpdateSeq := s.seqNum, lastUpdateAck := s.ackNum));
      && r.delivered == a.delivered && r.recvWindow == a.recvWindow
      && (Transfers(r, edge, total, from) <==> Transfers(a.(inQ := []), edge, total, from))
  {
  }

  /** Straight after connecting, whatever the window: the payload of the answer is delivered, and taken off it. */
  lemma AnswerAfterConnect(cfg: Config, s: Segment, patched: bool)
    requires cfg.initial + 1 < TWO32 && s.flags == SYN_ACK && s.ackNum == cfg.initial + 1
    ensures var r := Receive(Connect(cfg, true), s, patched);
      r.Present? && r.tcb.delivered == s.payload && r.tcb.recvWindow == U16(cfg.window - |s.payload|)
  {
    hide Receive, Connect, Form, Transfers, AnswerSyn, U16;
    ConnectIs(cfg);
    ConnectStartsTransfer(Connect(cfg, true), s, patched);
  }

  /** A window of one byte, and a SYN-ACK with two: both are delivered, and the window becomes 65535. */
  lemma SynAckOverrunsTheWindow(cfg: Config, s: Segment, patched: bool)
    requires cfg == Config(100, 1, true) && s == Segment(500, 101, SYN_ACK, 1000, [1, 2])
    ensures var r := Receive(Connect(cfg, true), s, patched);
      r.Present? && r.tcb.delivered == [1, 2] && r.tcb.recvWindow == 0xFFFF
  {
    hide Receive, Connect;
    AnswerAfterConnect(cfg, s, patched);
  }
}
