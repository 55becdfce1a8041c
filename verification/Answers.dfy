/** What a segment is answered with, what is removed and what is delivered: the rounds of tcp_others, told by what is
    in the segment. */
module Answers {
  import opened Wire
  import opened BlockQueue
  import opened Engine
  import opened SendQueue
  import opened StateMachine
  import opened Handshake
  import opened Resets

  // ---------------------------------------------------------------- one round

  /** The segment is acceptable, opens or resets nothing, and acknowledges. */
  predicate Acknowledges(c: Tcb, s: Segment)
  {
    InWindow(c, s) && !s.flags.rst && !s.flags.syn && s.flags.ack
  }

  /** Its payload is delivered: in ESTABLISHED alone, unless it acknowledges what has not been sent. */
  predicate IsDelivered(c: Tcb, s: Segment)
  {
    Acknowledges(c, s) && c.state.Established? && s.ackNum <= c.sendNext && s.payload != []
  }

  /** The plain acknowledgement of what has been received. */
  function Plain(c: Tcb): Segment { Segment(c.sendNext, c.recvNext, ACK, c.recvWindow, []) }

  /** What the first segment in the queue is answered with before its payload and its FIN are looked at. */
  function FirstAnswer(c: Tcb, s: Segment): seq<Segment>
  {
    if !InWindow(c, s) then (if s.flags.rst then [] else [Plain(c)])
    else if s.flags.rst then []
    else if s.flags.syn then (if c.state.SynReceived? && !c.active then [] else [Plain(c)])
    else if !s.flags.ack then []
    else if c.state.SynReceived? then
      if c.sendUna < s.ackNum <= c.sendNext then [] else [Segment(s.ackNum, c.recvNext, RST, c.recvWindow, [])]
    else if s.ackNum > c.sendNext then [Plain(c)]
    else []
  }

  /** The number the answer to a FIN carries: the reset of SYN-RECEIVED has taken over the acknowledged one. */
  function FinNumber(c: Tcb, s: Segment): u32
  {
    if c.state.SynReceived? && !(c.sendUna < s.ackNum <= c.sendNext) then s.ackNum else c.sendNext
  }

  function Answer(c: Tcb, s: Segment): seq<Segment>
  {
    var window := if IsDelivered(c, s) then U16(c.recvWindow - |s.payload|) else c.recvWindow;
    FirstAnswer(c, s)
    + (if IsDelivered(c, s) then [Segment(c.sendNext, U32(c.recvNext + |s.payload|), ACK, window, [])] else [])
    + (if Acknowledges(c, s) && s.flags.fin && (c.state.SynReceived? || s.ackNum <= c.sendNext)
       then [Segment(FinNumber(c, s), U32(s.seqNum + 1), FIN_ACK, window, [])] else [])
  }

  /** In the states that are reached, a round forms exactly these segments, unless writing one faults. */
  lemma AnsweredExactly(c: Tcb)
    requires Sound(c) && c.handler.RunOthers? && c.inQ != []
    ensures var r := OthersRound(c).tcb; r.fault || r.out.built == c.out.built + Answer(c, c.inQ[0])
  {
    hide OthersRound, AckStage, PayloadStage, FinStage, Acknowledges, FirstAnswer, FinNumber;
    var s, b := c.inQ[0], c.out.built;
    if !Acknowledges(c, s) {
      AnsweredAtOnce(c);
      NothingMore(b, FirstAnswer(c, s));
    } else {
      AcknowledgingRound(c);
      FirstAnswered(c, s);
      var a := AckStage(c, s);
      if a.exit == Continue {
        NothingMore(b, FirstAnswer(c, s));
      } else {
        PayloadAnswered(a.tcb, s, c.state);
        var p := PayloadStage(a.tcb, s, c.state);
        FinAnsweredToo(p, s, c.state);
        AllThree(b, FirstAnswer(c, s),
                 if c.state.Established? && s.payload != []
                 then [Segment(a.tcb.sendNext, U32(c.recvNext + |s.payload|), ACK, p.recvWindow, [])] else [],
                 if s.flags.fin then [Segment(p.sendNext, U32(s.seqNum + 1), FIN_ACK, p.recvWindow, [])] else []);
        if IsDelivered(c, s) { OwnNumber(c, s); }
      }
    }
  }

  lemma OwnNumber(c: Tcb, s: Segment)
    requires c.state.Established?
    ensures FinNumber(c, s) == c.sendNext
  {
  }

  lemma NothingMore(b: seq<Segment>, x: seq<Segment>)
    ensures b + (x + [] + []) == b + x
  {
  }

  lemma AllThree(b: seq<Segment>, x: seq<Segment>, p: seq<Segment>, f: seq<Segment>)
    ensures b + x + p + f == b + (x + p + f)
  {
  }

  /** A segment that does not acknowledge is answered, if at all, at once. */
  lemma AnsweredAtOnce(c: Tcb)
    requires c.inQ != [] && !Acknowledges(c, c.inQ[0])
    ensures var r := OthersRound(c).tcb;
      r.delivered == c.delivered && r.recvWindow == c.recvWindow
      && (r.fault || r.out.built == c.out.built + FirstAnswer(c, c.inQ[0]))
  {
    hide Write, InWindow;
    WriteFrame(c, ACK, []);
    assert c.out.built + [] == c.out.built;
  }

  lemma AcknowledgingRound(c: Tcb)
    requires c.inQ != [] && Acknowledges(c, c.inQ[0])
    ensures var s := c.inQ[0];
      var a := AckStage(c, s);
      OthersRound(c).tcb == if a.exit == Continue then a.tcb else Pop(FinStage(PayloadStage(a.tcb, s, c.state), s, c.state))
  {
    hide AckStage, PayloadStage, FinStage, InWindow;
  }

  lemma FirstAnswered(c: Tcb, s: Segment)
    requires Acknowledges(c, s) && (c.state.SynReceived? || c.state.Established? || c.state.CloseWait?)
    ensures var a := AckStage(c, s);
      && (a.exit == Continue <==> !c.state.SynReceived? && s.ackNum > c.sendNext) && a.exit != Return
      && (a.tcb.fault || a.tcb.out.built == c.out.built + FirstAnswer(c, s))
      && a.tcb.recvNext == c.recvNext && a.tcb.recvWindow == c.recvWindow && a.tcb.delivered == c.delivered
      && a.tcb.sendNext == FinNumber(c, s)
  {
    hide Write, TakeAck, InWindow;
    TakeAckFrame(c, s);
    WriteFrame(c, ACK, []);
    WriteFrame(c.(sendNext := s.ackNum), RST, []);
    assert c.out.built + [] == c.out.built;
  }

  lemma PayloadAnswered(c: Tcb, s: Segment, state: State)
    requires state.SynReceived? || state.Established? || state.CloseWait?
    ensures var p, taken := PayloadStage(c, s, state), state.Established? && s.payload != [];
      && p.recvWindow == (if taken then U16(c.recvWindow - |s.payload|) else c.recvWindow) && p.sendNext == c.sendNext
      && p.delivered == (if taken then c.delivered + s.payload else c.delivered) && (c.fault ==> p.fault)
      && (p.fault || p.out.built == c.out.built +
            if taken then [Segment(c.sendNext, U32(c.recvNext + |s.payload|), ACK, p.recvWindow, [])] else [])
  {
    hide Write;
    WriteFrame(c.(recvNext := U32(c.recvNext + |s.payload|), recvWindow := U16(c.recvWindow - |s.payload|)), ACK, []);
    assert c.out.built + [] == c.out.built;
  }

  lemma FinAnsweredToo(c: Tcb, s: Segment, state: State)
    requires state.SynReceived? || state.Established? || state.CloseWait?
    ensures var f := FinStage(c, s, state);
      && f.delivered == c.delivered && f.recvWindow == c.recvWindow && (c.fault ==> f.fault)
      && (f.fault || f.out.built == c.out.built +
            if s.flags.fin then [Segment(c.sendNext, U32(s.seqNum + 1), FIN_ACK, c.recvWindow, [])] else [])
  {
    hide Write;
    WriteFrame(c.(recvNext := U32(s.seqNum + 1)), FIN_ACK, []);
    assert c.out.built + [] == c.out.built;
  }

  /** And delivers exactly this. */
  lemma DeliveredExactly(c: Tcb)
    requires Sound(c) && c.handler.RunOthers? && c.inQ != []
    ensures var r, s := OthersRound(c).tcb, c.inQ[0];
      && r.delivered == c.delivered + (if IsDelivered(c, s) then s.payload else [])
      && r.recvWindow == if IsDelivered(c, s) then U16(c.recvWindow - |s.payload|) else c.recvWindow
  {
    hide OthersRound, AckStage, PayloadStage, FinStage, Acknowledges;
    var s := c.inQ[0];
    assert c.delivered + [] == c.delivered;
    if !Acknowledges(c, s) {
      AnsweredAtOnce(c);
    } else {
      AcknowledgingRound(c);
      FirstAnswered(c, s);
      var a := AckStage(c, s);
      if a.exit == Bottom {
        PayloadAnswered(a.tcb, s, c.state);
        FinAnsweredToo(PayloadStage(a.tcb, s, c.state), s, c.state);
      }
    }
  }

  /** An acknowledgement of our FIN in a state that waits for one; none of these is reached. */
  predicate EndsFin(c: Tcb, s: Segment)
  {
    && Acknowledges(c, s) && (c.state.FinWait1? || c.state.Closing?)
    && s.ackNum <= c.sendNext && c.finNum != 0 && s.ackNum >= c.finNum
  }

  /** From any state: a round that does not return removes one segment, and in FIN-WAIT-1 and CLOSING a second one
      exactly with the acknowledgement of our FIN. */
  lemma RemovedExactly(c: Tcb)
    requires c.inQ != []
    ensures var r, s := OthersRound(c), c.inQ[0];
      r.tcb.inQ == if r.exit == Return then c.inQ
                   else if EndsFin(c, s) && |c.inQ| > 1 then c.inQ[2..] else c.inQ[1..]
  {
    hide Write, InWindow, AckStage, PayloadStage, FinStage;
    var s := c.inQ[0];
    WriteFrame(c, ACK, []);
    AckStageRemoves(c, s);
    var a := AckStage(c, s).tcb;
    PayloadStageFrame(a, s, c.state);
    FinStageFrame(PayloadStage(a, s, c.state), s, c.state);
    assert |c.inQ| > 1 ==> c.inQ[1..][1..] == c.inQ[2..];
    assert |c.inQ| == 1 ==> c.inQ[1..] == [];
  }

  lemma AckStageRemoves(c: Tcb, s: Segment)
    ensures var a := AckStage(c, s);
      && a.exit != Return && (a.exit == Continue ==> s.ackNum > c.sendNext)
      && a.tcb.inQ == if a.exit == Continue || (&& s.ackNum <= c.sendNext && (c.state.FinWait1? || c.state.Closing?)
                                                && c.finNum != 0 && s.ackNum >= c.finNum)
                      then Pop(c).inQ else c.inQ
  {
    hide Write, TakeAck;
    TakeAckFrame(c, s);
    WriteFrame(c, ACK, []);
    WriteFrame(c.(sendNext := s.ackNum), RST, []);
  }

  // ---------------------------------------------------------------- resets are not answered

  /** Before the connection is synchronized and after, an arriving reset is answered exactly in SYN-SENT, and there
      exactly if it acknowledges what is not acceptable; section 3.10.7.3 has it dropped. */
  lemma ResetAnsweredExactly(c: Tcb, s: Segment, patched: bool)
    requires Sound(c) && !c.fault && c.inQ == [] && s.flags.rst
    ensures var r := Receive(c, s, patched);
      r.Absent? || r.tcb.fault || (r.tcb.out.built != c.out.built <==> c.state.SynSent? && Refuses(c, s))
  {
    hide Write, InWindow, OthersRound, ListenStep, SynSentStep;
    var d := c.(inQ := [s], recvNext := if c.state.SynSent? then s.seqNum else c.recvNext);
    assert Insert([], s) == [s];
    assert Ready([s], d.recvNext) == if Continues(s.seqNum, d.recvNext) then 1 + Ready([], After(s)) else 0;
    if Ready([s], d.recvNext) == 1 {
      match d.handler {
        case RunListen => ListenDeletes(d);
        case RunSynSent => ConnectingReset(d);
        case RunOthers =>
          AnsweredExactly(d);
          assert Answer(d, s) == [] by { NoAnswerToReset(d, s); }
          assert Others(d, 1) == OthersRound(d).tcb;
      }
    }
  }

  lemma NoAnswerToReset(c: Tcb, s: Segment)
    requires s.flags.rst
    ensures Answer(c, s) == []
  {
  }

  lemma ListenDeletes(d: Tcb)
    requires d.inQ != [] && d.inQ[0].flags.rst
    ensures ListenStep(d).Absent?
  {
  }

  lemma ConnectingReset(d: Tcb)
    requires d.inQ != [] && d.inQ[0].flags.rst
    ensures var r := SynSentStep(d);
      r.Absent? || r.tcb.fault || (r.tcb.out.built != d.out.built <==> Refuses(d, d.inQ[0]))
  {
    hide Write;
    WriteFrame(d, RST, []);
    if Refuses(d, d.inQ[0]) && !SynSentStep(d).tcb.fault {
      assert |SynSentStep(d).tcb.out.built| == |d.out.built| + 1;
    }
  }

  // ---------------------------------------------------------------- nothing after the FIN

  lemma {:induction false} BatchDeliversNothing(c: Tcb, n: nat)
    requires Sound(c) && c.state.CloseWait? && n <= |c.inQ|
    ensures var r := Others(c, n); r.state.CloseWait? && r.delivered == c.delivered && r.recvWindow == c.recvWindow
    decreases n
  {
    hide OthersRound;
    if n > 0 && !c.fault {
      DeliveredExactly(c);
      assert c.delivered + [] == c.delivered;
      RoundIsSound(c);
      RoundFollowsArrow(c);
      if OthersRound(c).exit != Return { BatchDeliversNothing(OthersRound(c).tcb, n - 1); }
    }
  }

  lemma HappensAfterFin(c: Tcb, e: Event, patched: bool)
    requires Sound(c) && c.state.CloseWait?
    ensures var r := Happen(Present(c), e, patched);
      && r.Present? && Sound(r.tcb) && r.tcb.state.CloseWait?
      && r.tcb.delivered == c.delivered && r.tcb.recvWindow == c.recvWindow
  {
    hide Others, Write, Insert;
    HappenIsSound(Present(c), e, patched);
    match e {
      case Arrive(s, cfg) =>
        var d := c.(inQ := Buffered(c.inQ, s));
        BatchDeliversNothing(d, Ready(d.inQ, d.recvNext));
      case Submit(p) => WriteFrame(c, PSH_ACK, p);
      case LinkTo(up) =>
    }
  }

  /** Once the other side has finished, no run delivers another byte. */
  lemma {:induction false} NothingAfterFin(c: Tcb, es: seq<Event>, patched: bool)
    requires Sound(c) && c.state.CloseWait?
    ensures var r := HappenAll(Present(c), es, patched);
      r.Present? && r.tcb.state.CloseWait? && r.tcb.delivered == c.delivered && r.tcb.recvWindow == c.recvWindow
    decreases |es|
  {
    hide Happen;
    if es != [] {
      HappensAfterFin(c, es[0], patched);
      NothingAfterFin(Happen(Present(c), es[0], patched).tcb, es[1..], patched);
    }
  }

  // ---------------------------------------------------------------- the kinds of segments

  /** Data is pushed and acknowledges; everything else is empty, and one of five. */
  predicate Kind(s: Segment)
  {
    || s.flags == PSH_ACK
    || (s.payload == [] && s.flags in {RST, ACK, SYN, SYN_ACK, FIN_ACK})
  }

  predicate AllOfAKind(c: Tcb) { forall i | 0 <= i < |c.out.built| :: Kind(c.out.built[i]) }

  predicate SlotOfAKind(slot: Slot) { slot.Present? ==> AllOfAKind(slot.tcb) }

  lemma WriteOfAKind(c: Tcb, flags: Flags, payload: Payload)
    requires AllOfAKind(c)
    requires flags == PSH_ACK || (payload == [] && flags in {RST, ACK, SYN, SYN_ACK, FIN_ACK})
    ensures AllOfAKind(Write(c, flags, payload))
  {
    hide Write;
    WriteFrame(c, flags, payload);
    assert Kind(Form(c, flags, payload));
  }

  lemma StagesOfAKind(c: Tcb, s: Segment, state: State)
    requires AllOfAKind(c)
    ensures AllOfAKind(AckStage(c, s).tcb) && AllOfAKind(PayloadStage(c, s, state)) && AllOfAKind(FinStage(c, s, state))
  {
    hide Write, TakeAck;
    TakeAckFrame(c, s);
    WriteOfAKind(c, ACK, []);
    WriteOfAKind(c.(sendNext := s.ackNum), RST, []);
    WriteOfAKind(c.(recvNext := U32(c.recvNext + |s.payload|), recvWindow := U16(c.recvWindow - |s.payload|)), ACK, []);
    WriteOfAKind(c.(recvNext := U32(s.seqNum + 1)), FIN_ACK, []);
  }

  lemma {:induction false} BatchOfAKind(c: Tcb, n: nat)
    requires AllOfAKind(c)
    ensures AllOfAKind(Others(c, n))
    decreases n
  {
    hide OthersRound, AllOfAKind;
    if n > 0 && !c.fault {
      if c.inQ == [] {
        SameTrace(c, c.(fault := true));
      } else {
        RoundOfAKind(c);
        if OthersRound(c).exit != Return { BatchOfAKind(OthersRound(c).tcb, n - 1); }
      }
    }
  }

  lemma SameTrace(c: Tcb, r: Tcb)
    requires r.out.built == c.out.built
    ensures AllOfAKind(c) ==> AllOfAKind(r)
  {
  }

  lemma RoundOfAKind(c: Tcb)
    requires AllOfAKind(c) && c.inQ != []
    ensures AllOfAKind(OthersRound(c).tcb)
  {
    hide Write, InWindow, AckStage, PayloadStage, FinStage;
    var s := c.inQ[0];
    WriteOfAKind(c, ACK, []);
    StagesOfAKind(c, s, c.state);
    var a := AckStage(c, s).tcb;
    StagesOfAKind(a, s, c.state);
    StagesOfAKind(PayloadStage(a, s, c.state), s, c.state);
  }

  lemma OpeningOfAKind(c: Tcb)
    requires AllOfAKind(c) && c.inQ != []
    ensures SlotOfAKind(ListenStep(c)) && SlotOfAKind(SynSentStep(c))
  {
    hide Write;
    var s := c.inQ[0];
    WriteOfAKind(c, RST, []);
    WriteOfAKind(c.(sendNext := s.ackNum, recvNext := 0), RST, []);
    WriteOfAKind(c.(recvInitial := s.seqNum, recvNext := U32(s.seqNum + 1), state := SynReceived,
                    handler := RunOthers, sendNext := c.sendInitial), SYN_ACK, []);
    var c1 := c.(recvInitial := s.seqNum, recvNext := U32(s.seqNum + 1),
                 sendUna := if s.flags.ack then s.ackNum else c.sendUna);
    var e := c1.(state := Established, handler := RunOthers);
    WriteOfAKind(e, ACK, []);
    WriteOfAKind(e.(recvNext := U32(e.recvNext + |s.payload|), recvWindow := U16(e.recvWindow - |s.payload|)), ACK, []);
    WriteOfAKind(c1.(state := SynReceived, handler := RunOthers), SYN_ACK, []);
  }

  lemma ReceiveOfAKind(c: Tcb, s: Segment, patched: bool)
    requires Sound(c) && AllOfAKind(c)
    ensures SlotOfAKind(Receive(c, s, patched))
  {
    hide Others, ListenStep, SynSentStep, Insert;
    var d := c.(inQ := Buffered(c.inQ, s), recvNext := if c.state.SynSent? then s.seqNum else c.recvNext);
    var n := Ready(d.inQ, d.recvNext);
    if n > 0 {
      OpeningOfAKind(d);
      BatchOfAKind(d, n);
    }
  }

  lemma HappenOfAKind(slot: Slot, e: Event, patched: bool)
    requires SlotSound(slot) && SlotOfAKind(slot)
    ensures SlotOfAKind(Happen(slot, e, patched))
  {
    hide Receive, Write;
    match e {
      case Arrive(s, cfg) =>
        if slot.Present? {
          if !slot.tcb.fault { ReceiveOfAKind(slot.tcb, s, patched); }
        } else if s.flags.syn {
          ReceiveOfAKind(Create(cfg, s, Listen), s, patched);
        }
      case Submit(p) => if slot.Present? { WriteOfAKind(slot.tcb, PSH_ACK, p); }
      case LinkTo(up) =>
    }
  }

  /** Over every run the segments formed are of these kinds. */
  lemma {:induction false} FormedOfAKind(slot: Slot, es: seq<Event>, patched: bool)
    requires SlotSound(slot) && SlotOfAKind(slot)
    ensures SlotOfAKind(HappenAll(slot, es, patched))
    decreases |es|
  {
    hide Happen, SlotOfAKind;
    if es != [] {
      HappenOfAKind(slot, es[0], patched);
      HappenIsSound(slot, es[0], patched);
      FormedOfAKind(Happen(slot, es[0], patched), es[1..], patched);
    }
  }

  /** A write queues its bytes whole, pushed if there are any, with the numbers and the window of the moment. */
  lemma WriteForms(c: Tcb, flags: Flags, payload: Payload)
    requires |payload| <= 0xFFFF - 20 && !AddFaults(c.out.queue, c.sendNext)
    ensures var r := Write(c, flags, payload);
      && r.sendNext == U32(c.sendNext + |payload|)
      && r.out.built == c.out.built + [Segment(c.sendNext, c.recvNext,
           if payload == [] then flags else flags.(psh := true), c.recvWindow, payload)]
  {
    hide Write;
    WriteFrame(c, flags, payload);
  }
}
