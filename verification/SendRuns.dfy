/** The send queue over whole runs: what stays in order, and when its null write happens. */
module SendRuns {
  import opened Wire
  import opened BlockQueue
  import opened Engine
  import opened SendQueue
  import opened StateMachine
  import opened Handshake
  import opened Resets

  /** `a` is `b` with some segments left out. */
  predicate Thinned(a: seq<Segment>, b: seq<Segment>)
    decreases |b|
  {
    if b == [] then a == []
    else
      || Thinned(a, b[..|b| - 1])
      || (a != [] && a[|a| - 1] == b[|b| - 1] && Thinned(a[..|a| - 1], b[..|b| - 1]))
  }

  /** With none left out the two are equal. */
  lemma {:induction false} ThinnedByNone(a: seq<Segment>, b: seq<Segment>)
    requires Thinned(a, b)
    ensures |a| <= |b| && (|a| == |b| ==> a == b)
    decreases |b|
  {
    if b != [] {
      if Thinned(a, b[..|b| - 1]) {
        ThinnedByNone(a, b[..|b| - 1]);
      } else {
        ThinnedByNone(a[..|a| - 1], b[..|b| - 1]);
        assert |a| == |b| ==> a == a[..|a| - 1] + [a[|a| - 1]] == b;
      }
    }
  }

  lemma ThinnedMore(a: seq<Segment>, b: seq<Segment>, s: Segment)
    requires Thinned(a, b)
    ensures Thinned(a, b + [s]) && Thinned(a + [s], b + [s])
  {
    assert (b + [s])[..|b|] == b && (a + [s])[..|a|] == a;
  }

  /** The queue is in order, and what has been handed down or waits is what was formed, in order, but for the segments
      that found no free block. */
  ghost predicate InLine(c: Tcb)
  {
    Ordered(c.out, c.sendNext) && Thinned(Accepted(c.out), c.out.built)
  }

  /** A write keeps this, and does not fault. */
  lemma WriteInLine(c: Tcb, flags: Flags, payload: Payload)
    requires InLine(c) && c.sendNext + |payload| < TWO32
    ensures var r := Write(c, flags, payload);
      InLine(r) && r == c.(sendNext := r.sendNext, out := r.out) && c.sendNext <= r.sendNext <= c.sendNext + |payload|
  {
    hide Write, Thinned, Accepted;
    WriteFrame(c, flags, payload);
    var s := Form(c, flags, payload);
    if |payload| <= TCP_ROOM {
      WriteAppends(c, flags, payload);
      ThinnedMore(Accepted(c.out), c.out.built, s);
      assert Accepted(c.out) + [] == Accepted(c.out);
    } else {
      TooLong(c, flags, payload);
    }
  }

  lemma TooLong(c: Tcb, flags: Flags, payload: Payload)
    requires |payload| > TCP_ROOM
    ensures Write(c, flags, payload) == c
  {
  }

  /** A round of a connected block uses up at most one number, for a FIN. */
  lemma RoundInLine(c: Tcb)
    requires Opened(c) && c.inQ != [] && InLine(c) && c.sendNext + 1 < TWO32
    ensures var r := OthersRound(c).tcb;
      InLine(r) && Opened(r) && r.fault == c.fault && c.sendNext <= r.sendNext <= c.sendNext + 1
  {
    hide Write, InWindow, TakeAck, InLine, ReceivePayload;
    var s := c.inQ[0];
    WriteInLine(c, ACK, []);
    SameLine(c, Pop(c));
    var w := Write(c, ACK, []);
    SameLine(w, Pop(w));
    if c.inQ != [] && InWindow(c, s) && s.ackNum <= c.sendNext {
      TakeAckFrame(c, s);
      var t := TakeAck(c, s);
      SameLine(c, t);
      PayloadInLine(t, s, c.state);
      var p := PayloadStage(t, s, c.state);
      FinInLine(p, s, c.state);
      var f := FinStage(p, s, c.state);
      SameLine(f, Pop(f));
    }
  }

  lemma SameLine(c: Tcb, r: Tcb)
    requires r.out == c.out && r.sendNext == c.sendNext
    ensures InLine(c) ==> InLine(r)
  {
  }

  lemma PayloadInLine(c: Tcb, s: Segment, state: State)
    requires InLine(c)
    ensures var p := PayloadStage(c, s, state);
      InLine(p) && p.sendNext == c.sendNext && p.state == c.state && p.fault == c.fault
  {
    hide Write, InLine;
    var m := c.(recvNext := U32(c.recvNext + |s.payload|), recvWindow := U16(c.recvWindow - |s.payload|));
    SameLine(c, m);
    WriteInLine(m, ACK, []);
    SameLine(Write(m, ACK, []), ReceivePayload(c, s.payload));
  }

  lemma FinInLine(c: Tcb, s: Segment, state: State)
    requires InLine(c) && c.sendNext + 1 < TWO32 && Opened(c) && (state.Established? || state.CloseWait?)
    ensures var f := FinStage(c, s, state);
      InLine(f) && Opened(f) && f.fault == c.fault && c.sendNext <= f.sendNext <= c.sendNext + 1
  {
    hide Write, Thinned, Accepted;
    var m := c.(recvNext := U32(s.seqNum + 1));
    WriteInLine(m, FIN_ACK, []);
  }

  lemma {:induction false} BatchInLine(c: Tcb, n: nat)
    requires Opened(c) && Sound(c) && n <= |c.inQ| && InLine(c) && c.sendNext + n < TWO32
    ensures var r := Others(c, n);
      InLine(r) && Opened(r) && r.fault == c.fault && c.sendNext <= r.sendNext <= c.sendNext + n
    decreases n
  {
    hide OthersRound, InLine;
    if n > 0 && !c.fault {
      RoundInLine(c);
      RoundIsSound(c);
      var r := OthersRound(c);
      if r.exit != Return { BatchInLine(r.tcb, n - 1); }
    }
  }

  /** At each step there are numbers left for a whole segment. */
  predicate NumbersLeft(slot: Slot, es: seq<Event>, patched: bool)
    decreases |es|
  {
    slot.Present? ==>
      slot.tcb.sendNext + 0x1_0000 < TWO32 && (es == [] || NumbersLeft(Happen(slot, es[0], patched), es[1..], patched))
  }

  lemma EventInLine(c: Tcb, e: Event, patched: bool)
    requires Opened(c) && Sound(c) && InLine(c) && c.sendNext + 0x1_0000 < TWO32
    ensures var r := Happen(Present(c), e, patched);
      r.Present? && Opened(r.tcb) && Sound(r.tcb) && InLine(r.tcb) && (patched ==> r.tcb.fault == c.fault)
  {
    hide Others, Write, Insert, InLine;
    HappenIsSound(Present(c), e, patched);
    match e {
      case Arrive(s, cfg) =>
        var c1 := c.(inQ := Buffered(c.inQ, s));
        SameLine(c, c1);
        SameLine(c, c.(fault := true));
        BatchInLine(c1, Ready(c1.inQ, c1.recvNext));
      case Submit(p) => WriteInLine(c, PSH_ACK, p);
      case LinkTo(up) => LinkInLine(c, up);
    }
  }

  lemma LinkInLine(c: Tcb, up: bool)
    requires InLine(c)
    ensures InLine(c.(out := c.out.(linkUp := up)))
  {
  }

  /** Over any run of a connected block, while numbers are left: the send queue stays in order, nothing overtakes, only
      what finds no free block is lost, and the send side never writes through null. */
  lemma {:induction false} ConnectedStaysInLine(c: Tcb, es: seq<Event>, patched: bool)
    requires Opened(c) && Sound(c) && InLine(c) && NumbersLeft(Present(c), es, patched)
    ensures var r := HappenAll(Present(c), es, patched);
      r.Present? && Opened(r.tcb) && InLine(r.tcb) && (patched ==> r.tcb.fault == c.fault)
    decreases |es|
  {
    hide Happen, InLine;
    if es != [] {
      EventInLine(c, es[0], patched);
      ConnectedStaysInLine(Happen(Present(c), es[0], patched).tcb, es[1..], patched);
    }
  }

  /** What was handed down and what waits are all that was formed, in order, exactly when nothing was lost. */
  lemma NothingLostExactly(c: Tcb, es: seq<Event>, patched: bool)
    requires Opened(c) && Sound(c) && InLine(c) && NumbersLeft(Present(c), es, patched)
    ensures var r := HappenAll(Present(c), es, patched);
      r.Present? && (Accepted(r.tcb.out) == r.tcb.out.built <==> |Accepted(r.tcb.out)| == |r.tcb.out.built|)
  {
    hide HappenAll, Thinned;
    ConnectedStaysInLine(c, es, patched);
    var o := HappenAll(Present(c), es, patched).tcb.out;
    ThinnedByNone(Accepted(o), o.built);
  }

  // ---------------------------------------------------------------- whole runs

  /** A round that overwrites `send_next` with the number acknowledged, to form its reset. */
  predicate Overwrites(c: Tcb, s: Segment)
  {
    c.state.SynReceived? && InWindow(c, s) && s.flags.ack && !s.flags.rst && !s.flags.syn && !AckOk(c, s.ackNum)
  }

  /** Nothing that waits in the send queue is numbered above `n`, and numbers are left after it. */
  ghost predicate Behind(c: Tcb, n: u32) { Ordered(c.out, n) && n + 1 < TWO32 }

  ghost predicate RoundOrderly(c: Tcb)
    requires c.inQ != []
  {
    c.sendNext + 1 < TWO32 && (Overwrites(c, c.inQ[0]) ==> Behind(c, c.inQ[0].ackNum))
  }

  ghost predicate BatchOrderly(c: Tcb, n: nat)
    decreases n
  {
    n == 0 || c.fault || c.inQ == [] ||
    (RoundOrderly(c) && (OthersRound(c).exit == Return || BatchOrderly(OthersRound(c).tcb, n - 1)))
  }

  /** What tcp_listen sets `send_next` to does not undercut the send queue either. */
  ghost predicate ListenOrderly(c: Tcb)
    requires c.inQ != []
  {
    Behind(c, if c.inQ[0].flags.ack then c.inQ[0].ackNum else c.sendInitial)
  }

  ghost predicate ReadOrderly(c: Tcb, s: Segment, patched: bool)
  {
    if AddFaults(c.inQ, s.seqNum) && !patched then true
    else
      var c1 := c.(inQ := Buffered(c.inQ, s), recvNext := if c.state.SynSent? then s.seqNum else c.recvNext);
      var n := Ready(c1.inQ, c1.recvNext);
      n > 0 ==> match c1.handler
                case RunListen => ListenOrderly(c1)
                case RunSynSent => true
                case RunOthers => BatchOrderly(c1, n)
                case RunClose => false
  }

  /** `send_next` never falls below what waits in the send queue, and never gets to the end of the numbers. */
  ghost predicate EventOrderly(slot: Slot, e: Event, patched: bool)
  {
    match e
    case Arrive(s, cfg) =>
      if slot.Present? then !slot.tcb.fault ==> ReadOrderly(slot.tcb, s, patched)
      else s.flags.syn ==> ReadOrderly(Create(cfg, s, Listen), s, patched)
    case Submit(p) => slot.Present? ==> slot.tcb.sendNext + |p| < TWO32
    case LinkTo(up) => true
  }

  ghost predicate RunOrderly(slot: Slot, es: seq<Event>, patched: bool)
    decreases |es|
  {
    es == [] || (EventOrderly(slot, es[0], patched) && RunOrderly(Happen(slot, es[0], patched), es[1..], patched))
  }

  ghost predicate SlotInLine(slot: Slot) { slot.Present? ==> InLine(slot.tcb) }

  lemma SynReceivedInLine(c: Tcb)
    requires c.state.SynReceived? && c.inQ != [] && InLine(c) && RoundOrderly(c)
    ensures InLine(OthersRound(c).tcb) && OthersRound(c).tcb.fault == c.fault
  {
    hide Write, InWindow, InLine;
    var s := c.inQ[0];
    WriteInLine(c, ACK, []);
    SameLine(c, Pop(c));
    SameLine(Write(c, ACK, []), Pop(Write(c, ACK, [])));
    SameLine(c, Notify(c, OnClose));
    if InWindow(c, s) && s.flags.ack && !s.flags.rst && !s.flags.syn {
      AckInLine(c, s);
      var a := AckStage(c, s).tcb;
      AnswerInLine(a, s);
      SameLine(FinStage(a, s, SynReceived), Pop(FinStage(a, s, SynReceived)));
    }
  }

  lemma AckInLine(c: Tcb, s: Segment)
    requires c.state.SynReceived? && InLine(c) && c.sendNext + 1 < TWO32 && (!AckOk(c, s.ackNum) ==> Behind(c, s.ackNum))
    ensures var a := AckStage(c, s);
      a.exit == Bottom && InLine(a.tcb) && a.tcb.fault == c.fault && a.tcb.sendNext + 1 < TWO32
  {
    hide Write;
    if !AckOk(c, s.ackNum) { WriteInLine(c.(sendNext := s.ackNum), RST, []); }
  }

  lemma AnswerInLine(c: Tcb, s: Segment)
    requires InLine(c) && c.sendNext + 1 < TWO32
    ensures var f := FinStage(c, s, SynReceived); InLine(f) && f.fault == c.fault
  {
    hide Write, Thinned, Accepted;
    WriteInLine(c.(recvNext := U32(s.seqNum + 1)), FIN_ACK, []);
  }

  lemma {:induction false} BatchStaysInLine(c: Tcb, n: nat)
    requires Sound(c) && c.handler.RunOthers? && n <= |c.inQ| && InLine(c) && BatchOrderly(c, n)
    ensures InLine(Others(c, n)) && Others(c, n).fault == c.fault
    decreases n
  {
    hide OthersRound, InLine, Overwrites, Behind;
    if n > 0 && !c.fault {
      if c.state.SynReceived? { SynReceivedInLine(c); } else { RoundInLine(c); }
      RoundIsSound(c);
      var r := OthersRound(c);
      if r.exit != Return { BatchStaysInLine(r.tcb, n - 1); }
    }
  }

  lemma ListenInLine(c: Tcb)
    requires c.inQ != [] && InLine(c) && ListenOrderly(c)
    ensures var r := ListenStep(c); r.Present? ==> InLine(r.tcb) && r.tcb.fault == c.fault
  {
    hide Write, Thinned, Accepted;
    var s := c.inQ[0];
    if s.flags.ack {
      WriteInLine(c.(sendNext := s.ackNum, recvNext := 0), RST, []);
    } else {
      WriteInLine(c.(recvInitial := s.seqNum, recvNext := U32(s.seqNum + 1), state := SynReceived,
                     handler := RunOthers, sendNext := c.sendInitial), SYN_ACK, []);
    }
  }

  lemma SynSentInLine(c: Tcb)
    requires c.inQ != [] && InLine(c)
    ensures var r := SynSentStep(c); r.Present? ==> InLine(r.tcb) && r.tcb.fault == c.fault
  {
    hide Write, InLine, AnswerSyn;
    var s := c.inQ[0];
    WriteInLine(c, RST, []);
    SameLine(c, Pop(c));
    var c1 := c.(recvInitial := s.seqNum, recvNext := U32(s.seqNum + 1),
                 sendUna := if s.flags.ack then s.ackNum else c.sendUna);
    SameLine(c, c1);
    OpeningInLine(c1, s);
    var a := AnswerSyn(c1, s);
    SameLine(a, Pop(a.(sendWindow := s.window, lastUpdateSeq := s.seqNum, lastUpdateAck := s.ackNum)));
  }

  lemma OpeningInLine(c: Tcb, s: Segment)
    requires InLine(c)
    ensures InLine(AnswerSyn(c, s)) && AnswerSyn(c, s).fault == c.fault
  {
    hide Write, InLine;
    var e := c.(state := Established, handler := RunOthers);
    var x := c.(state := SynReceived, handler := RunOthers);
    SameLine(c, e);
    SameLine(c, x);
    WriteInLine(x, SYN_ACK, []);
    WriteInLine(e, ACK, []);
    SameLine(Write(e, ACK, []), Notify(Write(e, ACK, []), OnConnect));
    var m := e.(recvNext := U32(e.recvNext + |s.payload|), recvWindow := U16(e.recvWindow - |s.payload|));
    SameLine(e, m);
    WriteInLine(m, ACK, []);
    SameLine(Write(m, ACK, []), Notify(ReceivePayload(e, s.payload), OnConnect));
  }

  lemma ReadInLine(c: Tcb, s: Segment, patched: bool)
    requires Sound(c) && InLine(c) && ReadOrderly(c, s, patched)
    ensures var r := Receive(c, s, patched); r.Present? ==> InLine(r.tcb) && (patched ==> r.tcb.fault == c.fault)
  {
    hide Others, ListenStep, SynSentStep, Insert, InLine, ListenOrderly, BatchOrderly;
    SameLine(c, c.(fault := true));
    var c1 := c.(inQ := Buffered(c.inQ, s), recvNext := if c.state.SynSent? then s.seqNum else c.recvNext);
    SameLine(c, c1);
    var n := Ready(c1.inQ, c1.recvNext);
    if n > 0 && (patched || !AddFaults(c.inQ, s.seqNum)) {
      match c1.handler {
        case RunListen => ListenInLine(c1);
        case RunSynSent => SynSentInLine(c1);
        case RunOthers => BatchStaysInLine(c1, n);
      }
    }
  }

  lemma HappenInLine(slot: Slot, e: Event, patched: bool)
    requires SlotSound(slot) && SlotInLine(slot) && EventOrderly(slot, e, patched)
    ensures var r := Happen(slot, e, patched);
      SlotInLine(r) && (patched && r.Present? && r.tcb.fault ==> slot.Present? && slot.tcb.fault)
  {
    hide Receive, Write, InLine, ReadOrderly;
    match e {
      case Arrive(s, cfg) =>
        if slot.Present? {
          if !slot.tcb.fault { ReadInLine(slot.tcb, s, patched); }
        } else if s.flags.syn {
          var c := Create(cfg, s, Listen);
          assert InLine(c) by { NothingSent(c); }
          ReadInLine(c, s, patched);
        }
      case Submit(p) => if slot.Present? { WriteInLine(slot.tcb, PSH_ACK, p); }
      case LinkTo(up) => if slot.Present? { LinkInLine(slot.tcb, up); }
    }
  }

  lemma NothingSent(c: Tcb)
    requires c.out.queue == [] && c.out.sent == c.out.built == []
    ensures InLine(c)
  {
  }

  /** A run starts without a block, or with one that has connected. */
  lemma StartsInLine(cfg: Config)
    requires cfg.initial + 1 < TWO32
    ensures SlotInLine(Absent) && SlotInLine(Present(Connect(cfg, true)))
  {
    hide Connect;
    ConnectIs(cfg);
    var s := Form(Create(cfg.(active := true), STUB_HEADER, SynSent), SYN, []);
    ThinnedMore([], [], s);
    assert [] + [s] == [s] && [s] + [] == [s];
  }

  /** Over any run from before there is a block, while `send_next` never falls below what waits in the send queue: the
      queue stays in order, only what finds no free block is lost, and the send side never writes through null. */
  lemma {:induction false} RunStaysInLine(slot: Slot, es: seq<Event>, patched: bool)
    requires SlotSound(slot) && SlotInLine(slot) && RunOrderly(slot, es, patched)
    ensures var r := HappenAll(slot, es, patched);
      SlotInLine(r) && (patched && r.Present? && r.tcb.fault ==> slot.Present? && slot.tcb.fault)
    decreases |es|
  {
    hide Happen, SlotInLine, EventOrderly;
    if es != [] {
      HappenInLine(slot, es[0], patched);
      HappenIsSound(slot, es[0], patched);
      var n := Happen(slot, es[0], patched);
      RunStaysInLine(n, es[1..], patched);
    }
  }

  // ---------------------------------------------------------------- before the connection is open

  /** In SYN-RECEIVED an acknowledgement that is refused takes `send_next` below what waits in the send queue: the side
      that has written before its connection was open faults, whichever way the receive buffer is written. */
  lemma EarlyWriteFaults(cfg: Config, s: Segment, patched: bool) returns (es: seq<Event>)
    requires cfg.initial + 3 < TWO32 && s.seqNum + 1 + cfg.window < TWO32
    requires s.flags == SYN && s.window == 0
    ensures var r := HappenAll(Absent, es, patched); r.Present? && r.tcb.fault && r.tcb.state.SynReceived?
  {
    hide HappenAll, Happen, Write, Read;
    var b := Answering(cfg, s, patched);
    var w := Held(b, patched);
    var ack := Segment(w.recvNext, cfg.initial, ACK, 0, []);
    Undercut(w, ack, patched);
    var e1, e2, e3 := Arrive(s, cfg), Submit([1, 2]), Arrive(ack, NO_CONFIG);
    es := [e1] + ([e2] + [e3]);
    OneMore(Absent, e1, patched);
    OneMore(Present(b), e2, patched);
    OneMore(Present(w), e3, patched);
    HappenAllOn(Absent, [e1], [e2] + [e3], patched);
    HappenAllOn(Present(b), [e2], [e3], patched);
  }

  /** The block that has answered a SYN whose sender has no room. */
  lemma Answering(cfg: Config, s: Segment, patched: bool) returns (b: Tcb)
    requires cfg.initial + 3 < TWO32 && s.seqNum + 1 + cfg.window < TWO32 && s.flags == SYN && s.window == 0
    ensures Happen(Absent, Arrive(s, cfg), patched) == Present(b)
    ensures b.state.SynReceived? && b.handler.RunOthers? && !b.fault && b.inQ == [] && b.out.queue == []
    ensures b.sendWindow == 0 && b.sendUna == cfg.initial && b.sendNext == cfg.initial + 1
    ensures b.recvNext + b.recvWindow < TWO32
  {
    hide Write, Read;
    ListenAnswers(cfg, s, patched);
    WriteToIdle(Create(cfg, s, Listen).(recvNext := U32(s.seqNum + 1), state := SynReceived, handler := RunOthers), SYN_ACK);
    b := Read(Absent, s, cfg, patched).tcb;
  }

  /** Two bytes wait for room. */
  lemma Held(b: Tcb, patched: bool) returns (w: Tcb)
    requires !b.fault && b.out.queue == [] && b.sendWindow == 0 && b.sendNext + 2 < TWO32
    ensures Happen(Present(b), Submit([1, 2]), patched) == Present(w)
    ensures w == b.(sendNext := b.sendNext + 2, out := w.out)
    ensures |w.out.queue| == 1 && w.out.queue[0].seqNum == b.sendNext
  {
    w := Send(b, [1, 2]);
    var d := Form(b, PSH_ACK, [1, 2]);
    assert Buffered([], d) == [d];
    assert EffectiveWindow(b) == 0 && !Fits(0, d);
  }

  lemma Undercut(w: Tcb, ack: Segment, patched: bool)
    requires w.state.SynReceived? && w.handler.RunOthers? && !w.fault && w.inQ == []
    requires |w.out.queue| == 1 && ack.ackNum < w.out.queue[0].seqNum && ack.ackNum <= w.sendUna
    requires ack.seqNum == w.recvNext && ack.payload == [] && ack.flags == ACK && w.recvNext + w.recvWindow < TWO32
    ensures var r := Happen(Present(w), Arrive(ack, NO_CONFIG), patched);
      r.Present? && r.tcb.fault && r.tcb.state.SynReceived?
  {
    hide OthersRound, InWindow;
    var d := w.(inQ := [ack]);
    NextIsInWindow(d, ack);
    SynReceivedReset(d);
    assert Buffered([], ack) == [ack];
    assert Ready([ack], w.recvNext) == 1 + Ready([], After(ack));
    assert Others(d, 1) == OthersRound(d).tcb;
  }
}
