/** One endpoint against an arbitrary peer: which states it can be in and how a batch is consumed. */
module StateMachine {
  import opened Wire
  import opened BlockQueue
  import opened Engine
  import opened SendQueue

  /** tcp_write touches nothing but the sending side. */
  lemma WriteFrame(c: Tcb, flags: Flags, payload: Payload)
    ensures var r := Write(c, flags, payload);
      && r == c.(sendNext := r.sendNext, out := r.out, fault := r.fault)
      && r.fault == (c.fault || (|payload| <= TCP_ROOM && AddFaults(c.out.queue, c.sendNext)))
      && r.sendNext == (if |payload| <= TCP_ROOM then U32(c.sendNext + |payload|) else c.sendNext)
      && r.out.built == (if |payload| <= TCP_ROOM && !AddFaults(c.out.queue, c.sendNext)
                         then c.out.built + [Form(c, flags, payload)] else c.out.built)
  {
    var s := Form(c, flags, payload);
    DrainReleases(c.out.(built := c.out.built + [s], queue := Buffered(c.out.queue, s)), EffectiveWindow(c));
  }

  /** The arrows of figure 5 in section 3.3.2 of RFC 9293, with FIN-WAIT-1 to TIME-WAIT noted there. */
  predicate Arrow(s: State, t: State)
  {
    match s
    case Closed => t.Listen? || t.SynSent?
    case Listen => t.SynReceived? || t.SynSent? || t.Closed?
    case SynSent => t.SynReceived? || t.Established? || t.Closed?
    case SynReceived => t.Established? || t.FinWait1? || t.Listen?
    case Established => t.FinWait1? || t.CloseWait?
    case FinWait1 => t.FinWait2? || t.Closing? || t.TimeWait?
    case FinWait2 => t.TimeWait?
    case CloseWait => t.LastAck?
    case Closing => t.TimeWait?
    case LastAck => t.Closed?
    case TimeWait => t.Closed?
  }

  predicate Follows(s: State, t: State) { s == t || Arrow(s, t) }

  /** Connected, whether or not the other side has finished. */
  predicate Opened(c: Tcb) { c.state.Established? || c.state.CloseWait? }

  /** The window test looks at two fields only. */
  lemma SameWindow(c: Tcb, d: Tcb, s: Segment)
    requires d.recvNext == c.recvNext && d.recvWindow == c.recvWindow
    ensures InWindow(d, s) == InWindow(c, s)
  {
  }

  /** An acknowledgement changes three fields, and an old one none. */
  lemma TakeAckFrame(c: Tcb, s: Segment)
    ensures var r := TakeAck(c, s);
      r == c.(sendUna := r.sendUna, sendWindow := r.sendWindow, lastUpdateSeq := r.lastUpdateSeq)
      && (s.ackNum < c.sendUna ==> r == c)
  {
  }

  /** The acknowledgement stage takes at most one arrow, and an extra segment only on the arrows that end a FIN. */
  lemma AckStageFrame(c: Tcb, s: Segment)
    ensures var a := AckStage(c, s);
      && (a.tcb.state == c.state || (c.state.SynReceived? && a.tcb.state.Established?)
          || (c.finNum != 0 && ((c.state.FinWait1? && a.tcb.state.FinWait2?) || (c.state.Closing? && a.tcb.state.TimeWait?))))
      && a.tcb.finNum == c.finNum && a.tcb.handler == c.handler
      && (a.exit == Continue ==> a.tcb.inQ == Pop(c).inQ && a.tcb.state == c.state)
      && (a.exit == Bottom && c.finNum == 0 ==> a.tcb.inQ == c.inQ)
      && a.exit != Return
      && (a.tcb.state.FinWait2? && c.state.FinWait1? ==> FinAcked(a.tcb, s))
  {
    hide Write, TakeAck, AckOk;
    TakeAckFrame(c, s);
    WriteFrame(c, ACK, []);
    WriteFrame(c.(sendNext := s.ackNum), RST, []);
  }

  lemma PayloadStageFrame(c: Tcb, s: Segment, state: State)
    ensures var r := PayloadStage(c, s, state);
      r.state == c.state && r.finNum == c.finNum && r.handler == c.handler && r.inQ == c.inQ
  {
    hide Write;
    WriteFrame(c.(recvNext := U32(c.recvNext + |s.payload|), recvWindow := U16(c.recvWindow - |s.payload|)), ACK, []);
  }

  lemma FinStageFrame(c: Tcb, s: Segment, state: State)
    ensures var r := FinStage(c, s, state);
      && r.finNum == c.finNum && r.handler == c.handler && r.inQ == c.inQ
      && r.state == (if s.flags.fin && state.Established? then CloseWait
                     else if s.flags.fin && state.FinWait1? then (if FinAcked(c, s) then TimeWait else Closing)
                     else if s.flags.fin && state.FinWait2? then TimeWait else c.state)
  {
    hide Write;
    WriteFrame(c.(recvNext := U32(s.seqNum + 1)), FIN_ACK, []);
  }

  /** One round of tcp_others, from any state whatever, follows at most one arrow. */
  lemma RoundFollowsArrow(c: Tcb)
    requires c.inQ != []
    ensures Follows(c.state, OthersRound(c).tcb.state)
  {
    hide Write, AckStage, PayloadStage, FinStage, InWindow;
    var s := c.inQ[0];
    WriteFrame(c, ACK, []);
    AckStageFrame(c, s);
    var a := AckStage(c, s).tcb;
    PayloadStageFrame(a, s, c.state);
    FinStageFrame(PayloadStage(a, s, c.state), s, c.state);
  }

  /** What every reachable block satisfies. */
  predicate Sound(c: Tcb)
  {
    && (c.state.Listen? || c.state.SynSent? || c.state.SynReceived? || c.state.Established? || c.state.CloseWait?)
    && c.handler == HandlerFor(c.state)
    && c.finNum == 0
    && |c.inQ| <= BLOCKS
  }

  /** In a reachable state a round that does not return removes exactly the segment it looked at. */
  lemma RoundIsSound(c: Tcb)
    requires Sound(c) && c.handler.RunOthers? && c.inQ != []
    ensures var r := OthersRound(c);
      && Sound(r.tcb) && r.tcb.handler.RunOthers?
      && r.tcb.inQ == (if r.exit == Return then c.inQ else c.inQ[1..])
  {
    hide Write, AckStage, PayloadStage, FinStage, InWindow;
    var s := c.inQ[0];
    WriteFrame(c, ACK, []);
    AckStageFrame(c, s);
    var a := AckStage(c, s).tcb;
    PayloadStageFrame(a, s, c.state);
    FinStageFrame(PayloadStage(a, s, c.state), s, c.state);
  }

  /** Every head a batch of `n` dereferences is there. */
  ghost predicate HeadsThere(c: Tcb, n: nat)
    decreases n
  {
    n == 0 || c.fault || (c.inQ != [] && (OthersRound(c).exit == Return || HeadsThere(OthersRound(c).tcb, n - 1)))
  }

  /** Some round of the batch leaves the function early. */
  ghost predicate StopsEarly(c: Tcb, n: nat)
    decreases n
  {
    n > 0 && !c.fault && c.inQ != [] && (OthersRound(c).exit == Return || StopsEarly(OthersRound(c).tcb, n - 1))
  }

  /** A batch of segments that are there is consumed exactly, unless a round returns or the process faults. */
  lemma {:induction false} BatchIsSound(c: Tcb, n: nat)
    requires Sound(c) && c.handler.RunOthers? && n <= |c.inQ|
    ensures HeadsThere(c, n)
    ensures var r := Others(c, n);
      && Sound(r) && r.handler.RunOthers?
      && (r.fault || StopsEarly(c, n) || r.inQ == c.inQ[n..])
    decreases n
  {
    hide OthersRound;
    if n > 0 && !c.fault {
      RoundIsSound(c);
      var r := OthersRound(c);
      if r.exit != Return {
        BatchIsSound(r.tcb, n - 1);
        assert c.inQ[1..][n - 1..] == c.inQ[n..];
      }
    }
  }

  lemma AnswerSynFrame(c: Tcb, s: Segment)
    ensures var r := AnswerSyn(c, s);
      && r.state == (if c.sendUna > c.sendInitial then Established else SynReceived)
      && r.handler == RunOthers && r.inQ == c.inQ && r.finNum == c.finNum
  {
    hide Write;
    var e := c.(state := Established, handler := RunOthers);
    WriteFrame(e, ACK, []);
    WriteFrame(e.(recvNext := U32(e.recvNext + |s.payload|), recvWindow := U16(e.recvWindow - |s.payload|)), ACK, []);
    WriteFrame(c.(state := SynReceived, handler := RunOthers), SYN_ACK, []);
  }

  lemma SynSentIsSound(c: Tcb)
    requires Sound(c) && c.state.SynSent? && c.inQ != []
    ensures var r := SynSentStep(c); r.Present? ==> Sound(r.tcb) && Follows(c.state, r.tcb.state)
  {
    hide Write, AnswerSyn;
    var s := c.inQ[0];
    WriteFrame(c, RST, []);
    AnswerSynFrame(c.(recvInitial := s.seqNum, recvNext := U32(s.seqNum + 1),
                      sendUna := if s.flags.ack then s.ackNum else c.sendUna), s);
  }

  lemma ListenIsSound(c: Tcb)
    requires Sound(c) && c.state.Listen? && c.inQ != []
    ensures var r := ListenStep(c); r.Present? ==> Sound(r.tcb) && Follows(c.state, r.tcb.state)
  {
    hide Write;
    var s := c.inQ[0];
    WriteFrame(c.(sendNext := s.ackNum, recvNext := 0), RST, []);
    WriteFrame(c.(recvInitial := s.seqNum, recvNext := U32(s.seqNum + 1), state := SynReceived,
                  handler := RunOthers, sendNext := c.sendInitial), SYN_ACK, []);
  }

  lemma ReceiveIsSound(c: Tcb, s: Segment, patched: bool)
    requires Sound(c)
    ensures var r := Receive(c, s, patched); r.Present? ==> Sound(r.tcb)
  {
    hide ListenStep, SynSentStep, Others, Insert;
    if patched || !AddFaults(c.inQ, s.seqNum) {
      var c1 := c.(inQ := Buffered(c.inQ, s), recvNext := if c.state.SynSent? then s.seqNum else c.recvNext);
      var n := Ready(c1.inQ, c1.recvNext);
      if n > 0 {
        match c1.handler {
          case RunListen => ListenIsSound(c1);
          case RunSynSent => SynSentIsSound(c1);
          case RunOthers => BatchIsSound(c1, n);
        }
      }
    }
  }

  // ---------------------------------------------------------------- runs

  /** Anything may arrive, and the application may write at any time. */
  datatype Event = Arrive(s: Segment, cfg: Config) | Submit(payload: Payload) | LinkTo(up: bool)

  /** For an arrival that creates no block. */
  const NO_CONFIG := Config(0, 0, false)

  function Happen(slot: Slot, e: Event, patched: bool): Slot
  {
    match e
    case Arrive(s, cfg) => Read(slot, s, cfg, patched)
    case Submit(p) => if slot.Present? then Present(Send(slot.tcb, p)) else slot
    case LinkTo(up) => if slot.Present? then Present(slot.tcb.(out := slot.tcb.out.(linkUp := up))) else slot
  }

  function HappenAll(slot: Slot, es: seq<Event>, patched: bool): Slot
    decreases |es|
  {
    if es == [] then slot else HappenAll(Happen(slot, es[0], patched), es[1..], patched)
  }

  lemma Nothing(slot: Slot, patched: bool)
    ensures HappenAll(slot, [], patched) == slot
  {
  }

  lemma OneMore(slot: Slot, e: Event, patched: bool)
    ensures HappenAll(slot, [e], patched) == Happen(slot, e, patched)
  {
    assert [e][1..] == [];
  }

  /** A run may be cut anywhere. */
  lemma {:induction false} HappenAllOn(slot: Slot, es: seq<Event>, more: seq<Event>, patched: bool)
    ensures HappenAll(slot, es + more, patched) == HappenAll(HappenAll(slot, es, patched), more, patched)
    decreases |es|
  {
    hide Happen;
    if es == [] {
      assert es + more == more;
    } else {
      assert (es + more)[1..] == es[1..] + more;
      HappenAllOn(Happen(slot, es[0], patched), es[1..], more, patched);
    }
  }

  predicate SlotSound(slot: Slot) { slot.Present? ==> Sound(slot.tcb) }

  lemma HappenIsSound(slot: Slot, e: Event, patched: bool)
    requires SlotSound(slot)
    ensures SlotSound(Happen(slot, e, patched))
  {
    hide Receive, Write;
    match e {
      case Arrive(s, cfg) =>
        if slot.Present? && !slot.tcb.fault {
          ReceiveIsSound(slot.tcb, s, patched);
        } else if slot.Absent? && s.flags.syn {
          ReceiveIsSound(Create(cfg, s, Listen), s, patched);
        }
      case Submit(p) =>
        if slot.Present? { WriteFrame(slot.tcb, PSH_ACK, p); }
      case LinkTo(up) =>
    }
  }

  /** Whatever arrives, only five states are reachable, each with the handler creation would have chosen. */
  lemma {:induction false} ReachableStates(slot: Slot, es: seq<Event>, patched: bool)
    requires SlotSound(slot)
    ensures SlotSound(HappenAll(slot, es, patched))
    decreases |es|
  {
    if es != [] {
      HappenIsSound(slot, es[0], patched);
      ReachableStates(Happen(slot, es[0], patched), es[1..], patched);
    }
  }

  /** The blocks a run starts from: none, or one that has just connected. */
  lemma StartsSound(cfg: Config, linkUp: bool)
    ensures SlotSound(Absent) && SlotSound(Present(Connect(cfg, linkUp)))
  {
    hide Write;
    var c0 := Create(cfg.(active := true), STUB_HEADER, SynSent);
    WriteFrame(c0.(out := c0.out.(linkUp := linkUp)), SYN, []);
  }

  /** The connection is never marked CLOSED: a reset that is acceptable leaves every field of the block but
      the owner's notification as it was, the resetting segment included. */
  lemma ResetChangesNothing(c: Tcb)
    requires c.inQ != [] && c.inQ[0].flags.rst && InWindow(c, c.inQ[0])
    ensures OthersRound(c).exit == Return
    ensures OthersRound(c).tcb == c.(upcalls := c.upcalls + if c.state.SynReceived? && c.active then [OnClose] else [])
    ensures forall n: nat | n > 0 && !c.fault :: Others(c, n) == OthersRound(c).tcb
  {
  }

  // ---------------------------------------------------------------- the states a run passes through

  /** A socket without a block is CLOSED. */
  function StateOf(slot: Slot): State { if slot.Present? then slot.tcb.state else Closed }

  /** The state after each round of a batch. */
  function BatchStates(c: Tcb, n: nat): seq<State>
    decreases n
  {
    if n == 0 || c.fault || c.inQ == [] then []
    else
      var r := OthersRound(c);
      [r.tcb.state] + if r.exit == Return then [] else BatchStates(r.tcb, n - 1)
  }

  /** The states a block goes through when it reads `s`: one for each round of tcp_others, one for any other handler. */
  function ReadStates(c: Tcb, s: Segment, patched: bool): seq<State>
  {
    var q := Buffered(c.inQ, s);
    var start := if c.state.SynSent? then s.seqNum else c.recvNext;
    if !c.fault && c.handler.RunOthers? && (patched || !AddFaults(c.inQ, s.seqNum))
    then BatchStates(c.(inQ := q, recvNext := start), Ready(q, start))
    else [StateOf(if c.fault then Present(c) else Receive(c, s, patched))]
  }

  /** A SYN that creates a block passes through LISTEN. */
  function EventStates(slot: Slot, e: Event, patched: bool): seq<State>
  {
    if !e.Arrive? then []
    else if slot.Present? then ReadStates(slot.tcb, e.s, patched)
    else if e.s.flags.syn then [Listen] + ReadStates(Create(e.cfg, e.s, Listen), e.s, patched)
    else []
  }

  /** Every state of a run, round by round. */
  function RunStates(slot: Slot, es: seq<Event>, patched: bool): seq<State>
    decreases |es|
  {
    if es == [] then [] else EventStates(slot, es[0], patched) + RunStates(Happen(slot, es[0], patched), es[1..], patched)
  }

  /** From `s`, each state of `p` is the one before or one arrow further. */
  predicate Walk(s: State, p: seq<State>)
    decreases |p|
  {
    p == [] || (Follows(s, p[0]) && Walk(p[0], p[1..]))
  }

  function Last(s: State, p: seq<State>): State { if p == [] then s else p[|p| - 1] }

  lemma {:induction false} WalkOn(s: State, p: seq<State>, q: seq<State>)
    requires Walk(s, p) && Walk(Last(s, p), q)
    ensures Walk(s, p + q) && Last(s, p + q) == Last(Last(s, p), q)
    decreases |p|
  {
    if p == [] {
      assert p + q == q;
    } else {
      assert (p + q)[1..] == p[1..] + q;
      WalkOn(p[0], p[1..], q);
    }
  }

  lemma {:induction false} BatchWalks(c: Tcb, n: nat)
    requires Sound(c) && c.handler.RunOthers? && n <= |c.inQ|
    ensures Walk(c.state, BatchStates(c, n)) && Last(c.state, BatchStates(c, n)) == Others(c, n).state
    decreases n
  {
    hide OthersRound, Follows;
    if n > 0 && !c.fault {
      RoundFollowsArrow(c);
      RoundIsSound(c);
      var r := OthersRound(c);
      if r.exit == Return {
        assert [r.tcb.state][1..] == [];
      } else {
        BatchWalks(r.tcb, n - 1);
        WalkOn(c.state, [r.tcb.state], BatchStates(r.tcb, n - 1)) by { assert [r.tcb.state][1..] == []; }
      }
    }
  }

  lemma ReadWalks(c: Tcb, s: Segment, patched: bool, cfg: Config)
    requires Sound(c)
    ensures var p, r := ReadStates(c, s, patched), Read(Present(c), s, cfg, patched);
      Walk(c.state, p) && Last(c.state, p) == StateOf(r)
  {
    hide ListenStep, SynSentStep, Insert, OthersRound, BatchStates;
    var start := if c.state.SynSent? then s.seqNum else c.recvNext;
    var c1 := c.(inQ := Buffered(c.inQ, s), recvNext := start);
    var p := ReadStates(c, s, patched);
    if !c.fault && (patched || !AddFaults(c.inQ, s.seqNum)) {
      var n := Ready(c1.inQ, start);
      match c.handler {
        case RunOthers => BatchWalks(c1, n);
        case RunListen => if n > 0 { ListenIsSound(c1); } assert p[1..] == [];
        case RunSynSent => if n > 0 { SynSentIsSound(c1); } assert p[1..] == [];
      }
    } else {
      assert p[1..] == [];
    }
  }

  lemma EventWalks(slot: Slot, e: Event, patched: bool)
    requires SlotSound(slot)
    ensures var p := EventStates(slot, e, patched);
      Walk(StateOf(slot), p) && Last(StateOf(slot), p) == StateOf(Happen(slot, e, patched))
  {
    hide ReadStates, Read, Write, Walk;
    match e {
      case Arrive(s, cfg) =>
        if slot.Present? {
          ReadWalks(slot.tcb, s, patched, cfg);
        } else if s.flags.syn {
          var c := Create(cfg, s, Listen);
          ReadWalks(c, s, patched, cfg);
          OpenWalks(slot, s, cfg, patched, ReadStates(c, s, patched));
        } else {
          NoWalk(slot, s, cfg, patched);
        }
      case Submit(p) =>
        if slot.Present? { WriteFrame(slot.tcb, PSH_ACK, p); }
        NothingWalks(StateOf(slot));
      case LinkTo(up) => NothingWalks(StateOf(slot));
    }
  }

  lemma NothingWalks(s: State)
    ensures Walk(s, [])
  {
  }

  lemma NoWalk(slot: Slot, s: Segment, cfg: Config, patched: bool)
    requires slot.Absent? && !s.flags.syn
    ensures Walk(Closed, []) && Read(slot, s, cfg, patched) == slot
  {
  }

  lemma OpenWalks(slot: Slot, s: Segment, cfg: Config, patched: bool, p: seq<State>)
    requires slot.Absent? && s.flags.syn && Walk(Listen, p)
    ensures Walk(Closed, [Listen] + p) && Last(Closed, [Listen] + p) == Last(Listen, p)
    ensures Read(slot, s, cfg, patched) == Read(Present(Create(cfg, s, Listen)), s, cfg, patched)
  {
    hide Receive;
    assert [Listen][1..] == [];
    WalkOn(Closed, [Listen], p);
  }

  /** Over any run every change of state is one arrow of the figure, creation and deletion of blocks included. */
  lemma {:induction false} RunWalks(slot: Slot, es: seq<Event>, patched: bool)
    requires SlotSound(slot)
    ensures var p := RunStates(slot, es, patched);
      Walk(StateOf(slot), p) && Last(StateOf(slot), p) == StateOf(HappenAll(slot, es, patched))
    decreases |es|
  {
    hide Happen, EventStates, Walk;
    if es == [] {
      NothingWalks(StateOf(slot));
    } else {
      EventWalks(slot, es[0], patched);
      HappenIsSound(slot, es[0], patched);
      var n := Happen(slot, es[0], patched);
      RunWalks(n, es[1..], patched);
      WalkOn(StateOf(slot), EventStates(slot, es[0], patched), RunStates(n, es[1..], patched));
    }
  }

  /** How far a synchronized block has come. */
  function Progress(s: State): nat { if s.CloseWait? then 2 else if s.Established? then 1 else 0 }

  /** A synchronized block is never deleted and never goes back; CLOSE-WAIT is where it ends. */
  lemma {:induction false} NeverBack(c: Tcb, es: seq<Event>, patched: bool)
    requires Sound(c) && c.handler.RunOthers?
    ensures var r := HappenAll(Present(c), es, patched);
      r.Present? && r.tcb.handler.RunOthers? && Progress(c.state) <= Progress(r.tcb.state)
    decreases |es|
  {
    hide Happen;
    if es != [] {
      HappenAdvances(c, es[0], patched);
      NeverBack(Happen(Present(c), es[0], patched).tcb, es[1..], patched);
    }
  }

  lemma HappenAdvances(c: Tcb, e: Event, patched: bool)
    requires Sound(c) && c.handler.RunOthers?
    ensures var r := Happen(Present(c), e, patched);
      r.Present? && Sound(r.tcb) && r.tcb.handler.RunOthers? && Progress(c.state) <= Progress(r.tcb.state)
  {
    hide Others, Write, Insert;
    match e {
      case Arrive(s, cfg) =>
        var c1 := c.(inQ := Buffered(c.inQ, s));
        var n := Ready(c1.inQ, c1.recvNext);
        BatchIsSound(c1, n);
        BatchAdvances(c1, n);
      case Submit(p) => WriteFrame(c, PSH_ACK, p);
      case LinkTo(up) =>
    }
  }

  lemma {:induction false} BatchAdvances(c: Tcb, n: nat)
    requires Sound(c) && c.handler.RunOthers? && n <= |c.inQ|
    ensures Progress(c.state) <= Progress(Others(c, n).state)
    decreases n
  {
    hide OthersRound;
    if n > 0 && !c.fault {
      RoundIsSound(c);
      RoundFollowsArrow(c);
      if OthersRound(c).exit != Return { BatchAdvances(OthersRound(c).tcb, n - 1); }
    }
  }
}
