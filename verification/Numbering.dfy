/** The segments a connection forms tile the sequence space, each starting where the one before ended. */
module Numbering {
  import opened Wire
  import opened BlockQueue
  import opened Engine
  import opened SendQueue
  import opened StateMachine
  import opened Handshake

  /** The numbers a segment uses up: its bytes, and one for a SYN or a FIN. */
  function Len(s: Segment): nat { |s.payload| + if s.flags.syn || s.flags.fin then 1 else 0 }

  function Span(b: seq<Segment>): nat
  {
    if b == [] then 0 else Span(b[..|b| - 1]) + Len(b[|b| - 1])
  }

  /** From `initial` on, every segment is numbered where its predecessor ended, and the last one ends at `next`. */
  ghost predicate Tiled(b: seq<Segment>, initial: u32, next: u32)
  {
    if b == [] then next == initial
    else
      var s := b[|b| - 1];
      Tiled(b[..|b| - 1], initial, s.seqNum) && next == U32(s.seqNum + Len(s))
  }

  /** No reset has been formed, and no second SYN: the SYNs of the two sides did not cross. */
  ghost predicate Quiet(b: seq<Segment>)
  {
    (forall i | 0 <= i < |b| :: !b[i].flags.rst) && (forall i, j | 0 <= i < j < |b| :: !(b[i].flags.syn && b[j].flags.syn))
  }

  lemma QuietPrefix(b: seq<Segment>, r: seq<Segment>)
    requires b <= r && Quiet(r)
    ensures Quiet(b)
  {
  }

  lemma Snoc(b: seq<Segment>, s: Segment, initial: u32)
    ensures Span(b + [s]) == Span(b) + Len(s)
    ensures Tiled(b, initial, s.seqNum) ==> Tiled(b + [s], initial, U32(s.seqNum + Len(s)))
    ensures Quiet(b + [s]) ==> Quiet(b)
  {
    assert (b + [s])[..|b|] == b;
    if Quiet(b + [s]) { QuietPrefix(b, b + [s]); }
  }

  /** In a tiled trace, consecutive segments meet. */
  lemma {:induction false} TiledMeets(b: seq<Segment>, initial: u32, next: u32, i: nat)
    requires Tiled(b, initial, next) && i < |b|
    ensures (if i + 1 < |b| then b[i + 1].seqNum else next) == U32(b[i].seqNum + Len(b[i]))
    ensures i == 0 ==> b[i].seqNum == initial
  {
    if i + 1 < |b| {
      TiledMeets(b[..|b| - 1], initial, b[|b| - 1].seqNum, i);
    } else if i == 0 {
      assert b[..|b| - 1] == [];
    }
  }

  /** The sending numbers of a block whose trace is quiet so far. */
  ghost predicate InOrder(c: Tcb)
  {
    var b := c.out.built;
    && Tiled(b, c.sendInitial, c.sendNext)
    && (c.sendInitial + Span(b) < TWO32 ==> c.sendUna <= c.sendNext == c.sendInitial + Span(b))
  }

  ghost predicate Numbered(c: Tcb) { c.fault || !Quiet(c.out.built) || InOrder(c) }

  /** `r` may follow `c`: traces only grow, and while they are quiet nothing acknowledged is taken back. */
  ghost predicate Onward(c: Tcb, r: Tcb)
  {
    && r.sendInitial == c.sendInitial && c.out.built <= r.out.built && (c.fault ==> r.fault)
    && (r.fault || !Quiet(r.out.built) || c.sendUna <= r.sendUna)
  }

  lemma OnwardTrans(a: Tcb, b: Tcb, c: Tcb)
    requires Onward(a, b) && Onward(b, c)
    ensures Onward(a, c)
  {
  }

  lemma WriteNumbered(c: Tcb, flags: Flags, payload: Payload)
    requires Numbered(c) && !flags.syn && !flags.fin
    ensures Numbered(Write(c, flags, payload)) && Onward(c, Write(c, flags, payload))
  {
    hide Write, Tiled, Quiet, Span;
    WriteFrame(c, flags, payload);
    Snoc(c.out.built, Form(c, flags, payload), c.sendInitial);
  }

  /** A segment that uses up one more number than it has bytes, followed by `send_next++`. */
  lemma WriteAndCount(c: Tcb, flags: Flags)
    requires Numbered(c) && (flags.syn || flags.fin)
    ensures var w := Write(c, flags, []);
      Numbered(w.(sendNext := U32(w.sendNext + 1))) && Onward(c, w)
  {
    hide Write, Tiled, Quiet, Span;
    WriteFrame(c, flags, []);
    Snoc(c.out.built, Form(c, flags, []), c.sendInitial);
  }

  /** Whatever `send_next` was set to, the reset formed with it ends the quiet. */
  lemma ResetIsNoticed(c: Tcb)
    ensures var w := Write(c, RST, []); (w.fault || !Quiet(w.out.built)) && Onward(c, w)
  {
    hide Write;
    WriteFrame(c, RST, []);
    var w := Write(c, RST, []);
    if !w.fault { assert w.out.built[|c.out.built|].flags.rst; }
  }

  lemma PayloadNumbered(c: Tcb, payload: Payload)
    requires Numbered(c)
    ensures Numbered(ReceivePayload(c, payload)) && Onward(c, ReceivePayload(c, payload))
  {
    hide Write, Tiled, Quiet, Span;
    WriteNumbered(c.(recvNext := U32(c.recvNext + |payload|), recvWindow := U16(c.recvWindow - |payload|)), ACK, []);
  }

  lemma TakeAckNumbered(c: Tcb, s: Segment)
    requires Numbered(c) && s.ackNum <= c.sendNext
    ensures Numbered(TakeAck(c, s)) && Onward(c, TakeAck(c, s))
  {
    hide Tiled, Quiet, Span;
  }

  lemma AckStageNumbered(c: Tcb, s: Segment)
    requires Numbered(c)
    ensures Numbered(AckStage(c, s).tcb) && Onward(c, AckStage(c, s).tcb)
  {
    hide Write, Tiled, Quiet, Span, TakeAck;
    WriteNumbered(c, ACK, []);
    ResetIsNoticed(c.(sendNext := s.ackNum));
    if s.ackNum <= c.sendNext { TakeAckNumbered(c, s); }
  }

  lemma FinStageNumbered(c: Tcb, s: Segment, state: State)
    requires Numbered(c)
    ensures Numbered(FinStage(c, s, state)) && Onward(c, FinStage(c, s, state))
  {
    hide Write, Tiled, Quiet, Span;
    WriteAndCount(c.(recvNext := U32(s.seqNum + 1)), FIN_ACK);
  }

  lemma RoundNumbered(c: Tcb)
    requires Numbered(c) && c.inQ != []
    ensures Numbered(OthersRound(c).tcb) && Onward(c, OthersRound(c).tcb)
  {
    hide Write, AckStage, FinStage, ReceivePayload, InWindow, Numbered, Onward;
    var s := c.inQ[0];
    WriteNumbered(c, ACK, []);
    PopNumbered(Write(c, ACK, []), c);
    PopNumbered(c, c);
    NotifyNumbered(c);
    AckStageNumbered(c, s);
    var a := AckStage(c, s).tcb;
    PayloadNumbered(a, s.payload);
    var p := PayloadStage(a, s, c.state);
    FinStageNumbered(p, s, c.state);
    var f := FinStage(p, s, c.state);
    OnwardTrans(c, a, p) by { OnwardSelf(a); }
    OnwardTrans(c, p, f);
    PopNumbered(f, c);
  }

  lemma OnwardSelf(c: Tcb)
    ensures Onward(c, c)
  {
  }

  lemma PopNumbered(c: Tcb, before: Tcb)
    ensures Numbered(c) ==> Numbered(Pop(c))
    ensures Onward(before, c) ==> Onward(before, Pop(c))
    ensures Onward(c, Pop(c))
  {
  }

  lemma NotifyNumbered(c: Tcb)
    ensures (Numbered(c) ==> Numbered(Notify(c, OnClose))) && Onward(c, Notify(c, OnClose)) && Onward(c, c)
  {
  }

  lemma {:induction false} BatchNumbered(c: Tcb, n: nat)
    requires Numbered(c)
    ensures Numbered(Others(c, n)) && Onward(c, Others(c, n))
    decreases n
  {
    hide OthersRound, Numbered, Onward;
    OnwardSelf(c);
    if n > 0 && !c.fault {
      if c.inQ == [] {
        FaultNumbered(c);
      } else {
        RoundNumbered(c);
        var r := OthersRound(c);
        if r.exit != Return {
          BatchNumbered(r.tcb, n - 1);
          OnwardTrans(c, r.tcb, Others(r.tcb, n - 1));
        }
      }
    }
  }

  lemma FaultNumbered(c: Tcb)
    ensures Numbered(c.(fault := true)) && Onward(c, c.(fault := true))
  {
  }

  // ---------------------------------------------------------------- whole reads, whole runs

  /** Between two events: a block that still listens has reset somebody, one in SYN-SENT has sent its SYN. */
  ghost predicate Resting(c: Tcb)
  {
    && Numbered(c)
    && (c.state.Listen? ==> c.fault || !Quiet(c.out.built))
    && (c.state.SynSent? ==> c.fault || !Quiet(c.out.built) || (c.sendUna == 0 && HasSyn(c.out.built)))
  }

  /** A segment arrives at a listening block that has formed nothing yet. */
  lemma ListenNumbered(c: Tcb)
    requires c.state.Listen? && c.inQ != [] && !c.fault
    requires c.out.built == [] && c.sendUna == 0 && c.sendNext == c.sendInitial
    ensures ListenStep(c).Present? ==> Resting(ListenStep(c).tcb) && Onward(c, ListenStep(c).tcb)
  {
    hide Write, Quiet;
    var s := c.inQ[0];
    ResetIsNoticed(c.(sendNext := s.ackNum, recvNext := 0));
    var c1 := c.(recvInitial := s.seqNum, recvNext := U32(s.seqNum + 1), state := SynReceived,
                 handler := RunOthers, sendNext := c.sendInitial);
    WriteAndCount(c1, SYN_ACK);
    WriteFrame(c1, SYN_ACK, []);
    WriteFrame(c.(sendNext := s.ackNum, recvNext := 0), RST, []);
  }

  /** A block that listened on after resetting somebody has lost its quiet for good. */
  lemma ListenOnward(c: Tcb)
    requires c.state.Listen? && c.inQ != [] && (c.fault || !Quiet(c.out.built))
    ensures ListenStep(c).Present? ==> Resting(ListenStep(c).tcb) && Onward(c, ListenStep(c).tcb)
  {
    hide Write;
    var s := c.inQ[0];
    WriteFrame(c.(sendNext := s.ackNum, recvNext := 0), RST, []);
    WriteFrame(c.(recvInitial := s.seqNum, recvNext := U32(s.seqNum + 1), state := SynReceived,
                  handler := RunOthers, sendNext := c.sendInitial), SYN_ACK, []);
  }

  ghost predicate HasSyn(b: seq<Segment>) { exists i :: 0 <= i < |b| && b[i].flags.syn }

  /** Answering a SYN that crossed our own forms a second SYN. */
  lemma CrossingIsNoticed(c: Tcb)
    requires HasSyn(c.out.built)
    ensures var w := Write(c, SYN_ACK, []); (w.fault || !Quiet(w.out.built)) && Onward(c, w)
  {
    hide Write;
    WriteFrame(c, SYN_ACK, []);
    var w, b := Write(c, SYN_ACK, []), c.out.built;
    var i :| 0 <= i < |b| && b[i].flags.syn;
    if !w.fault { assert w.out.built[i] == b[i] && w.out.built[|b|].flags.syn; }
  }

  lemma AnswerSynNumbered(c: Tcb, s: Segment)
    requires Numbered(c)
    requires c.sendUna > c.sendInitial || c.fault || !Quiet(c.out.built) || HasSyn(c.out.built)
    ensures Numbered(AnswerSyn(c, s)) && Onward(c, AnswerSyn(c, s))
  {
    hide Write, Tiled, Quiet, Span, HasSyn;
    var e := c.(state := Established, handler := RunOthers);
    WriteNumbered(e, ACK, []);
    PayloadNumbered(e, s.payload);
    var x := c.(state := SynReceived, handler := RunOthers);
    if HasSyn(c.out.built) { CrossingIsNoticed(x); }
    WriteFrame(x, SYN_ACK, []);
    if Quiet(Write(x, SYN_ACK, []).out.built) { QuietPrefix(c.out.built, Write(x, SYN_ACK, []).out.built); }
  }

  lemma SynSentNumbered(c: Tcb)
    requires Resting(c) && c.state.SynSent? && c.inQ != []
    ensures SynSentStep(c).Present? ==> Resting(SynSentStep(c).tcb) && Onward(c, SynSentStep(c).tcb)
  {
    hide Write, Tiled, Quiet, Span, AnswerSyn, HasSyn;
    var s := c.inQ[0];
    ResetIsNoticed(c);
    WriteFrame(c, RST, []);
    var c1 := c.(recvInitial := s.seqNum, recvNext := U32(s.seqNum + 1),
                 sendUna := if s.flags.ack then s.ackNum else c.sendUna);
    if s.flags.ack ==> c.sendInitial < s.ackNum <= c.sendNext {
      AnswerSynNumbered(c1, s);
      AnswerSynFrame(c1, s);
      if Quiet(AnswerSyn(c1, s).out.built) { QuietPrefix(c.out.built, AnswerSyn(c1, s).out.built); }
    }
  }

  lemma ReceiveNumbered(c: Tcb, s: Segment, patched: bool)
    requires Resting(c) && Sound(c)
    ensures var r := Receive(c, s, patched); r.Present? ==> Resting(r.tcb) && Onward(c, r.tcb)
  {
    hide ListenStep, SynSentStep, Others, Insert, Numbered, Quiet, HasSyn;
    OnwardSelf(c);
    FaultNumbered(c);
    if patched || !AddFaults(c.inQ, s.seqNum) {
      var c1 := c.(inQ := Buffered(c.inQ, s), recvNext := if c.state.SynSent? then s.seqNum else c.recvNext);
      SameNumbers(c, c1);
      var n := Ready(c1.inQ, c1.recvNext);
      if n > 0 {
        match c1.handler {
          case RunListen => ListenOnward(c1);
          case RunSynSent => SynSentNumbered(c1);
          case RunOthers =>
            BatchNumbered(c1, n);
            BatchIsSound(c1, n);
        }
      }
    }
  }

  lemma SameNumbers(c: Tcb, r: Tcb)
    requires r == c.(inQ := r.inQ, recvNext := r.recvNext)
    ensures (Numbered(c) ==> Numbered(r)) && Onward(c, r)
  {
  }

  lemma CreateNumbered(cfg: Config, s: Segment, patched: bool)
    requires s.flags.syn
    ensures var r := Read(Absent, s, cfg, patched); r.Present? ==> Resting(r.tcb)
  {
    hide ListenStep, Quiet, HasSyn, Write;
    FirstSegmentListens(cfg, s, patched);
    var c1 := Create(cfg, s, Listen).(inQ := [s]);
    ListenNumbered(c1);
  }

  ghost predicate SlotResting(slot: Slot) { slot.Present? ==> Sound(slot.tcb) && Resting(slot.tcb) }

  lemma SubmitNumbered(c: Tcb, payload: Payload)
    requires Resting(c)
    ensures Resting(Send(c, payload)) && Onward(c, Send(c, payload))
  {
    hide Write, Tiled, Quiet, Span;
    OnwardSelf(c);
    WriteFrame(c, PSH_ACK, payload);
    WriteNumbered(c, PSH_ACK, payload);
    var b, r := c.out.built, Write(c, PSH_ACK, payload).out.built;
    if Quiet(r) { QuietPrefix(b, r); }
    if HasSyn(b) {
      var i :| 0 <= i < |b| && b[i].flags.syn;
      assert r[i] == b[i];
    }
  }

  lemma HappenNumbered(slot: Slot, e: Event, patched: bool)
    requires SlotResting(slot)
    ensures var r := Happen(slot, e, patched);
      && SlotResting(r)
      && (slot.Present? && r.Present? ==> Onward(slot.tcb, r.tcb))
  {
    hide Receive, Send, Resting, Sound;
    HappenIsSound(slot, e, patched);
    match e {
      case Arrive(s, cfg) =>
        if slot.Present? {
          OnwardSelf(slot.tcb);
          if !slot.tcb.fault { ReceiveNumbered(slot.tcb, s, patched); }
        } else if s.flags.syn {
          CreateNumbered(cfg, s, patched);
        }
      case Submit(p) =>
        if slot.Present? { SubmitNumbered(slot.tcb, p); }
      case LinkTo(up) =>
        if slot.Present? { LinkNumbered(slot.tcb, up); }
    }
  }

  lemma LinkNumbered(c: Tcb, up: bool)
    ensures var r := c.(out := c.out.(linkUp := up)); (Resting(c) ==> Resting(r)) && Onward(c, r)
  {
  }

  /** Over any run, with any arrivals: a connection that has neither reset anybody nor crossed SYNs numbers its
      segments without gap or overlap, and acknowledgements taken never pass what has been sent. */
  lemma {:induction false} SegmentsTile(slot: Slot, es: seq<Event>, patched: bool)
    requires SlotResting(slot)
    ensures var r := HappenAll(slot, es, patched);
      && SlotResting(r)
      && (r.Present? && !r.tcb.fault && Quiet(r.tcb.out.built) ==> InOrder(r.tcb))
    decreases |es|
  {
    hide Happen, Resting, Sound, Quiet, InOrder;
    if es != [] {
      HappenNumbered(slot, es[0], patched);
      SegmentsTile(Happen(slot, es[0], patched), es[1..], patched);
    } else {
      if slot.Present? && !slot.tcb.fault && Quiet(slot.tcb.out.built) { RestingIsInOrder(slot.tcb); }
    }
  }

  lemma RestingIsInOrder(c: Tcb)
    requires Resting(c) && !c.fault && Quiet(c.out.built)
    ensures InOrder(c)
  {
  }

  /** A run starts without a block, or with one that has connected over a working link. */
  lemma StartsResting(cfg: Config)
    requires cfg.initial + 1 < TWO32
    ensures SlotResting(Absent) && SlotResting(Present(Connect(cfg, true)))
  {
    hide Connect, Create, Tiled, Span, Quiet;
    var s := ConnectedFields(cfg);
    assert [s] == [] + [s] && [s][0].flags.syn;
    Snoc([], s, cfg.initial);
    FirstSyn(cfg.initial);
  }

  /** The fields of a connected block that matter here. */
  lemma ConnectedFields(cfg: Config) returns (s: Segment)
    requires cfg.initial + 1 < TWO32
    ensures var c := Connect(cfg, true);
      && c.state.SynSent? && c.handler.RunSynSent? && c.finNum == 0 && c.inQ == [] && !c.fault
      && c.sendInitial == cfg.initial && c.sendUna == 0 && c.sendNext == cfg.initial + 1
      && c.out.built == [s] && s.seqNum == cfg.initial && s.flags == SYN && s.payload == []
  {
    hide Connect;
    ConnectIs(cfg);
    s := Form(Create(cfg.(active := true), STUB_HEADER, SynSent), SYN, []);
  }

  lemma FirstSyn(initial: u32)
    ensures Tiled([], initial, initial) && Span([]) == 0
  {
  }
}
