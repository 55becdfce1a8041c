/** How long a block lives, and what its owner hears of it. */
module Lifetime {
  import opened Wire
  import opened BlockQueue
  import opened Engine
  import opened SendQueue
  import opened StateMachine

  // ---------------------------------------------------------------- deletion

  /** The event has a reset read that deletes the block: any in LISTEN, in SYN-SENT one that acknowledges the SYN. */
  predicate Deletes(c: Tcb, e: Event, patched: bool)
  {
    && e.Arrive? && !c.fault && (patched || !AddFaults(c.inQ, e.s.seqNum))
    && (var q := Buffered(c.inQ, e.s);
        && q != [] && Continues(q[0].seqNum, if c.state.SynSent? then e.s.seqNum else c.recvNext)
        && q[0].flags.rst
        && (c.state.Listen? || (c.state.SynSent? && q[0].flags.ack && c.sendInitial < q[0].ackNum <= c.sendNext)))
  }

  lemma DeletedExactly(c: Tcb, e: Event, patched: bool)
    requires Sound(c)
    ensures Happen(Present(c), e, patched).Absent? <==> Deletes(c, e, patched)
  {
    hide Write, Others, Insert, AnswerSyn, AcceptSyn;
  }

  /** The block is there after every event of the run. */
  predicate Lives(slot: Slot, es: seq<Event>, patched: bool)
    decreases |es|
  {
    slot.Present? && (es == [] || Lives(Happen(slot, es[0], patched), es[1..], patched))
  }

  /** No event of the run deletes it. */
  predicate NeverDeletes(c: Tcb, es: seq<Event>, patched: bool)
    decreases |es|
  {
    es == [] ||
    (!Deletes(c, es[0], patched)
     && (var n := Happen(Present(c), es[0], patched); n.Present? ==> NeverDeletes(n.tcb, es[1..], patched)))
  }

  /** Over any run a block lives exactly as long as no such reset is read. */
  lemma {:induction false} LivesExactly(c: Tcb, es: seq<Event>, patched: bool)
    requires Sound(c)
    ensures Lives(Present(c), es, patched) <==> NeverDeletes(c, es, patched)
    decreases |es|
  {
    hide Happen, Deletes;
    if es != [] {
      DeletedExactly(c, es[0], patched);
      HappenIsSound(Present(c), es[0], patched);
      var n := Happen(Present(c), es[0], patched);
      if n.Present? { LivesExactly(n.tcb, es[1..], patched); }
    }
  }

  // ---------------------------------------------------------------- what the owner hears

  /** In a round: of a reset that ends an opening of ours, and of a FIN that is answered. */
  predicate ClosesInRound(c: Tcb)
    requires c.inQ != []
  {
    var s := c.inQ[0];
    && InWindow(c, s)
    && if s.flags.rst then c.state.SynReceived? && c.active
       else !s.flags.syn && s.flags.ack && s.flags.fin && (!ChecksAck(c.state) || s.ackNum <= c.sendNext)
  }

  /** A SYN is read that answers our own. */
  predicate ConnectsOn(c: Tcb, s: Segment)
  {
    && s.flags.syn && !s.flags.rst
    && (if s.flags.ack then c.sendInitial < s.ackNum <= c.sendNext else c.sendUna > c.sendInitial)
  }

  /** In FIN-WAIT-2, which no run reaches, an acknowledgement of nothing new also closes when everything had been
      acknowledged on opening. */
  predicate ClosesOnAck(c: Tcb, s: Segment)
  {
    && InWindow(c, s) && !s.flags.rst && !s.flags.syn && s.flags.ack
    && c.state.FinWait2? && s.ackNum <= c.sendNext == c.lastUpdateAck
  }

  /** What the owner hears of a round, from any state in which tcp_others runs. */
  lemma RoundCallsExactly(c: Tcb)
    requires c.inQ != [] && !c.state.Closed? && !c.state.Listen? && !c.state.SynSent?
    ensures OthersRound(c).tcb.upcalls == c.upcalls + (if ClosesOnAck(c, c.inQ[0]) then [OnClose] else [])
                                          + if ClosesInRound(c) then [OnClose] else []
  {
    hide Write, InWindow, TakeAck;
    var s := c.inQ[0];
    WriteFrame(c, ACK, []);
    if InWindow(c, s) && !s.flags.rst && !s.flags.syn && s.flags.ack {
      AckStageCalls(c, s);
      var a := AckStage(c, s).tcb;
      LaterCalls(a, s, c.state);
    }
  }

  lemma AckStageCalls(c: Tcb, s: Segment)
    ensures var a := AckStage(c, s);
      && a.tcb.upcalls == c.upcalls + (if c.state.FinWait2? && s.ackNum <= c.sendNext == c.lastUpdateAck then [OnClose] else [])
      && (a.exit == Continue <==> ChecksAck(c.state) && s.ackNum > c.sendNext) && a.exit != Return
  {
    hide Write, TakeAck;
    TakeAckFrame(c, s);
    WriteFrame(c, ACK, []);
    WriteFrame(c.(sendNext := s.ackNum), RST, []);
  }

  lemma LaterCalls(c: Tcb, s: Segment, state: State)
    requires !state.Closed? && !state.Listen? && !state.SynSent?
    ensures FinStage(PayloadStage(c, s, state), s, state).upcalls == c.upcalls + if s.flags.fin then [OnClose] else []
  {
    hide Write;
    WriteFrame(c.(recvNext := U32(c.recvNext + |s.payload|), recvWindow := U16(c.recvWindow - |s.payload|)), ACK, []);
    WriteFrame(PayloadStage(c, s, state).(recvNext := U32(s.seqNum + 1)), FIN_ACK, []);
  }

  /** The calls of a batch, in order. */
  function BatchCalls(c: Tcb, n: nat): seq<Upcall>
    decreases n
  {
    if n == 0 || c.fault || c.inQ == [] then []
    else
      var r := OthersRound(c);
      (if ClosesInRound(c) then [OnClose] else []) + if r.exit == Return then [] else BatchCalls(r.tcb, n - 1)
  }

  lemma Regroup(a: seq<Upcall>, b: seq<Upcall>, c: seq<Upcall>)
    ensures a + b + c == a + (b + c) && a + [] == a
  {
  }

  lemma {:induction false} BatchCallsExactly(c: Tcb, n: nat)
    requires Sound(c) && c.handler.RunOthers? && n <= |c.inQ|
    ensures Others(c, n).upcalls == c.upcalls + BatchCalls(c, n)
    decreases n
  {
    hide OthersRound, ClosesInRound;
    if n > 0 && !c.fault {
      RoundCallsExactly(c);
      RoundIsSound(c);
      var r := OthersRound(c);
      var now := if ClosesInRound(c) then [OnClose] else [];
      if r.exit != Return { BatchCallsExactly(r.tcb, n - 1); }
      Regroup(c.upcalls, now, if r.exit == Return then [] else BatchCalls(r.tcb, n - 1));
    } else {
      assert c.upcalls + [] == c.upcalls;
    }
  }

  /** The calls of an event. */
  function EventCalls(c: Tcb, e: Event, patched: bool): seq<Upcall>
  {
    if !e.Arrive? || c.fault || (AddFaults(c.inQ, e.s.seqNum) && !patched) then []
    else
      var q := Buffered(c.inQ, e.s);
      var start := if c.state.SynSent? then e.s.seqNum else c.recvNext;
      if c.handler.RunOthers? then BatchCalls(c.(inQ := q, recvNext := start), Ready(q, start))
      else if c.state.SynSent? && q != [] && Continues(q[0].seqNum, start) && ConnectsOn(c, q[0]) then [OnConnect]
      else []
  }

  lemma SynSentCalls(c: Tcb)
    requires c.inQ != []
    ensures var r := SynSentStep(c);
      r.Present? ==> r.tcb.upcalls == c.upcalls + if ConnectsOn(c, c.inQ[0]) then [OnConnect] else []
  {
    hide Write, AnswerSyn;
    WriteFrame(c, RST, []);
    var s := c.inQ[0];
    AnswerCalls(c.(recvInitial := s.seqNum, recvNext := U32(s.seqNum + 1),
                   sendUna := if s.flags.ack then s.ackNum else c.sendUna), s);
  }

  lemma AnswerCalls(c: Tcb, s: Segment)
    ensures AnswerSyn(c, s).upcalls == c.upcalls + if c.sendUna > c.sendInitial then [OnConnect] else []
  {
    hide Write;
    var e := c.(state := Established, handler := RunOthers);
    WriteFrame(e, ACK, []);
    WriteFrame(e.(recvNext := U32(e.recvNext + |s.payload|), recvWindow := U16(e.recvWindow - |s.payload|)), ACK, []);
    WriteFrame(c.(state := SynReceived, handler := RunOthers), SYN_ACK, []);
  }

  lemma ListenCalls(c: Tcb)
    requires c.inQ != []
    ensures var r := ListenStep(c); r.Present? ==> r.tcb.upcalls == c.upcalls
  {
    hide Write;
    var s := c.inQ[0];
    WriteFrame(c.(sendNext := s.ackNum, recvNext := 0), RST, []);
    WriteFrame(c.(recvInitial := s.seqNum, recvNext := U32(s.seqNum + 1), state := SynReceived,
                  handler := RunOthers, sendNext := c.sendInitial), SYN_ACK, []);
  }

  lemma EventCallsExactly(c: Tcb, e: Event, patched: bool)
    requires Sound(c)
    ensures var r := Happen(Present(c), e, patched);
      r.Present? ==> r.tcb.upcalls == c.upcalls + EventCalls(c, e, patched)
  {
    hide Write, Others, Insert, ListenStep, SynSentStep, BatchCalls, OthersRound;
    assert c.upcalls + [] == c.upcalls;
    match e {
      case Arrive(s, cfg) =>
        var d := c.(inQ := Buffered(c.inQ, s), recvNext := if c.state.SynSent? then s.seqNum else c.recvNext);
        var n := Ready(d.inQ, d.recvNext);
        if n > 0 {
          match d.handler {
            case RunListen => ListenCalls(d);
            case RunSynSent => SynSentCalls(d);
            case RunOthers => BatchCallsExactly(d, n);
          }
        } else {
          NoRounds(d);
        }
      case Submit(p) => WriteFrame(c, PSH_ACK, p);
      case LinkTo(up) =>
    }
  }

  lemma NoRounds(c: Tcb)
    ensures BatchCalls(c, 0) == []
  {
  }

  function RunCalls(c: Tcb, es: seq<Event>, patched: bool): seq<Upcall>
    decreases |es|
  {
    if es == [] then []
    else
      var n := Happen(Present(c), es[0], patched);
      EventCalls(c, es[0], patched) + if n.Present? then RunCalls(n.tcb, es[1..], patched) else []
  }

  /** What the owner of a block hears over a run that does not delete it, and in which order. */
  lemma {:induction false} OwnerHearsExactly(c: Tcb, es: seq<Event>, patched: bool)
    requires Sound(c) && Lives(Present(c), es, patched)
    ensures var r := HappenAll(Present(c), es, patched);
      r.Present? && r.tcb.upcalls == c.upcalls + RunCalls(c, es, patched)
    decreases |es|
  {
    hide Happen, EventCalls;
    if es == [] {
      assert c.upcalls + [] == c.upcalls;
    } else {
      EventCallsExactly(c, es[0], patched);
      HappenIsSound(Present(c), es[0], patched);
      var n, now := Happen(Present(c), es[0], patched).tcb, EventCalls(c, es[0], patched);
      OwnerHearsExactly(n, es[1..], patched);
      assert c.upcalls + now + RunCalls(n, es[1..], patched) == c.upcalls + (now + RunCalls(n, es[1..], patched));
    }
  }

  // ---------------------------------------------------------------- what follows

  /** A block that has never been in SYN-SENT, whose owner has not heard of a connection. */
  predicate Unannounced(slot: Slot) { slot.Present? ==> !slot.tcb.state.SynSent? && OnConnect !in slot.tcb.upcalls }

  lemma {:induction false} BatchNeverConnects(c: Tcb, n: nat)
    ensures OnConnect !in BatchCalls(c, n)
    decreases n
  {
    hide OthersRound, ClosesInRound;
    if n > 0 && !c.fault && c.inQ != [] {
      var r := OthersRound(c);
      var now := if ClosesInRound(c) then [OnClose] else [];
      var later := if r.exit == Return then [] else BatchCalls(r.tcb, n - 1);
      if r.exit != Return { BatchNeverConnects(r.tcb, n - 1); }
      assert BatchCalls(c, n) == now + later && OnConnect !in now && OnConnect !in later;
    }
  }

  lemma BlockUnannounced(c: Tcb, e: Event, patched: bool)
    requires Sound(c) && Unannounced(Present(c))
    ensures Unannounced(Happen(Present(c), e, patched))
  {
    hide Happen, BatchCalls;
    EventCallsExactly(c, e, patched);
    StaysOutOfSynSent(c, e, patched);
    if c.handler.RunOthers? && e.Arrive? {
      var q := Buffered(c.inQ, e.s);
      BatchNeverConnects(c.(inQ := q, recvNext := c.recvNext), Ready(q, c.recvNext));
    }
  }

  lemma HappenUnannounced(slot: Slot, e: Event, patched: bool)
    requires SlotSound(slot) && Unannounced(slot)
    ensures Unannounced(Happen(slot, e, patched))
  {
    hide Receive, Write;
    if slot.Present? {
      BlockUnannounced(slot.tcb, e, patched);
    } else if e.Arrive? && e.s.flags.syn {
      BlockUnannounced(Create(e.cfg, e.s, Listen), e, patched);
    }
  }

  lemma StaysOutOfSynSent(c: Tcb, e: Event, patched: bool)
    requires Sound(c) && !c.state.SynSent?
    ensures var r := Happen(Present(c), e, patched); r.Present? ==> !r.tcb.state.SynSent?
  {
    hide Write, Others, Insert;
    match e {
      case Arrive(s, cfg) =>
        var d := c.(inQ := Buffered(c.inQ, s));
        var n := Ready(d.inQ, d.recvNext);
        if n > 0 {
          if d.handler.RunOthers? {
            BatchIsSound(d, n);
          } else {
            var h := d.inQ[0];
            WriteFrame(d.(sendNext := h.ackNum, recvNext := 0), RST, []);
            WriteFrame(d.(recvInitial := h.seqNum, recvNext := U32(h.seqNum + 1), state := SynReceived,
                          handler := RunOthers, sendNext := d.sendInitial), SYN_ACK, []);
          }
        }
      case Submit(p) => WriteFrame(c, PSH_ACK, p);
      case LinkTo(up) =>
    }
  }

  /** The owner of a listening socket never hears that a connection is established, in any run. */
  lemma {:induction false} ListenersNeverHearOfConnections(slot: Slot, es: seq<Event>, patched: bool)
    requires SlotSound(slot) && Unannounced(slot)
    ensures Unannounced(HappenAll(slot, es, patched))
    decreases |es|
  {
    hide Happen, Unannounced;
    if es != [] {
      HappenUnannounced(slot, es[0], patched);
      HappenIsSound(slot, es[0], patched);
      ListenersNeverHearOfConnections(Happen(slot, es[0], patched), es[1..], patched);
    }
  }

  function Closes(u: seq<Upcall>): nat
  {
    if u == [] then 0 else Closes(u[..|u| - 1]) + if u[|u| - 1].OnClose? then 1 else 0
  }

  function Fins(b: seq<Segment>): nat
  {
    if b == [] then 0 else Fins(b[..|b| - 1]) + if b[|b| - 1].flags.fin then 1 else 0
  }

  lemma CountOne(u: seq<Upcall>, b: seq<Segment>, x: Upcall, s: Segment)
    ensures Closes(u + [x]) == Closes(u) + if x.OnClose? then 1 else 0
    ensures Fins(b + [s]) == Fins(b) + if s.flags.fin then 1 else 0
  {
    assert (u + [x])[..|u|] == u && (b + [s])[..|b|] == b;
  }

  /** The owner has heard of the end once for every FIN formed. */
  predicate Told(c: Tcb) { c.fault || Closes(c.upcalls) == Fins(c.out.built) }

  lemma WriteTold(c: Tcb, flags: Flags, payload: Payload)
    requires Told(c) && !flags.fin
    ensures Told(Write(c, flags, payload))
  {
    hide Write, Closes, Fins;
    WriteFrame(c, flags, payload);
    CountOne(c.upcalls, c.out.built, OnClose, Form(c, flags, payload));
  }

  lemma FinTold(c: Tcb, s: Segment, state: State)
    requires Told(c)
    ensures Told(FinStage(c, s, state))
  {
    hide Write, Closes, Fins;
    var m := c.(recvNext := U32(s.seqNum + 1));
    WriteFrame(m, FIN_ACK, []);
    CountOne(c.upcalls, c.out.built, OnClose, Form(m, FIN_ACK, []));
  }

  lemma AckStageTold(c: Tcb, s: Segment)
    requires (c.state.SynReceived? || c.state.Established? || c.state.CloseWait?) && Told(c)
    ensures Told(AckStage(c, s).tcb) && AckStage(c, s).tcb.active == c.active
  {
    hide Write, Closes, Fins, TakeAck;
    TakeAckFrame(c, s);
    WriteTold(c, ACK, []);
    WriteFrame(c, ACK, []);
    var t := c.(sendNext := s.ackNum);
    WriteTold(t, RST, []);
    WriteFrame(t, RST, []);
  }

  lemma PayloadTold(c: Tcb, s: Segment, state: State)
    requires Told(c)
    ensures Told(PayloadStage(c, s, state)) && PayloadStage(c, s, state).active == c.active
  {
    hide Write, Closes, Fins;
    var m := c.(recvNext := U32(c.recvNext + |s.payload|), recvWindow := U16(c.recvWindow - |s.payload|));
    WriteTold(m, ACK, []);
    WriteFrame(m, ACK, []);
  }

  lemma RoundTold(c: Tcb)
    requires Sound(c) && c.handler.RunOthers? && c.inQ != [] && Told(c) && !c.active
    ensures Told(OthersRound(c).tcb) && !OthersRound(c).tcb.active
  {
    hide Write, Closes, Fins, InWindow, AckStage, PayloadStage, FinStage;
    var s := c.inQ[0];
    WriteTold(c, ACK, []);
    WriteFrame(c, ACK, []);
    AckStageTold(c, s);
    var a := AckStage(c, s).tcb;
    PayloadTold(a, s, c.state);
    var p := PayloadStage(a, s, c.state);
    FinTold(p, s, c.state);
    FinKeepsActive(p, s, c.state);
  }

  lemma FinKeepsActive(c: Tcb, s: Segment, state: State)
    ensures FinStage(c, s, state).active == c.active
  {
    hide Write;
    WriteFrame(c.(recvNext := U32(s.seqNum + 1)), FIN_ACK, []);
  }

  lemma {:induction false} BatchTold(c: Tcb, n: nat)
    requires Sound(c) && c.handler.RunOthers? && n <= |c.inQ| && Told(c) && !c.active
    ensures Told(Others(c, n)) && !Others(c, n).active
    decreases n
  {
    hide OthersRound, Told;
    if n > 0 && !c.fault {
      RoundTold(c);
      RoundIsSound(c);
      if OthersRound(c).exit != Return { BatchTold(OthersRound(c).tcb, n - 1); }
    }
  }

  lemma ListenTold(c: Tcb)
    requires c.inQ != [] && Told(c) && !c.active
    ensures var r := ListenStep(c); r.Present? ==> Told(r.tcb) && !r.tcb.active
  {
    hide Write, Closes, Fins;
    var s := c.inQ[0];
    var t := c.(sendNext := s.ackNum, recvNext := 0);
    WriteTold(t, RST, []);
    WriteFrame(t, RST, []);
    var x := c.(recvInitial := s.seqNum, recvNext := U32(s.seqNum + 1), state := SynReceived,
                handler := RunOthers, sendNext := c.sendInitial);
    WriteTold(x, SYN_ACK, []);
    WriteFrame(x, SYN_ACK, []);
  }

  /** A passive block, or none. */
  predicate SlotTold(slot: Slot) { slot.Present? ==> Told(slot.tcb) && !slot.tcb.active && !slot.tcb.state.SynSent? }

  lemma BlockTold(c: Tcb, e: Event, patched: bool)
    requires Sound(c) && SlotTold(Present(c))
    ensures SlotTold(Happen(Present(c), e, patched))
  {
    hide Write, Others, Insert, ListenStep, Closes, Fins;
    StaysOutOfSynSent(c, e, patched);
    match e {
      case Arrive(s, cfg) =>
        var d := c.(inQ := Buffered(c.inQ, s));
        var n := Ready(d.inQ, d.recvNext);
        if n > 0 {
          if d.handler.RunOthers? { BatchTold(d, n); } else { ListenTold(d); }
        }
      case Submit(p) =>
        WriteTold(c, PSH_ACK, p);
        WriteFrame(c, PSH_ACK, p);
      case LinkTo(up) =>
    }
  }

  /** Over every run of a passive block the owner hears of the end as often as a FIN is formed. */
  lemma {:induction false} OneCallPerFin(slot: Slot, es: seq<Event>, patched: bool)
    requires SlotSound(slot) && SlotTold(slot)
    requires forall e | e in es && e.Arrive? :: !e.cfg.active
    ensures SlotTold(HappenAll(slot, es, patched))
    decreases |es|
  {
    hide Happen, Told;
    if es != [] {
      HappenTold(slot, es[0], patched);
      HappenIsSound(slot, es[0], patched);
      OneCallPerFin(Happen(slot, es[0], patched), es[1..], patched);
    }
  }

  lemma HappenTold(slot: Slot, e: Event, patched: bool)
    requires SlotSound(slot) && SlotTold(slot) && (e.Arrive? ==> !e.cfg.active)
    ensures SlotTold(Happen(slot, e, patched))
  {
    hide Receive, Write;
    if slot.Present? {
      BlockTold(slot.tcb, e, patched);
    } else if e.Arrive? && e.s.flags.syn {
      BlockTold(Create(e.cfg, e.s, Listen), e, patched);
    }
  }
}
