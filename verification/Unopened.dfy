/** What keeps a block from ever opening: the queue as written, before a connection is synchronized. */
module Unopened {
  import opened Wire
  import opened BlockQueue
  import opened Engine
  import opened SendQueue
  import opened StateMachine
  import opened Handshake
  import opened Resets
  import opened Jam

  // ---------------------------------------------------------------- the connecting side

  /** Nothing tcp_syn_sent does will ever remove the segment: it has neither SYN nor RST, or acknowledges nothing the
      block has sent. */
  predicate NeverTaken(c: Tcb, s: Segment)
  {
    (!s.flags.syn && !s.flags.rst) || (s.flags.ack && s.ackNum <= c.sendInitial)
  }

  /** Such a segment lies at the front of a connecting block. */
  predicate Blocked(c: Tcb)
  {
    c.state.SynSent? && c.handler.RunSynSent? && c.inQ != [] && NeverTaken(c, c.inQ[0])
  }

  ghost predicate StillBlocked(c: Tcb, r: Tcb)
  {
    r.fault || (Blocked(r) && r.sendInitial == c.sendInitial && r.delivered == c.delivered && r.upcalls == c.upcalls)
  }

  lemma BlockedReceives(c: Tcb, s: Segment)
    requires Blocked(c)
    ensures var r := Receive(c, s, false); r.Present? && StillBlocked(c, r.tcb)
  {
    hide Write, Insert;
    if !AddFaults(c.inQ, s.seqNum) {
      KeepHead(c.inQ, s);
      WriteFrame(c.(inQ := Buffered(c.inQ, s), recvNext := s.seqNum), RST, []);
    }
  }

  lemma BlockedHappens(c: Tcb, e: Event)
    requires Blocked(c)
    ensures var r := Happen(Present(c), e, false); r.Present? && StillBlocked(c, r.tcb)
  {
    hide Write, Receive;
    match e {
      case Arrive(s, cfg) => if !c.fault { BlockedReceives(c, s); }
      case Submit(p) => WriteFrame(c, PSH_ACK, p);
      case LinkTo(up) =>
    }
  }

  lemma {:induction false} BlockedIsForEver(c: Tcb, es: seq<Event>)
    requires Blocked(c)
    ensures var r := HappenAll(Present(c), es, false); r.Present? && StillBlocked(c, r.tcb)
    decreases |es|
  {
    hide Happen;
    if es != [] {
      BlockedHappens(c, es[0]);
      var n := Happen(Present(c), es[0], false).tcb;
      if n.fault {
        FaultIsForEver(n, es[1..]);
      } else {
        BlockedIsForEver(n, es[1..]);
      }
    }
  }

  /** The process is gone, or the block has not left `state`. */
  ghost predicate StuckIn(slot: Slot, state: State) { slot.Present? && (slot.tcb.fault || slot.tcb.state == state) }

  ghost predicate NeverLeaves(slot: Slot, state: State)
  {
    forall es: seq<Event> :: StuckIn(HappenAll(slot, es, false), state)
  }

  /** A connecting block with nothing queued whose SYN has been counted, and whose send queue is in order. */
  ghost predicate JustConnected(c: Tcb)
  {
    && c.state.SynSent? && c.handler.RunSynSent? && c.inQ == [] && !c.fault
    && c.sendInitial < c.sendNext && Ordered(c.out, c.sendNext)
  }

  /** After reading `s` a connecting block never leaves SYN-SENT, whatever else happens, exactly when `s` has neither
      SYN nor RST or acknowledges nothing the block has sent. */
  lemma NeverOpensExactly(c: Tcb, s: Segment)
    requires JustConnected(c)
    ensures NeverLeaves(Receive(c, s, false), SynSent) <==> NeverTaken(c, s)
  {
    hide Receive, HappenAll;
    ReadAlone(c, s);
    var d := c.(inQ := [s], recvNext := s.seqNum);
    if NeverTaken(c, s) {
      forall es: seq<Event> ensures StuckIn(HappenAll(Receive(c, s, false), es, false), SynSent) {
        StaysBlocked(c, s, es);
      }
    } else if Refuses(c, s) {
      var es := AcknowledgedLater(c, s);
      assert !StuckIn(HappenAll(Receive(c, s, false), es, false), SynSent);
    } else {
      var es := TakenAtOnce(c, s);
      assert !StuckIn(HappenAll(Receive(c, s, false), es, false), SynSent);
    }
  }

  lemma ConnectIsJust(cfg: Config)
    requires cfg.initial + 1 < TWO32
    ensures JustConnected(Connect(cfg, true))
  {
    hide Connect;
    ConnectIs(cfg);
  }

  lemma ReadAlone(c: Tcb, s: Segment)
    requires c.state.SynSent? && c.handler.RunSynSent? && c.inQ == [] && !c.fault
    ensures Receive(c, s, false) == SynSentStep(c.(inQ := [s], recvNext := s.seqNum))
  {
    hide SynSentStep;
    assert Insert([], s) == [s];
    assert Ready([s], s.seqNum) == 1 + Ready([], After(s));
  }

  lemma StaysBlocked(c: Tcb, s: Segment, es: seq<Event>)
    requires JustConnected(c) && NeverTaken(c, s)
    ensures StuckIn(HappenAll(Receive(c, s, false), es, false), SynSent)
  {
    hide Write, Receive;
    ReadAlone(c, s);
    var d := c.(inQ := [s], recvNext := s.seqNum);
    WriteFrame(d, RST, []);
    var o := Receive(c, s, false).tcb;
    if o.fault { FaultIsForEver(o, es); } else { BlockedIsForEver(o, es); }
  }

  /** A SYN, or a reset that is not refused, is dealt with at once; a bare reset leaves the block for the next SYN. */
  lemma TakenAtOnce(c: Tcb, s: Segment) returns (es: seq<Event>)
    requires JustConnected(c) && (s.flags.syn || s.flags.rst) && !Refuses(c, s)
    ensures !StuckIn(HappenAll(Receive(c, s, false), es, false), SynSent)
  {
    hide Receive;
    es := [];
    if s.flags.rst {
      ReadAlone(c, s);
      if !s.flags.ack {
        var d := c.(recvNext := s.seqNum);
        assert Receive(c, s, false) == Present(d);
        var syn := Segment(0, 0, SYN, 0, []);
        SynOpens(d, syn);
        es := [Arrive(syn, NO_CONFIG)];
        assert es[1..] == [];
        assert HappenAll(Present(d), es, false) == HappenAll(Receive(d, syn, false), [], false);
      }
    } else {
      SynOpens(c, s);
    }
  }

  lemma SynOpens(c: Tcb, s: Segment)
    requires JustConnected(c) && s.flags.syn && !s.flags.rst && !Refuses(c, s)
    ensures !StuckIn(Receive(c, s, false), SynSent)
  {
    hide Receive, Write;
    ReadAlone(c, s);
    var d := c.(inQ := [s], recvNext := s.seqNum);
    OpensWithoutFault(d);
  }

  /** An acceptable SYN at the front opens the block, and an ordered send queue takes the answer. */
  lemma OpensWithoutFault(d: Tcb)
    requires d.inQ != [] && !d.fault && Ordered(d.out, d.sendNext)
    requires d.inQ[0].flags.syn && !d.inQ[0].flags.rst && !Refuses(d, d.inQ[0])
    ensures var r := SynSentStep(d);
      && r.Present? && !r.tcb.fault && r.tcb.handler.RunOthers? && (r.tcb.state.Established? || r.tcb.state.SynReceived?)
  {
    hide AnswerSyn, Ordered;
    var s := d.inQ[0];
    AnswersWithoutFault(d.(recvInitial := s.seqNum, recvNext := U32(s.seqNum + 1),
                           sendUna := if s.flags.ack then s.ackNum else d.sendUna), s);
  }

  lemma AnswersWithoutFault(c: Tcb, s: Segment)
    requires !c.fault && Ordered(c.out, c.sendNext)
    ensures var r := AnswerSyn(c, s);
      !r.fault && r.handler.RunOthers? && (r.state.Established? || r.state.SynReceived?)
  {
    hide Write;
    AnswerSynFrame(c, s);
    var e := c.(state := Established, handler := RunOthers);
    WriteFrame(e, ACK, []);
    WriteFrame(e.(recvNext := U32(e.recvNext + |s.payload|), recvWindow := U16(e.recvWindow - |s.payload|)), ACK, []);
    WriteFrame(c.(state := SynReceived, handler := RunOthers), SYN_ACK, []);
  }

  /** A segment that acknowledges what has not been sent waits at the front until that has been written; then the
      next copy of it has it taken. */
  lemma AcknowledgedLater(c: Tcb, s: Segment) returns (es: seq<Event>)
    requires JustConnected(c) && (s.flags.syn || s.flags.rst) && s.flags.ack && s.ackNum > c.sendNext
    ensures !StuckIn(HappenAll(Receive(c, s, false), es, false), SynSent)
  {
    hide Receive, HappenAll, Write;
    ReadAlone(c, s);
    var d := c.(inQ := [s], recvNext := s.seqNum);
    RefusalKeepsOrder(d);
    var w := SynSentStep(d).tcb;
    var writes, m := WriteUpTo(w, s.ackNum);
    var again := Arrive(s, NO_CONFIG);
    es := writes + [again];
    HappenAllOn(Present(w), writes, [again], false);
    OneMore(Present(m), again, false);
    SecondCopy(m, s);
  }

  lemma RefusalKeepsOrder(d: Tcb)
    requires d.inQ != [] && d.state.SynSent? && !d.fault && Ordered(d.out, d.sendNext) && Refuses(d, d.inQ[0])
    ensures var r := SynSentStep(d);
      r.Present? && r.tcb == d.(out := r.tcb.out) && Ordered(r.tcb.out, d.sendNext)
  {
    hide Write;
    WriteAppends(d, RST, []);
  }

  /** Another copy finds the first acceptable now. */
  lemma SecondCopy(m: Tcb, s: Segment)
    requires m.state.SynSent? && m.handler.RunSynSent? && m.inQ == [s] && !m.fault && Ordered(m.out, m.sendNext)
    requires (s.flags.syn || s.flags.rst) && s.flags.ack && !Refuses(m, s)
    ensures !StuckIn(Happen(Present(m), Arrive(s, NO_CONFIG), false), SynSent)
  {
    hide SynSentStep;
    var d := m.(inQ := [s, s], recvNext := s.seqNum);
    assert [s][1..] == [] && Insert([], s) == [s] && [s] + [s] == [s, s];
    assert Insert([s], s) == [s, s];
    assert Ready([s, s], s.seqNum) == 1 + Ready([s, s][1..], After(s));
    assert Receive(m, s, false) == SynSentStep(d);
    if s.flags.rst { ResetDeletes(d); } else { OpensWithoutFault(d); }
  }

  lemma ResetDeletes(d: Tcb)
    requires d.inQ != [] && d.inQ[0].flags.rst && d.inQ[0].flags.ack && !Refuses(d, d.inQ[0])
    ensures SynSentStep(d) == Absent
  {
  }

  /** Writes bring `send_next` up to any number, one byte at a time. */
  lemma {:induction false} WriteUpTo(c: Tcb, n: u32) returns (es: seq<Event>, r: Tcb)
    requires !c.fault && Ordered(c.out, c.sendNext) && c.sendNext <= n
    ensures HappenAll(Present(c), es, false) == Present(r)
    ensures r == c.(sendNext := n, out := r.out) && Ordered(r.out, n)
    decreases n - c.sendNext
  {
    hide Write, HappenAll;
    if c.sendNext == n {
      es, r := [], c;
      Nothing(Present(c), false);
    } else {
      WriteAppends(c, PSH_ACK, [0]);
      var m := Send(c, [0]);
      es, r := WriteUpTo(m, n);
      HappenAllOn(Present(c), [Submit([0])], es, false);
      OneMore(Present(c), Submit([0]), false);
      es := [Submit([0])] + es;
    }
  }

  // ---------------------------------------------------------------- the listening side

  /** A listening block that has answered an acknowledgement: its `receive_next` is 0, and what is queued is not that. */
  ghost predicate Deaf(c: Tcb)
  {
    c.state.Listen? && c.handler.RunListen? && c.recvNext == 0 && c.inQ != [] && Ready(c.inQ, 0) == 0
  }

  lemma DeafHappens(c: Tcb, e: Event)
    requires Deaf(c)
    ensures var r := Happen(Present(c), e, false);
      r.Present? && (r.tcb.fault || (Deaf(r.tcb) && r.tcb.delivered == c.delivered))
  {
    hide Write, Insert;
    match e {
      case Arrive(s, cfg) => if !AddFaults(c.inQ, s.seqNum) { KeepHead(c.inQ, s); }
      case Submit(p) => WriteFrame(c, PSH_ACK, p);
      case LinkTo(up) =>
    }
  }

  lemma {:induction false} DeafIsForEver(c: Tcb, es: seq<Event>)
    requires Deaf(c)
    ensures var r := HappenAll(Present(c), es, false);
      r.Present? && (r.tcb.fault || (Deaf(r.tcb) && r.tcb.delivered == c.delivered))
    decreases |es|
  {
    hide Happen;
    if es != [] {
      DeafHappens(c, es[0]);
      var n := Happen(Present(c), es[0], false).tcb;
      if n.fault {
        FaultIsForEver(n, es[1..]);
      } else {
        DeafIsForEver(n, es[1..]);
      }
    }
  }

  /** What a SYN with an acknowledgement makes: a block that still listens, but wants number 0. */
  ghost predicate WantsZero(c: Tcb)
  {
    && c.state.Listen? && c.handler.RunListen? && c.recvNext == 0 && c.inQ == [] && !c.fault
    && c.out.queue == [] && c.out.linkUp
  }

  lemma SynAckResets(cfg: Config, s: Segment)
    requires s.flags.syn && s.flags.ack && !s.flags.rst
    ensures var r := Read(Absent, s, cfg, false); r.Present? && WantsZero(r.tcb)
  {
    hide Write, Read;
    FirstSegmentListens(cfg, s, false);
    var c := Create(cfg, s, Listen).(inQ := [s], sendNext := s.ackNum, recvNext := 0);
    WriteToIdle(c, RST);
  }

  /** Such a block never leaves LISTEN again, exactly when the next segment it reads is numbered 2 or more. */
  lemma NeverListensExactly(c: Tcb, s: Segment)
    requires WantsZero(c)
    ensures NeverLeaves(Receive(c, s, false), Listen) <==> s.seqNum >= 2
  {
    hide HappenAll, Receive;
    if s.seqNum >= 2 {
      QueuesUnready(c, s);
      forall es: seq<Event> ensures StuckIn(HappenAll(Receive(c, s, false), es, false), Listen) {
        DeafIsForEver(c.(inQ := [s]), es);
      }
    } else {
      var es := HeardLater(c, s);
      assert !StuckIn(HappenAll(Receive(c, s, false), es, false), Listen);
    }
  }

  lemma QueuesUnready(c: Tcb, s: Segment)
    requires WantsZero(c) && s.seqNum >= 2
    ensures Receive(c, s, false) == Present(c.(inQ := [s])) && Deaf(c.(inQ := [s]))
  {
    assert Insert([], s) == [s];
  }

  lemma HeardLater(c: Tcb, s: Segment) returns (es: seq<Event>)
    requires WantsZero(c) && s.seqNum < 2
    ensures !StuckIn(HappenAll(Receive(c, s, false), es, false), Listen)
  {
    hide Receive;
    es := [];
    Heard(c, s);
    if s.flags.ack && !s.flags.rst {
      var syn := Segment(0, 0, SYN, 0, []);
      var m := Receive(c, s, false).tcb;
      Heard(m, syn);
      es := [Arrive(syn, NO_CONFIG)];
      assert es[1..] == [];
      assert HappenAll(Present(m), es, false) == HappenAll(Receive(m, syn, false), [], false);
    }
  }

  /** A segment numbered 0 or 1 is read at once. */
  lemma Heard(c: Tcb, s: Segment)
    requires WantsZero(c) && s.seqNum < 2
    ensures var r := Receive(c, s, false);
      if s.flags.rst then r.Absent?
      else if s.flags.ack then r.Present? && WantsZero(r.tcb)
      else r.Present? && r.tcb.state.SynReceived? && !r.tcb.fault
  {
    hide Write;
    assert Insert([], s) == [s];
    assert Ready([s], 0) == 1 + Ready([], After(s));
    var d := c.(inQ := [s]);
    assert Receive(c, s, false) == ListenStep(d);
    WriteToIdle(d.(sendNext := s.ackNum, recvNext := 0), RST);
    WriteToIdle(d.(recvInitial := s.seqNum, recvNext := U32(s.seqNum + 1), state := SynReceived,
                   handler := RunOthers, sendNext := d.sendInitial), SYN_ACK);
  }
}
