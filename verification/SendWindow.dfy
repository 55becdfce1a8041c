/** Over whole runs: nothing is handed down that was longer than the window read at that moment. */
module SendWindow {
  import opened Wire
  import opened BlockQueue
  import opened Engine
  import opened SendQueue
  import opened StateMachine
  import opened Handshake

  /** The windows that may be in force while `c` works: its own, and those of the segments queued. */
  ghost predicate InForce(c: Tcb, w: u16)
  {
    w == Swap16(c.sendWindow) || exists i :: 0 <= i < |c.inQ| && w == Swap16(c.inQ[i].window)
  }

  ghost predicate FitsOneOf(c: Tcb, s: Segment) { exists w: u16 :: InForce(c, w) && |s.payload| <= w }

  /** `r` may follow `c`: it has handed down only what fitted a window of `c`, and has no other windows itself. */
  ghost predicate Within(c: Tcb, r: Tcb)
  {
    && (forall s | s in r.out.sent :: s in c.out.sent || FitsOneOf(c, s))
    && (forall w: u16 | InForce(r, w) :: InForce(c, w))
  }

  lemma WithinTrans(a: Tcb, b: Tcb, c: Tcb)
    requires Within(a, b) && Within(b, c)
    ensures Within(a, c)
  {
    hide InForce;
    forall s | s in c.out.sent ensures s in a.out.sent || FitsOneOf(a, s) {
      if s !in a.out.sent && s !in b.out.sent {
        assert FitsOneOf(b, s);
        var w: u16 :| InForce(b, w) && |s.payload| <= w;
        assert InForce(a, w);
      }
    }
  }

  /** Changes that hand nothing down, and bring no window but one that was queued. */
  lemma NothingSent(c: Tcb, r: Tcb)
    requires r.out.sent == c.out.sent
    requires r.sendWindow == c.sendWindow || exists i :: 0 <= i < |c.inQ| && r.sendWindow == c.inQ[i].window
    requires r.inQ == c.inQ || (c.inQ != [] && r.inQ == c.inQ[1..])
    ensures Within(c, r)
  {
    forall w: u16 | InForce(r, w) ensures InForce(c, w) {
      if i :| 0 <= i < |r.inQ| && w == Swap16(r.inQ[i].window) {
        if r.inQ != c.inQ { assert r.inQ[i] == c.inQ[i + 1]; }
      }
    }
  }

  lemma WriteWithin(c: Tcb, flags: Flags, payload: Payload)
    ensures Within(c, Write(c, flags, payload))
  {
    hide Write, Swap16;
    WriteFrame(c, flags, payload);
    WriteFitsWindow(c, flags, payload);
    var r := Write(c, flags, payload);
    assert InForce(c, Swap16(c.sendWindow));
    forall s | s in r.out.sent ensures s in c.out.sent || FitsOneOf(c, s) {
      var i :| 0 <= i < |r.out.sent| && r.out.sent[i] == s;
      if i < |c.out.sent| { assert s == c.out.sent[i]; }
    }
  }

  /** A write after fields that do not matter here have changed. */
  lemma WriteAfter(c: Tcb, m: Tcb, flags: Flags, payload: Payload)
    requires m.out == c.out && m.sendWindow == c.sendWindow && m.inQ == c.inQ
    ensures Within(c, Write(m, flags, payload))
  {
    hide Write, Within;
    NothingSent(c, m);
    WriteWithin(m, flags, payload);
    WithinTrans(c, m, Write(m, flags, payload));
  }

  lemma TakeAckWithin(c: Tcb, s: Segment)
    requires s in c.inQ
    ensures Within(c, TakeAck(c, s)) && TakeAck(c, s).inQ == c.inQ
  {
    hide Within;
    var i :| 0 <= i < |c.inQ| && c.inQ[i] == s;
    NothingSent(c, TakeAck(c, s));
  }

  lemma AckStageWithin(c: Tcb, s: Segment)
    requires s in c.inQ && c.finNum == 0
    ensures var a := AckStage(c, s); Within(c, a.tcb)
  {
    hide Write, Within, TakeAck;
    NothingSent(c, c);
    WriteWithin(c, ACK, []);
    WriteFrame(c, ACK, []);
    var w := Write(c, ACK, []);
    NothingSent(w, Pop(w));
    WithinTrans(c, w, Pop(w));
    WriteAfter(c, c.(sendNext := s.ackNum), RST, []);
    TakeAckWithin(c, s);
    TakeAckFrame(c, s);
    var t := TakeAck(c, s);
    NothingSent(t, Notify(t, OnClose));
    WithinTrans(c, t, Notify(t, OnClose));
    var i :| 0 <= i < |c.inQ| && c.inQ[i] == s;
    NothingSent(c, c.(sendWindow := s.window, lastUpdateSeq := s.seqNum, lastUpdateAck := s.ackNum, state := Established));
  }

  lemma PayloadWithin(c: Tcb, s: Segment, state: State)
    ensures Within(c, PayloadStage(c, s, state))
  {
    hide Write, Within;
    var m := c.(recvNext := U32(c.recvNext + |s.payload|), recvWindow := U16(c.recvWindow - |s.payload|));
    WriteAfter(c, m, ACK, []);
    var w := Write(m, ACK, []);
    NothingSent(w, w.(delivered := w.delivered + s.payload));
    WithinTrans(c, w, w.(delivered := w.delivered + s.payload));
    NothingSent(c, c);
  }

  lemma FinWithin(c: Tcb, s: Segment, state: State)
    ensures Within(c, FinStage(c, s, state))
  {
    hide Write, Within;
    var m := c.(recvNext := U32(s.seqNum + 1));
    WriteAfter(c, m, FIN_ACK, []);
    WriteFrame(m, FIN_ACK, []);
    var w := Write(m, FIN_ACK, []);
    NothingSent(w, FinStage(c, s, state).(out := w.out));
    if FinStage(c, s, state) != c { WithinTrans(c, w, FinStage(c, s, state)); } else { NothingSent(c, c); }
  }

  lemma RoundWithin(c: Tcb)
    requires c.inQ != [] && c.finNum == 0
    ensures Within(c, OthersRound(c).tcb)
  {
    hide Write, Within, AckStage, PayloadStage, FinStage, InWindow;
    var s := c.inQ[0];
    var w := Write(c, ACK, []);
    WriteWithin(c, ACK, []);
    WriteFrame(c, ACK, []);
    NothingSent(w, Pop(w));
    WithinTrans(c, w, Pop(w));
    NothingSent(c, c);
    NothingSent(c, Pop(c));
    NothingSent(c, Notify(c, OnClose));
    AckStageWithin(c, s);
    var a := AckStage(c, s).tcb;
    PayloadWithin(a, s, c.state);
    var p := PayloadStage(a, s, c.state);
    FinWithin(p, s, c.state);
    var f := FinStage(p, s, c.state);
    NothingSent(f, Pop(f));
    WithinTrans(c, a, p);
    WithinTrans(c, p, f);
    WithinTrans(c, f, Pop(f));
  }

  lemma {:induction false} BatchWithin(c: Tcb, n: nat)
    requires Sound(c) && c.handler.RunOthers? && n <= |c.inQ|
    ensures Within(c, Others(c, n))
    decreases n
  {
    hide OthersRound, Within;
    NothingSent(c, c);
    if n > 0 && !c.fault {
      RoundWithin(c);
      RoundIsSound(c);
      var r := OthersRound(c);
      if r.exit != Return {
        BatchWithin(r.tcb, n - 1);
        WithinTrans(c, r.tcb, Others(r.tcb, n - 1));
      }
    }
  }

  lemma ListenWithin(c: Tcb)
    requires c.inQ != []
    ensures var r := ListenStep(c); r.Present? ==> Within(c, r.tcb)
  {
    hide Write, Within;
    var s := c.inQ[0];
    var m := c.(sendNext := s.ackNum, recvNext := 0);
    WriteAfter(c, m, RST, []);
    WriteFrame(m, RST, []);
    NothingSent(Write(m, RST, []), Pop(Write(m, RST, [])));
    WithinTrans(c, Write(m, RST, []), Pop(Write(m, RST, [])));
    var x := c.(recvInitial := s.seqNum, recvNext := U32(s.seqNum + 1), state := SynReceived,
                handler := RunOthers, sendNext := c.sendInitial);
    WriteAfter(c, x, SYN_ACK, []);
    WriteFrame(x, SYN_ACK, []);
    var a := AcceptSyn(c, s);
    NothingSent(Write(x, SYN_ACK, []), Pop(a));
    WithinTrans(c, Write(x, SYN_ACK, []), Pop(a));
  }

  lemma AnswerWithin(c: Tcb, s: Segment)
    ensures Within(c, AnswerSyn(c, s))
  {
    hide Write, Within;
    var e := c.(state := Established, handler := RunOthers);
    var m := e.(recvNext := U32(e.recvNext + |s.payload|), recvWindow := U16(e.recvWindow - |s.payload|));
    WriteAfter(c, e, ACK, []);
    WriteFrame(e, ACK, []);
    WriteAfter(c, m, ACK, []);
    WriteFrame(m, ACK, []);
    var w := if s.payload != [] then Write(m, ACK, []) else Write(e, ACK, []);
    WriteAfter(c, c.(state := SynReceived, handler := RunOthers), SYN_ACK, []);
    if c.sendUna > c.sendInitial {
      NothingSent(w, AnswerSyn(c, s));
      WithinTrans(c, w, AnswerSyn(c, s));
    }
  }

  lemma SynSentWithin(c: Tcb)
    requires c.inQ != []
    ensures var r := SynSentStep(c); r.Present? ==> Within(c, r.tcb)
  {
    hide Write, Within, AnswerSyn;
    var s := c.inQ[0];
    WriteWithin(c, RST, []);
    NothingSent(c, c);
    NothingSent(c, Pop(c));
    var c1 := c.(recvInitial := s.seqNum, recvNext := U32(s.seqNum + 1),
                 sendUna := if s.flags.ack then s.ackNum else c.sendUna);
    NothingSent(c, c1);
    AnswerWithin(c1, s);
    AnswerSynFrame(c1, s);
    var a := AnswerSyn(c1, s);
    WithinTrans(c, c1, a);
    var n := a.(sendWindow := s.window, lastUpdateSeq := s.seqNum, lastUpdateAck := s.ackNum);
    assert a.inQ[0] == s;
    NothingSent(a, n);
    WithinTrans(c, a, n);
    NothingSent(n, Pop(n));
    WithinTrans(c, n, Pop(n));
  }

  // ---------------------------------------------------------------- events and runs

  /** What may be in force during an event: what was before it, and the window of the segment that arrives. A block that
      is created stores the window of its SYN unconverted, so that it is read as it was sent. */
  ghost predicate Announced(slot: Slot, e: Event, w: u16)
  {
    || (slot.Present? && InForce(slot.tcb, w))
    || (e.Arrive? && (w == Swap16(e.s.window) || (slot.Absent? && w == e.s.window)))
  }

  lemma ArrivalIsAnnounced(c: Tcb, s: Segment, d: Tcb, w: u16)
    requires d == c.(inQ := Buffered(c.inQ, s), recvNext := d.recvNext) && InForce(d, w)
    ensures InForceWith(c, s, w)
  {
    if i :| 0 <= i < |d.inQ| && w == Swap16(d.inQ[i].window) {
      InsertSplits(c.inQ, s);
      var p := Place(c.inQ, s.seqNum);
      if d.inQ == c.inQ {
      } else if i < p {
        assert d.inQ[i] == c.inQ[i];
      } else if i > p {
        assert d.inQ[i] == c.inQ[i - 1];
      }
    }
  }

  /** The windows that may be in force while `c` reads `s`. */
  ghost predicate InForceWith(c: Tcb, s: Segment, w: u16) { InForce(c, w) || w == Swap16(s.window) }

  ghost predicate FitsRead(c: Tcb, s: Segment, x: Segment) { exists w: u16 :: InForceWith(c, s, w) && |x.payload| <= w }

  lemma ReadWithin(c: Tcb, s: Segment, patched: bool)
    requires Sound(c) && !c.fault
    ensures var r := Receive(c, s, patched);
      r.Present? ==>
        && (forall x | x in r.tcb.out.sent ::
              x in c.out.sent || FitsRead(c, s, x))
        && (forall w: u16 | InForce(r.tcb, w) :: InForceWith(c, s, w))
  {
    hide InForce, ListenStep, SynSentStep, Others, Buffered;
    var d := c.(inQ := Buffered(c.inQ, s), recvNext := if c.state.SynSent? then s.seqNum else c.recvNext);
    forall w: u16 | InForce(d, w) ensures InForceWith(c, s, w) { ArrivalIsAnnounced(c, s, d, w); }
    if !AddFaults(c.inQ, s.seqNum) || patched {
      var n := Ready(d.inQ, d.recvNext);
      NothingSent(d, d);
      if n > 0 {
        QueueBound(c.inQ, s);
        match d.handler {
          case RunListen => ListenWithin(d);
          case RunSynSent => SynSentWithin(d);
          case RunOthers => BatchWithin(d, n);
        }
      }
      var r := Receive(c, s, patched);
      if r.Present? {
        assert Within(d, r.tcb);
        forall x | x in r.tcb.out.sent && x !in c.out.sent
          ensures FitsRead(c, s, x)
        {
          assert FitsOneOf(d, x);
          var w: u16 :| InForce(d, w) && |x.payload| <= w;
          assert InForceWith(c, s, w);
        }
      }
    } else {
      NothingSent(c, c.(fault := true));
    }
  }

  lemma QueueBound(q: seq<Segment>, s: Segment)
    requires |q| <= BLOCKS
    ensures |Buffered(q, s)| <= BLOCKS
  {
  }

  ghost predicate FitsAnnounced(slot: Slot, e: Event, x: Segment)
  {
    exists w: u16 :: Announced(slot, e, w) && |x.payload| <= w
  }

  lemma ReadIsAnnounced(slot: Slot, e: Event, c: Tcb, x: Segment)
    requires e.Arrive? && FitsRead(c, e.s, x) && forall w: u16 | InForce(c, w) :: Announced(slot, e, w)
    ensures FitsAnnounced(slot, e, x)
  {
    hide InForce;
    var w: u16 :| InForceWith(c, e.s, w) && |x.payload| <= w;
    assert Announced(slot, e, w);
  }

  /** In one event: what is handed down fits a window in force during it, and no other window comes into force. */
  lemma EventWithin(slot: Slot, e: Event, patched: bool)
    requires SlotSound(slot)
    ensures var r := Happen(slot, e, patched);
      r.Present? ==>
        && (forall x | x in r.tcb.out.sent :: (slot.Present? && x in slot.tcb.out.sent) || FitsAnnounced(slot, e, x))
        && (forall w: u16 | InForce(r.tcb, w) :: Announced(slot, e, w))
  {
    hide Receive, Write, InForce, FitsOneOf, FitsRead, FitsAnnounced;
    match e {
      case Arrive(s, cfg) =>
        if (slot.Present? && !slot.tcb.fault) || (slot.Absent? && s.flags.syn) {
          var c := if slot.Present? then slot.tcb else Create(cfg, s, Listen);
          ReadWithin(c, s, patched);
          CreatedWithin(cfg, s);
          var r := Receive(c, s, patched);
          if r.Present? {
            forall x | x in r.tcb.out.sent && x !in c.out.sent ensures FitsAnnounced(slot, e, x) {
              ReadIsAnnounced(slot, e, c, x);
            }
          }
        }
      case Submit(p) =>
        if slot.Present? {
          WriteWithin(slot.tcb, PSH_ACK, p);
          NothingSent(slot.tcb, slot.tcb);
          SubmitWithin(slot, e, p);
        }
      case LinkTo(up) =>
        if slot.Present? { NothingSent(slot.tcb, slot.tcb.(out := slot.tcb.out.(linkUp := up))); }
    }
  }

  lemma CreatedWithin(cfg: Config, s: Segment)
    ensures forall w: u16 | InForce(Create(cfg, s, Listen), w) :: w == s.window
  {
    hide Swap16;
    SwapTwice(s.window);
  }

  lemma SubmitWithin(slot: Slot, e: Event, p: Payload)
    requires slot.Present? && Within(slot.tcb, Send(slot.tcb, p))
    ensures forall x | x in Send(slot.tcb, p).out.sent :: x in slot.tcb.out.sent || FitsAnnounced(slot, e, x)
  {
    hide Send, InForce;
    forall x | x in Send(slot.tcb, p).out.sent && x !in slot.tcb.out.sent ensures FitsAnnounced(slot, e, x) {
      assert FitsOneOf(slot.tcb, x);
      var w: u16 :| InForce(slot.tcb, w) && |x.payload| <= w;
      assert Announced(slot, e, w);
    }
  }

  /** The segment was handed down in one of the events, and fitted a window in force then. */
  ghost predicate FittedIn(slot: Slot, es: seq<Event>, x: Segment, patched: bool)
    decreases |es|
  {
    es != [] && (FitsAnnounced(slot, es[0], x) || FittedIn(Happen(slot, es[0], patched), es[1..], x, patched))
  }

  /** Over any run, from before there is a block: whatever it has handed down was no longer than a window in force in
      the event it went down in. */
  lemma {:induction false} RunFitsWindow(slot: Slot, es: seq<Event>, patched: bool)
    requires SlotSound(slot)
    ensures var r := HappenAll(slot, es, patched);
      r.Present? ==>
        forall x | x in r.tcb.out.sent :: (slot.Present? && x in slot.tcb.out.sent) || FittedIn(slot, es, x, patched)
    decreases |es|
  {
    hide Happen, FitsAnnounced, InForce;
    if es != [] {
      EventWithin(slot, es[0], patched);
      HappenIsSound(slot, es[0], patched);
      RunFitsWindow(Happen(slot, es[0], patched), es[1..], patched);
    }
  }

  /** `bound` is at least every window that is in force at the start or is announced, either way its bytes are read. */
  ghost predicate Bounds(slot: Slot, es: seq<Event>, bound: nat)
  {
    && (slot.Present? ==> forall w: u16 | InForce(slot.tcb, w) :: w <= bound)
    && (forall e | e in es && e.Arrive? :: e.s.window <= bound && Swap16(e.s.window) <= bound)
  }

  /** So a run hands nothing down that is longer than every window the other side has announced. */
  lemma {:induction false} RunFitsBound(slot: Slot, es: seq<Event>, patched: bool, bound: nat)
    requires SlotSound(slot) && Bounds(slot, es, bound)
    ensures var r := HappenAll(slot, es, patched);
      r.Present? ==>
        forall x | x in r.tcb.out.sent :: (slot.Present? && x in slot.tcb.out.sent) || |x.payload| <= bound
    decreases |es|
  {
    hide Happen, InForce;
    if es != [] {
      EventWithin(slot, es[0], patched);
      HappenIsSound(slot, es[0], patched);
      forall w: u16 | Announced(slot, es[0], w) ensures w <= bound { assert es[0] in es; }
      RunFitsBound(Happen(slot, es[0], patched), es[1..], patched, bound);
    }
  }
}
