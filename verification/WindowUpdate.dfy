/** Which segment the send window comes from, over any run after a connection is established. */
module WindowUpdate {
  import opened Wire
  import opened BlockQueue
  import opened Engine
  import opened SendQueue
  import opened StateMachine
  import opened Handshake
  import opened Resets

  // ---------------------------------------------------------------- what passes the acknowledgement test

  /** The segment gets as far as the window update: acceptable, or repeating what is already acknowledged. */
  predicate PassesAck(c: Tcb, s: Segment)
  {
    InWindow(c, s) && !s.flags.rst && !s.flags.syn && s.flags.ack && c.sendUna <= s.ackNum <= c.sendNext
  }

  function Pass(c: Tcb): seq<Segment>
    requires c.inQ != []
  {
    if PassesAck(c, c.inQ[0]) then [c.inQ[0]] else []
  }

  /** The segments of a batch that get as far, in order. */
  function PassedBatch(c: Tcb, n: nat): seq<Segment>
    decreases n
  {
    if n == 0 || c.fault || c.inQ == [] then []
    else
      var r := OthersRound(c);
      Pass(c) + if r.exit == Return then [] else PassedBatch(r.tcb, n - 1)
  }

  function PassedRead(c: Tcb, s: Segment, patched: bool): seq<Segment>
  {
    if c.fault || (AddFaults(c.inQ, s.seqNum) && !patched) || !c.handler.RunOthers? then []
    else
      var q := Buffered(c.inQ, s);
      PassedBatch(c.(inQ := q), Ready(q, c.recvNext))
  }

  function PassedEvent(slot: Slot, e: Event, patched: bool): seq<Segment>
  {
    if slot.Present? && e.Arrive? then PassedRead(slot.tcb, e.s, patched) else []
  }

  /** The segments of a run that get as far. */
  function Passed(slot: Slot, es: seq<Event>, patched: bool): seq<Segment>
    decreases |es|
  {
    if es == [] then [] else PassedEvent(slot, es[0], patched) + Passed(Happen(slot, es[0], patched), es[1..], patched)
  }

  // ---------------------------------------------------------------- one round

  /** The fields the window update works on. */
  predicate SameAck(c: Tcb, r: Tcb)
  {
    r.sendUna == c.sendUna && r.sendWindow == c.sendWindow
    && r.lastUpdateSeq == c.lastUpdateSeq && r.lastUpdateAck == c.lastUpdateAck
  }

  lemma AckStageSame(c: Tcb, s: Segment)
    requires Opened(c)
    ensures var a := AckStage(c, s);
      && a.tcb.state == c.state
      && (if s.ackNum > c.sendNext then a.exit == Continue && SameAck(c, a.tcb)
          else a.exit == Bottom && a.tcb == TakeAck(c, s))
  {
    hide Write, TakeAck;
    WriteFrame(c, ACK, []);
    TakeAckFrame(c, s);
  }

  lemma LaterStagesSame(c: Tcb, s: Segment, state: State)
    requires Opened(c) && state == c.state
    ensures var r := FinStage(PayloadStage(c, s, state), s, state); Opened(r) && SameAck(c, r)
  {
    hide Write;
    WriteFrame(c.(recvNext := U32(c.recvNext + |s.payload|), recvWindow := U16(c.recvWindow - |s.payload|)), ACK, []);
    var p := PayloadStage(c, s, state);
    WriteFrame(p.(recvNext := U32(s.seqNum + 1)), FIN_ACK, []);
  }

  /** What a round does to those fields. */
  lemma RoundFrame(c: Tcb)
    requires Opened(c) && c.inQ != []
    ensures var r, s := OthersRound(c).tcb, c.inQ[0];
      Opened(r) && SameAck(if PassesAck(c, s) then TakeAck(c, s) else c, r)
  {
    hide Write, InWindow, TakeAck, AckStage, PayloadStage, FinStage;
    var s := c.inQ[0];
    WriteFrame(c, ACK, []);
    AckStageSame(c, s);
    TakeAckFrame(c, s);
    LaterStagesSame(TakeAck(c, s), s, c.state);
  }

  /** Sequence number first, then acknowledgement: the order of section 3.10.7.4 of RFC 9293. */
  predicate NotNewer(x: Segment, y: Segment)
  {
    x.seqNum < y.seqNum || (x.seqNum == y.seqNum && x.ackNum <= y.ackNum)
  }

  /** The window is that of a segment in `passed` that none of them is newer than. */
  ghost predicate Fresh(c: Tcb, passed: seq<Segment>)
  {
    exists g :: g in passed && g.window == c.sendWindow && g.seqNum == c.lastUpdateSeq
                && forall x | x in passed :: NotNewer(x, g)
  }

  /** How far the acknowledgements that have passed may lie from the ones the block remembers. */
  ghost predicate Bounded(c: Tcb, passed: seq<Segment>)
  {
    && c.lastUpdateAck <= c.sendUna + 1
    && forall x | x in passed :: c.lastUpdateAck - 1 <= x.ackNum && (x.ackNum <= c.sendUna || x.ackNum <= c.lastUpdateAck)
  }

  lemma TakeAckFresh(c: Tcb, s: Segment, passed: seq<Segment>)
    requires FreshSoFar(c, passed) && c.sendUna <= s.ackNum <= c.sendNext
    ensures FreshSoFar(TakeAck(c, s), passed + [s])
  {
    var g :| g in passed && g.window == c.sendWindow && g.seqNum == c.lastUpdateSeq && forall x | x in passed :: NotNewer(x, g);
    var h := if NotOlder(c, s) then s else g;
    assert h in passed + [s];
  }

  /** The two together: what every run from an established block keeps. */
  ghost predicate FreshSoFar(c: Tcb, passed: seq<Segment>) { Fresh(c, passed) && Bounded(c, passed) }

  lemma RoundIsFresh(c: Tcb, passed: seq<Segment>)
    requires Opened(c) && c.inQ != [] && FreshSoFar(c, passed)
    ensures Opened(OthersRound(c).tcb) && FreshSoFar(OthersRound(c).tcb, passed + Pass(c))
  {
    hide Fresh, Bounded, OthersRound, InWindow, TakeAck;
    var s := c.inQ[0];
    RoundFrame(c);
    if PassesAck(c, s) {
      TakeAckFresh(c, s, passed);
      Depends(TakeAck(c, s), OthersRound(c).tcb, passed + [s]);
    } else {
      assert passed + [] == passed;
      Depends(c, OthersRound(c).tcb, passed);
    }
  }

  lemma {:induction false} BatchIsFresh(c: Tcb, n: nat, passed: seq<Segment>)
    requires Opened(c) && Sound(c) && n <= |c.inQ| && FreshSoFar(c, passed)
    ensures Opened(Others(c, n)) && FreshSoFar(Others(c, n), passed + PassedBatch(c, n))
    decreases n
  {
    hide OthersRound, FreshSoFar, Pass;
    assert passed + [] == passed;
    if n > 0 && !c.fault {
      RoundIsFresh(c, passed);
      RoundIsSound(c);
      var r := OthersRound(c);
      if r.exit == Return {
        assert Pass(c) + [] == Pass(c);
      } else {
        BatchIsFresh(r.tcb, n - 1, passed + Pass(c));
        assert passed + Pass(c) + PassedBatch(r.tcb, n - 1) == passed + (Pass(c) + PassedBatch(r.tcb, n - 1));
      }
    }
  }

  lemma EventIsFresh(c: Tcb, e: Event, patched: bool, passed: seq<Segment>)
    requires Opened(c) && Sound(c) && FreshSoFar(c, passed)
    ensures var r := Happen(Present(c), e, patched);
      r.Present? && Opened(r.tcb) && Sound(r.tcb) && FreshSoFar(r.tcb, passed + PassedEvent(Present(c), e, patched))
  {
    hide OthersRound, Write, Insert, FreshSoFar, Pass;
    HappenIsSound(Present(c), e, patched);
    assert passed + [] == passed;
    match e {
      case Arrive(s, cfg) =>
        var c1 := c.(inQ := Buffered(c.inQ, s));
        Depends(c, c1, passed);
        Depends(c, c.(fault := true), passed);
        BatchIsFresh(c1, Ready(c1.inQ, c1.recvNext), passed);
      case Submit(p) =>
        WriteFrame(c, PSH_ACK, p);
        Depends(c, Write(c, PSH_ACK, p), passed);
      case LinkTo(up) =>
        Depends(c, c.(out := c.out.(linkUp := up)), passed);
    }
  }

  /** Over any run the window stays that of a newest segment that has passed. */
  lemma {:induction false} RunIsFresh(c: Tcb, es: seq<Event>, patched: bool, passed: seq<Segment>)
    requires Opened(c) && Sound(c) && FreshSoFar(c, passed)
    ensures var r := HappenAll(Present(c), es, patched);
      r.Present? && Opened(r.tcb) && FreshSoFar(r.tcb, passed + Passed(Present(c), es, patched))
    decreases |es|
  {
    hide FreshSoFar, Happen, PassedEvent;
    if es == [] {
      assert passed + [] == passed;
    } else {
      EventIsFresh(c, es[0], patched, passed);
      var n, now := Happen(Present(c), es[0], patched), PassedEvent(Present(c), es[0], patched);
      RunIsFresh(n.tcb, es[1..], patched, passed + now);
      assert passed + now + Passed(n, es[1..], patched) == passed + (now + Passed(n, es[1..], patched));
    }
  }

  lemma Depends(c: Tcb, r: Tcb, passed: seq<Segment>)
    requires SameAck(c, r)
    ensures FreshSoFar(c, passed) ==> FreshSoFar(r, passed)
  {
  }

  // ---------------------------------------------------------------- what is acknowledged

  /** `send_unacknowledged` is the largest of where it stood and what has passed. */
  ghost predicate Newest(una: u32, c: Tcb, passed: seq<Segment>)
  {
    && una <= c.sendUna && (forall x | x in passed :: x.ackNum <= c.sendUna)
    && (c.sendUna == una || exists x :: x in passed && x.ackNum == c.sendUna)
  }

  lemma TakeAckNewest(una: u32, c: Tcb, s: Segment, passed: seq<Segment>)
    requires Newest(una, c, passed) && c.sendUna <= s.ackNum <= c.sendNext
    ensures Newest(una, TakeAck(c, s), passed + [s])
  {
    assert s in passed + [s];
    if c.sendUna != una {
      var x :| x in passed && x.ackNum == c.sendUna;
      assert x in passed + [s];
    }
  }

  lemma SameNewest(una: u32, c: Tcb, r: Tcb, passed: seq<Segment>)
    requires r.sendUna == c.sendUna
    ensures Newest(una, c, passed) ==> Newest(una, r, passed)
  {
  }

  lemma RoundNewest(una: u32, c: Tcb, passed: seq<Segment>)
    requires Opened(c) && c.inQ != [] && Newest(una, c, passed)
    ensures Opened(OthersRound(c).tcb) && Newest(una, OthersRound(c).tcb, passed + Pass(c))
  {
    hide OthersRound, Newest, TakeAck, InWindow;
    var s := c.inQ[0];
    RoundFrame(c);
    if PassesAck(c, s) {
      TakeAckNewest(una, c, s, passed);
      SameNewest(una, TakeAck(c, s), OthersRound(c).tcb, passed + [s]);
    } else {
      assert passed + [] == passed;
      SameNewest(una, c, OthersRound(c).tcb, passed);
    }
  }

  lemma {:induction false} BatchNewest(una: u32, c: Tcb, n: nat, passed: seq<Segment>)
    requires Opened(c) && Sound(c) && n <= |c.inQ| && Newest(una, c, passed)
    ensures Opened(Others(c, n)) && Newest(una, Others(c, n), passed + PassedBatch(c, n))
    decreases n
  {
    hide OthersRound, Newest, Pass;
    assert passed + [] == passed;
    if n > 0 && !c.fault {
      RoundNewest(una, c, passed);
      RoundIsSound(c);
      var r := OthersRound(c);
      if r.exit == Return {
        assert Pass(c) + [] == Pass(c);
      } else {
        BatchNewest(una, r.tcb, n - 1, passed + Pass(c));
        assert passed + Pass(c) + PassedBatch(r.tcb, n - 1) == passed + (Pass(c) + PassedBatch(r.tcb, n - 1));
      }
    }
  }

  lemma EventNewest(una: u32, c: Tcb, e: Event, patched: bool, passed: seq<Segment>)
    requires Opened(c) && Sound(c) && Newest(una, c, passed)
    ensures var r := Happen(Present(c), e, patched);
      r.Present? && Opened(r.tcb) && Sound(r.tcb) && Newest(una, r.tcb, passed + PassedEvent(Present(c), e, patched))
  {
    hide OthersRound, Write, Insert, Newest, Pass;
    HappenIsSound(Present(c), e, patched);
    assert passed + [] == passed;
    match e {
      case Arrive(s, cfg) =>
        var c1 := c.(inQ := Buffered(c.inQ, s));
        SameNewest(una, c, c1, passed);
        SameNewest(una, c, c.(fault := true), passed);
        BatchNewest(una, c1, Ready(c1.inQ, c1.recvNext), passed);
      case Submit(p) =>
        WriteFrame(c, PSH_ACK, p);
        SameNewest(una, c, Write(c, PSH_ACK, p), passed);
      case LinkTo(up) =>
        SameNewest(una, c, c.(out := c.out.(linkUp := up)), passed);
    }
  }

  /** Over any run of a connected block, `send_unacknowledged` is the largest acknowledgement that has passed. */
  lemma {:induction false} UnacknowledgedIsNewest(una: u32, c: Tcb, es: seq<Event>, patched: bool, passed: seq<Segment>)
    requires Opened(c) && Sound(c) && Newest(una, c, passed)
    ensures var r := HappenAll(Present(c), es, patched);
      r.Present? && Opened(r.tcb) && Newest(una, r.tcb, passed + Passed(Present(c), es, patched))
    decreases |es|
  {
    hide Newest, Happen, PassedEvent;
    if es == [] {
      assert passed + [] == passed;
    } else {
      EventNewest(una, c, es[0], patched, passed);
      var n, now := Happen(Present(c), es[0], patched), PassedEvent(Present(c), es[0], patched);
      UnacknowledgedIsNewest(una, n.tcb, es[1..], patched, passed + now);
      assert passed + now + Passed(n, es[1..], patched) == passed + (now + Passed(n, es[1..], patched));
    }
  }

  // ---------------------------------------------------------------- from the first segment on

  /** Nothing is queued, everything sent is in order, and neither the window nor one more number wraps. */
  ghost predicate Idle(c: Tcb)
  {
    && Opened(c) && Sound(c) && !c.fault && c.inQ == [] && Ordered(c.out, c.sendNext)
    && c.recvNext + c.recvWindow < TWO32
  }

  /** The window, and what is remembered with it, come from `s0`. */
  ghost predicate EnteredBy(c: Tcb, s0: Segment)
  {
    && Opened(c) && Sound(c)
    && c.sendWindow == s0.window && c.lastUpdateSeq == s0.seqNum && c.lastUpdateAck == s0.ackNum && c.sendUna <= s0.ackNum
  }

  /** `c` has just been established by `s0`, which was in its window. */
  ghost predicate EstablishedBy(c: Tcb, s0: Segment)
  {
    && EnteredBy(c, s0) && Idle(c) && c.state.Established? && s0.ackNum <= c.sendNext
    && (s0.seqNum > c.recvNext ==> s0.seqNum < c.recvNext + c.recvWindow)
    && c.sendNext + 1 < TWO32 && c.recvNext + c.recvWindow + 1 < TWO32
  }

  /** After any run the window is the freshest one seen. */
  ghost predicate AlwaysFresh(c: Tcb, passed: seq<Segment>, patched: bool)
  {
    forall es: seq<Event> :: FreshAfter(c, es, passed, patched)
  }

  ghost predicate FreshAfter(c: Tcb, es: seq<Event>, passed: seq<Segment>, patched: bool)
  {
    var r := HappenAll(Present(c), es, patched);
    r.Present? && Fresh(r.tcb, passed + Passed(Present(c), es, patched))
  }

  /** The stored acknowledgement number is never refreshed. All the same the window is the freshest one after every
      run, exactly when the acknowledgement that established the connection covered at most one number. */
  lemma FreshExactly(c: Tcb, s0: Segment, patched: bool)
    requires EstablishedBy(c, s0)
    ensures AlwaysFresh(c, [s0], patched) <==> s0.ackNum <= c.sendUna + 1
  {
    hide AlwaysFresh;
    if s0.ackNum <= c.sendUna + 1 {
      FreshFromTheStart(c, s0, patched);
    } else {
      StaleWindow(c, s0, patched);
    }
  }

  lemma FreshFromTheStart(c: Tcb, s0: Segment, patched: bool)
    requires EnteredBy(c, s0) && s0.ackNum <= c.sendUna + 1
    ensures AlwaysFresh(c, [s0], patched)
  {
    hide HappenAll, Passed;
    FreshAtFirst(c, s0);
    forall es: seq<Event> ensures FreshAfter(c, es, [s0], patched) {
      RunIsFresh(c, es, patched, [s0]);
    }
  }

  /** What is always fresh stays so one event later. */
  lemma OneEventLater(c: Tcb, e: Event, r: Tcb, passed: seq<Segment>, patched: bool)
    requires AlwaysFresh(c, passed, patched) && Happen(Present(c), e, patched) == Present(r)
    ensures var now := passed + PassedEvent(Present(c), e, patched); AlwaysFresh(r, now, patched) && Fresh(r, now)
  {
    hide Happen, PassedEvent, Fresh;
    var now := passed + PassedEvent(Present(c), e, patched);
    forall es: seq<Event> ensures FreshAfter(r, es, now, patched) {
      assert ([e] + es)[0] == e && ([e] + es)[1..] == es;
      assert FreshAfter(c, [e] + es, passed, patched);
      assert now + Passed(Present(r), es, patched) == passed + Passed(Present(c), [e] + es, patched);
    }
    assert FreshAfter(r, [], now, patched);
    assert now + [] == now;
  }

  /** An idle block reads the segment it expects in one round. */
  lemma ArrivesAlone(c: Tcb, s: Segment, patched: bool)
    requires Idle(c) && s.seqNum == c.recvNext
    ensures var d := c.(inQ := [s]);
      && Happen(Present(c), Arrive(s, NO_CONFIG), patched) == Present(OthersRound(d).tcb)
      && PassedEvent(Present(c), Arrive(s, NO_CONFIG), patched) == Pass(d)
  {
    hide OthersRound, Pass;
    var d := c.(inQ := [s]);
    assert Insert([], s) == [s];
    assert Ready([s], c.recvNext) == 1 + Ready([], After(s));
    assert Others(d, 1) == OthersRound(d).tcb;
    assert PassedBatch(d, 1) == Pass(d) + [];
  }

  /** The segments of the failing run: they acknowledge, and are numbered `receive_next`. */
  predicate Expected(c: Tcb, s: Segment)
  {
    && s.seqNum == c.recvNext && s.flags.ack && !s.flags.rst && !s.flags.syn && c.sendUna <= s.ackNum <= c.sendNext
    && |s.payload| <= c.recvWindow
  }

  lemma ExpectedPasses(c: Tcb, s: Segment)
    requires Idle(c) && Expected(c, s)
    ensures PassesAck(c.(inQ := [s]), s)
    ensures var d := c.(inQ := [s]);
      OthersRound(d).tcb == Pop(FinStage(PayloadStage(TakeAck(d, s), s, c.state), s, c.state))
  {
    hide Write, TakeAck, PayloadStage, FinStage;
  }

  lemma TakeAckCommutes(c: Tcb, s: Segment)
    ensures SameAck(TakeAck(c.(inQ := [s]), s), TakeAck(c, s))
  {
  }

  lemma PayloadEffect(e: Tcb, s: Segment)
    requires Ordered(e.out, e.sendNext) && s.payload != [] && |s.payload| <= e.recvWindow && e.recvNext + |s.payload| < TWO32
    ensures var p := PayloadStage(e, s, Established);
      && p == e.(recvNext := e.recvNext + |s.payload|, recvWindow := e.recvWindow - |s.payload|,
                 out := p.out, delivered := p.delivered)
      && Ordered(p.out, e.sendNext)
  {
    hide Write;
    WriteAppends(e.(recvNext := e.recvNext + |s.payload|, recvWindow := e.recvWindow - |s.payload|), ACK, []);
  }

  /** A bare acknowledgement updates the window and nothing else. */
  lemma AckArrives(c: Tcb, s: Segment, patched: bool) returns (r: Tcb)
    requires Idle(c) && Expected(c, s) && s.payload == [] && !s.flags.fin
    ensures Happen(Present(c), Arrive(s, NO_CONFIG), patched) == Present(r)
    ensures PassedEvent(Present(c), Arrive(s, NO_CONFIG), patched) == [s]
    ensures Idle(r) && r == TakeAck(c, s)
  {
    hide OthersRound, InWindow;
    ArrivesAlone(c, s, patched);
    ExpectedPasses(c, s);
    r := OthersRound(c.(inQ := [s])).tcb;
  }

  /** Data moves `receive_next` on. */
  lemma DataArrives(c: Tcb, s: Segment, patched: bool) returns (r: Tcb)
    requires Idle(c) && Expected(c, s) && c.state.Established? && s.payload != [] && !s.flags.fin
    ensures Happen(Present(c), Arrive(s, NO_CONFIG), patched) == Present(r)
    ensures PassedEvent(Present(c), Arrive(s, NO_CONFIG), patched) == [s]
    ensures Idle(r) && r.state.Established? && SameAck(TakeAck(c, s), r) && r.sendNext == c.sendNext
    ensures r.recvNext == c.recvNext + |s.payload| && r.recvWindow == c.recvWindow - |s.payload|
  {
    hide OthersRound, InWindow, TakeAck, PayloadStage;
    ArrivesAlone(c, s, patched);
    ExpectedPasses(c, s);
    var e := TakeAck(c.(inQ := [s]), s);
    TakeAckFrame(c.(inQ := [s]), s);
    PayloadEffect(e, s);
    TakeAckCommutes(c, s);
    r := OthersRound(c.(inQ := [s])).tcb;
  }

  /** So does a FIN. */
  lemma FinArrives(c: Tcb, s: Segment, patched: bool) returns (r: Tcb)
    requires Idle(c) && Expected(c, s) && c.state.Established? && s.payload == [] && s.flags.fin
    requires c.sendNext + 1 < TWO32 && c.recvNext + c.recvWindow + 1 < TWO32
    ensures Happen(Present(c), Arrive(s, NO_CONFIG), patched) == Present(r)
    ensures PassedEvent(Present(c), Arrive(s, NO_CONFIG), patched) == [s]
    ensures Idle(r) && SameAck(TakeAck(c, s), r) && r.sendNext == c.sendNext + 1
    ensures r.recvNext == c.recvNext + 1 && r.recvWindow == c.recvWindow
  {
    hide OthersRound, InWindow, TakeAck, FinStage;
    ArrivesAlone(c, s, patched);
    ExpectedPasses(c, s);
    var e := TakeAck(c.(inQ := [s]), s);
    TakeAckFrame(c.(inQ := [s]), s);
    FinAnswered(e, s);
    TakeAckCommutes(c, s);
    r := OthersRound(c.(inQ := [s])).tcb;
  }

  /** What is numbered before the establishing segment and acknowledges nothing new leaves the window alone. */
  lemma OlderChangesNothing(c: Tcb, s: Segment)
    requires s.seqNum < c.lastUpdateSeq && s.ackNum == c.sendUna
    ensures TakeAck(c, s) == c
  {
  }

  /** Data up to the number of the establishing segment, if it ran ahead. */
  lemma CatchUp(c: Tcb, s0: Segment, patched: bool) returns (r: Tcb, passed: seq<Segment>)
    requires EstablishedBy(c, s0) && AlwaysFresh(c, [s0], patched)
    ensures EstablishedBy(r, s0) && r.recvNext >= s0.seqNum && r.sendUna == c.sendUna
    ensures AlwaysFresh(r, passed, patched) && forall x | x in passed :: x.seqNum <= s0.seqNum
  {
    hide Happen, PassedEvent, AlwaysFresh, TakeAck;
    r, passed := c, [s0];
    if s0.seqNum > c.recvNext {
      var s := Segment(c.recvNext, c.sendUna, ACK, 0, seq(s0.seqNum - c.recvNext, _ => 0));
      r := DataArrives(c, s, patched);
      OlderChangesNothing(c, s);
      OneEventLater(c, Arrive(s, NO_CONFIG), r, passed, patched);
      passed := passed + [s];
    }
  }

  /** With two numbers acknowledged at once, a later segment can be taken for an older one: the other side finishes,
      then acknowledges twice under the same number. */
  lemma StaleWindow(c: Tcb, s0: Segment, patched: bool)
    requires EstablishedBy(c, s0) && s0.ackNum > c.sendUna + 1
    ensures !AlwaysFresh(c, [s0], patched)
  {
    hide Happen, PassedEvent, AlwaysFresh;
    if AlwaysFresh(c, [s0], patched) {
      var c1, passed := CatchUp(c, s0, patched);
      var fin := Segment(c1.recvNext, c1.sendUna, FIN_ACK, 0, []);
      var c2 := FinArrives(c1, fin, patched);
      OneEventLater(c1, Arrive(fin, NO_CONFIG), c2, passed, patched);
      var x := Segment(c2.recvNext, c1.sendUna, ACK, 0, []);
      var c3 := AckArrives(c2, x, patched);
      OneEventLater(c2, Arrive(x, NO_CONFIG), c3, passed + [fin], patched);
      var y := Segment(c2.recvNext, c1.sendUna + 1, ACK, 1, []);
      var c4 := AckArrives(c3, y, patched);
      assert c4.sendWindow == 0 && c4.lastUpdateSeq == x.seqNum && y in passed + [fin] + [x] + [y];
      OneEventLater(c3, Arrive(y, NO_CONFIG), c4, passed + [fin] + [x], patched);
      assert false;
    }
  }

  // ---------------------------------------------------------------- how connections are established

  /** A block in SYN-RECEIVED, with nothing queued, that a segment establishes: fresh for ever exactly when that
      segment acknowledged at most one number, as it does unless something was written, or SYNs crossed, before. */
  lemma HandshakeCompletes(c: Tcb, s: Segment, patched: bool)
    requires c.state.SynReceived? && Sound(c) && !c.fault && c.inQ == [] && Ordered(c.out, c.sendNext)
    requires c.sendNext + 2 < TWO32 && c.recvNext + c.recvWindow + 3 < TWO32
    ensures var r := Receive(c, s, patched);
      && r.Present?
      && (r.tcb.state.Established? ==>
            && EstablishedBy(r.tcb, s) && r.tcb.sendUna == c.sendUna
            && (AlwaysFresh(r.tcb, [s], patched) <==> s.ackNum <= c.sendUna + 1))
  {
    hide OthersRound, AlwaysFresh, InWindow;
    var d := c.(inQ := [s]);
    assert Insert([], s) == [s];
    assert Ready([s], c.recvNext) == (if Continues(s.seqNum, c.recvNext) then 1 + Ready([], After(s)) else 0);
    assert Others(d, 1) == OthersRound(d).tcb;
    if Continues(s.seqNum, c.recvNext) {
      if Completes(d, s) {
        CompletedBy(d, s);
        FreshExactly(OthersRound(d).tcb, s, patched);
      } else {
        OnlyThenOpened(d);
      }
    }
  }

  /** Whatever else is queued when a segment establishes the block: if it acknowledged at most one number, the rest of
      the batch and every run after it keep the window fresh. */
  lemma OpenedInBatchIsFresh(c: Tcb, n: nat, patched: bool)
    requires c.state.SynReceived? && Sound(c) && n < |c.inQ| && OthersRound(c).tcb.state.Established?
    requires c.inQ[0].ackNum <= c.sendUna + 1
    ensures var m, h := OthersRound(c).tcb, c.inQ[0];
      && EnteredBy(m, h) && m.sendUna == c.sendUna && m.inQ == c.inQ[1..]
      && AlwaysFresh(Others(m, n), [h] + PassedBatch(m, n), patched)
  {
    hide OthersRound, HappenAll, Passed, FreshSoFar, PassedBatch, FinStage;
    var m, h := OthersRound(c).tcb, c.inQ[0];
    if !Completes(c, h) { OnlyThenOpened(c); }
    OpeningRound(c);
    FinKeepsAck(c.(sendWindow := h.window, lastUpdateSeq := h.seqNum, lastUpdateAck := h.ackNum, state := Established), h);
    RoundIsSound(c);
    FreshAtFirst(m, h);
    BatchIsFresh(m, n, [h]);
    BatchIsSound(m, n);
    var r, passed := Others(m, n), [h] + PassedBatch(m, n);
    forall es: seq<Event> ensures FreshAfter(r, es, passed, patched) {
      RunIsFresh(r, es, patched, passed);
      assert FreshSoFar(HappenAll(Present(r), es, patched).tcb, passed + Passed(Present(r), es, patched));
      SoItIsFresh(HappenAll(Present(r), es, patched).tcb, passed + Passed(Present(r), es, patched));
    }
  }

  lemma SoItIsFresh(c: Tcb, passed: seq<Segment>)
    requires FreshSoFar(c, passed)
    ensures Fresh(c, passed)
  {
  }

  lemma FreshAtFirst(c: Tcb, s0: Segment)
    requires EnteredBy(c, s0) && s0.ackNum <= c.sendUna + 1
    ensures FreshSoFar(c, [s0])
  {
    assert s0 in [s0];
  }

  lemma FinKeepsAck(e: Tcb, s: Segment)
    ensures var r := FinStage(e, s, SynReceived); r.state == e.state && SameAck(e, r) && r.inQ == e.inQ
  {
    hide Write;
    WriteFrame(e.(recvNext := U32(s.seqNum + 1)), FIN_ACK, []);
  }

  lemma CompletedBy(d: Tcb, s: Segment)
    requires d.inQ == [s] && Completes(d, s) && Continues(s.seqNum, d.recvNext)
    requires Sound(d) && !d.fault && Ordered(d.out, d.sendNext)
    requires d.sendNext + 2 < TWO32 && d.recvNext + d.recvWindow + 3 < TWO32
    ensures EstablishedBy(OthersRound(d).tcb, s) && OthersRound(d).tcb.sendUna == d.sendUna
  {
    hide OthersRound, FinStage;
    OpeningRound(d);
    var e := d.(sendWindow := s.window, lastUpdateSeq := s.seqNum, lastUpdateAck := s.ackNum, state := Established);
    if s.flags.fin { FinAfterOpening(e, s); } else { NoFin(e, s); }
  }

  /** The connecting side, whatever its numbers: the acknowledgement that opens it is taken at once, so its window is
      fresh for ever. */
  lemma ActiveOpenIsFresh(c: Tcb, s: Segment, patched: bool)
    requires Connects(c, s) && Sound(c)
    ensures var r := Receive(c, s, patched);
      && r.Present? && (r.tcb.state.Established? <==> s.flags.ack)
      && (s.flags.ack ==> EnteredBy(r.tcb, s) && r.tcb.sendUna == s.ackNum && AlwaysFresh(r.tcb, [s], patched))
  {
    hide Receive, AnswerSyn, AlwaysFresh;
    ConnectsIs(c, s, patched);
    var c2 := c.(recvInitial := s.seqNum, recvNext := U32(s.seqNum + 1), inQ := [s],
                 sendUna := if s.flags.ack then s.ackNum else c.sendUna);
    AnswerSynFrame(c2, s);
    AnswerKeepsUna(c2, s);
    if s.flags.ack { FreshFromTheStart(Receive(c, s, patched).tcb, s, patched); }
  }

  lemma AnswerKeepsUna(c: Tcb, s: Segment)
    ensures AnswerSyn(c, s).sendUna == c.sendUna
  {
    hide Write;
    var e := c.(state := Established, handler := RunOthers);
    WriteFrame(e, ACK, []);
    WriteFrame(e.(recvNext := U32(e.recvNext + |s.payload|), recvWindow := U16(e.recvWindow - |s.payload|)), ACK, []);
    WriteFrame(c.(state := SynReceived, handler := RunOthers), SYN_ACK, []);
  }
}
