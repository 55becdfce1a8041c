/**
 * The receive buffer as written, without a branch for a segment in front of its head: it never puts
 * anything back in order. Whatever is left in it after a read stays at the front for good.
 */
module Jam {
  import opened Wire
  import opened BlockQueue
  import opened Engine
  import opened StateMachine

  /** The head is not ready, or a round on it returns without removing it. */
  ghost predicate Jammed(c: Tcb)
  {
    && c.inQ != [] && c.handler.RunOthers?
    && (Ready(c.inQ, c.recvNext) == 0 || OthersRound(c).exit == Return)
  }

  ghost predicate EmptyOrJammed(c: Tcb) { c.fault || (c.handler.RunOthers? && (c.inQ == [] || Jammed(c))) }

  /** What makes a round return depends on the head alone. */
  lemma ReturnDepends(c: Tcb, d: Tcb)
    requires c.inQ != [] && d.inQ != [] && c.inQ[0] == d.inQ[0] && d == c.(inQ := d.inQ)
    ensures OthersRound(c).exit == Return <==> OthersRound(d).exit == Return
    ensures OthersRound(d).exit == Return ==> OthersRound(d).tcb == d.(upcalls := OthersRound(d).tcb.upcalls)
  {
    hide Write;
    AckStageFrame(c, c.inQ[0]);
    AckStageFrame(d, d.inQ[0]);
  }

  /** A read in a jam changes nothing that matters: not what is delivered, nor what is wanted, nor the state. */
  ghost predicate Stuck(c: Tcb, r: Tcb)
    requires c.inQ != []
  {
    r.fault || (Jammed(r) && r.inQ[0] == c.inQ[0]
                && r.delivered == c.delivered && r.recvNext == c.recvNext && r.recvWindow == c.recvWindow && r.state == c.state)
  }

  lemma JamReceives(c: Tcb, s: Segment)
    requires Jammed(c) && Sound(c)
    ensures var r := Receive(c, s, false); r.Present? && Stuck(c, r.tcb)
  {
    hide OthersRound, Insert;
    if !AddFaults(c.inQ, s.seqNum) {
      KeepHead(c.inQ, s);
      var d := c.(inQ := Buffered(c.inQ, s));
      ReturnDepends(c, d);
      var n := Ready(d.inQ, d.recvNext);
      if n > 0 && OthersRound(d).exit == Return {
        var u := OthersRound(d).tcb;
        assert Others(d, n) == if d.fault then d else u;
        UpcallsDoNotMatter(d, u);
      }
    }
  }

  lemma KeepHead(q: seq<Segment>, s: Segment)
    requires q != [] && !AddFaults(q, s.seqNum)
    ensures Buffered(q, s) != [] && Buffered(q, s)[0] == q[0]
  {
  }

  lemma UpcallsDoNotMatter(c: Tcb, r: Tcb)
    requires c.inQ != [] && r == c.(upcalls := r.upcalls)
    ensures OthersRound(r).exit == OthersRound(c).exit
  {
    hide Write;
    AckStageFrame(c, c.inQ[0]);
    AckStageFrame(r, r.inQ[0]);
  }

  /** Sending touches nothing a jam depends on. */
  lemma SendingDoesNotMatter(c: Tcb, r: Tcb)
    requires c.inQ != [] && r == c.(sendNext := r.sendNext, out := r.out, fault := r.fault)
    ensures OthersRound(r).exit == Return <==> OthersRound(c).exit == Return
  {
    hide Write;
    AckStageFrame(c, c.inQ[0]);
    AckStageFrame(r, r.inQ[0]);
  }

  lemma JamHappens(c: Tcb, e: Event)
    requires Jammed(c) && Sound(c)
    ensures var r := Happen(Present(c), e, false); r.Present? && Stuck(c, r.tcb)
  {
    hide OthersRound, Write, Receive;
    match e {
      case Arrive(s, cfg) => if !c.fault { JamReceives(c, s); }
      case Submit(p) =>
        WriteFrame(c, PSH_ACK, p);
        SendingDoesNotMatter(c, Send(c, p));
      case LinkTo(up) =>
        SendingDoesNotMatter(c, c.(out := c.out.(linkUp := up)));
    }
  }

  /** A jam is for ever: no run of arrivals and writes delivers another byte. */
  lemma {:induction false} JamIsForEver(c: Tcb, es: seq<Event>)
    requires Jammed(c) && Sound(c)
    ensures var r := HappenAll(Present(c), es, false); r.Present? && Stuck(c, r.tcb)
    decreases |es|
  {
    hide OthersRound, Happen;
    if es != [] {
      JamHappens(c, es[0]);
      HappenIsSound(Present(c), es[0], false);
      var n := Happen(Present(c), es[0], false).tcb;
      if n.fault {
        FaultIsForEver(n, es[1..]);
      } else {
        JamIsForEver(n, es[1..]);
      }
    }
  }

  lemma {:induction false} FaultIsForEver(c: Tcb, es: seq<Event>)
    requires c.fault
    ensures var r := HappenAll(Present(c), es, false); r.Present? && r.tcb.fault
    decreases |es|
  {
    hide Receive, Write;
    if es != [] {
      FaultIsForEver(Happen(Present(c), es[0], false).tcb, es[1..]);
    }
  }

  /** The segment is next, and a round on it does not return. */
  predicate Takes(c: Tcb, s: Segment)
  {
    && Continues(s.seqNum, c.recvNext)
    && !(InWindow(c, s) && (s.flags.rst || (s.flags.syn && c.state.SynReceived? && !c.active)))
  }

  lemma ReturnsExactly(c: Tcb)
    requires c.inQ != []
    ensures var s := c.inQ[0];
      OthersRound(c).exit == Return <==>
      InWindow(c, s) && (s.flags.rst || (s.flags.syn && c.state.SynReceived? && !c.active))
  {
    hide Write, InWindow;
    AckStageFrame(c, c.inQ[0]);
  }

  /** A read of an empty queue consumes what arrives exactly when it is taken, and jams on it otherwise. */
  lemma ReadEmptiesExactly(c: Tcb, s: Segment)
    requires Sound(c) && c.handler.RunOthers? && c.inQ == [] && !c.fault
    ensures var r := Receive(c, s, false);
      && r.Present? && r.tcb.handler.RunOthers?
      && (if Takes(c, s) then r.tcb.inQ == [] else r.tcb.inQ == [s] && Jammed(r.tcb))
  {
    hide OthersRound, InWindow;
    var d := c.(inQ := [s]);
    assert Buffered([], s) == [s];
    assert Ready([s], c.recvNext) == if Continues(s.seqNum, c.recvNext) then 1 else 0;
    SameWindow(c, d, s);
    ReturnsExactly(d);
    if Ready([s], c.recvNext) == 1 {
      RoundIsSound(d);
      var u := OthersRound(d);
      if u.exit == Return {
        ReturnDepends(d, d);
        UpcallsDoNotMatter(d, u.tcb);
      } else {
        assert Others(d, 1) == Others(u.tcb, 0) == u.tcb;
      }
    }
  }

  lemma HappenEmptiesOrJams(c: Tcb, e: Event)
    requires Sound(c) && EmptyOrJammed(c)
    ensures var r := Happen(Present(c), e, false); r.Present? && EmptyOrJammed(r.tcb)
  {
    hide OthersRound, Receive, Write;
    if Jammed(c) {
      JamHappens(c, e);
    } else {
      match e {
        case Arrive(s, cfg) => if !c.fault { ReadEmptiesExactly(c, s); }
        case Submit(p) => WriteFrame(c, PSH_ACK, p);
        case LinkTo(up) =>
      }
    }
  }

  /** A synchronized block whose queue is empty or jammed stays so over any run. */
  lemma {:induction false} StaysEmptyOrJammed(c: Tcb, es: seq<Event>)
    requires Sound(c) && EmptyOrJammed(c)
    ensures var r := HappenAll(Present(c), es, false); r.Present? && EmptyOrJammed(r.tcb)
    decreases |es|
  {
    hide OthersRound, Happen;
    if es != [] {
      HappenEmptiesOrJams(c, es[0]);
      HappenIsSound(Present(c), es[0], false);
      StaysEmptyOrJammed(Happen(Present(c), es[0], false).tcb, es[1..]);
    }
  }

  /** Every segment of the run is taken when it arrives. */
  ghost predicate TakesAll(slot: Slot, es: seq<Event>)
    decreases |es|
  {
    es == [] ||
    (&& (slot.Present? && es[0].Arrive? ==> Takes(slot.tcb, es[0].s))
     && TakesAll(Happen(slot, es[0], false), es[1..]))
  }

  /** Over any run from an empty queue, the queue is empty in the end exactly when every segment was taken when it
      arrived: one that is out of its place, or that a round returns on, is never made up for. */
  lemma {:induction false} QueueEmptiesExactly(c: Tcb, es: seq<Event>)
    requires Sound(c) && c.handler.RunOthers? && c.inQ == []
    ensures var r := HappenAll(Present(c), es, false);
      r.Present? && (r.tcb.fault || (r.tcb.inQ == [] <==> TakesAll(Present(c), es)))
    decreases |es|
  {
    hide OthersRound, Happen, Takes;
    if c.fault {
      FaultIsForEver(c, es);
    } else if es != [] {
      HappenIsSound(Present(c), es[0], false);
      EmptyHappens(c, es[0]);
      var n := Happen(Present(c), es[0], false).tcb;
      if es[0].Arrive? && !Takes(c, es[0].s) {
        JamIsForEver(n, es[1..]);
      } else {
        QueueEmptiesExactly(n, es[1..]);
      }
    }
  }

  lemma EmptyHappens(c: Tcb, e: Event)
    requires Sound(c) && c.handler.RunOthers? && c.inQ == [] && !c.fault
    ensures var r := Happen(Present(c), e, false);
      && r.Present? && r.tcb.handler.RunOthers?
      && (if e.Arrive? && !Takes(c, e.s) then Jammed(r.tcb) else r.tcb.inQ == [])
  {
    hide OthersRound, Receive, Write, Takes, Jammed;
    match e {
      case Arrive(s, cfg) => ReadEmptiesExactly(c, s);
      case Submit(p) => WriteFrame(c, PSH_ACK, p);
      case LinkTo(up) =>
    }
  }
}
