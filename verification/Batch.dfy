/** What a batch of ready segments delivers: a gapless prefix, cut where the window ends. */
module Batch {
  import opened Wire
  import opened BlockQueue
  import opened Engine
  import opened SendQueue

  function Total(q: seq<Segment>): nat
  {
    if q == [] then 0 else |q[0].payload| + Total(q[1..])
  }

  function Payloads(q: seq<Segment>): seq<u8>
  {
    if q == [] then [] else q[0].payload + Payloads(q[1..])
  }

  lemma Single(s: Segment)
    ensures Total([s]) == |s.payload| && Payloads([s]) == s.payload
  {
    assert [s][1..] == [] && s.payload + [] == s.payload;
  }

  /** The longest prefix of `q` whose payloads fit `window` together. */
  function Fitting(q: seq<Segment>, window: nat): (k: nat)
    ensures k <= |q|
  {
    if q != [] && |q[0].payload| <= window then 1 + Fitting(q[1..], window - |q[0].payload|) else 0
  }

  lemma {:induction false} FittingIsLongest(q: seq<Segment>, window: nat, k: nat)
    requires k <= |q|
    ensures Total(q[..k]) <= window <==> k <= Fitting(q, window)
  {
    if k > 0 {
      assert q[..k][0] == q[0] && q[..k][1..] == q[1..][..k - 1];
      if |q[0].payload| <= window {
        FittingIsLongest(q[1..], window - |q[0].payload|, k - 1);
      }
    }
  }

  /** The segments chain exactly from `start`, acknowledge nothing unsent, and none is a SYN, RST or FIN. */
  predicate Clean(q: seq<Segment>, start: int, sendNext: u32)
  {
    q == [] ||
    (&& q[0].seqNum == start && start + |q[0].payload| < TWO32
     && q[0].flags.ack && !q[0].flags.syn && !q[0].flags.rst && !q[0].flags.fin
     && q[0].ackNum <= sendNext
     && Clean(q[1..], start + |q[0].payload|, sendNext))
  }

  /** An established block that can write. */
  ghost predicate Steady(c: Tcb)
  {
    c.state.Established? && !c.fault && Ordered(c.out, c.sendNext)
  }

  /** `r` has taken the payloads of `taken` after `c`, with `rest` left in the queue. */
  ghost predicate Took(c: Tcb, r: Tcb, taken: seq<Segment>, rest: seq<Segment>)
  {
    && Steady(r) && r.inQ == rest && r.sendNext == c.sendNext
    && r.delivered == c.delivered + Payloads(taken)
    && r.recvNext == c.recvNext + Total(taken)
    && r.recvWindow == c.recvWindow - Total(taken)
  }

  /** The segment at the front is taken by a round as one that is next. */
  ghost predicate NextIsClean(c: Tcb)
  {
    && c.inQ != [] && c.inQ[0].seqNum == c.recvNext && c.recvNext + |c.inQ[0].payload| < TWO32
    && c.inQ[0].flags.ack && !c.inQ[0].flags.syn && !c.inQ[0].flags.rst && !c.inQ[0].flags.fin
    && c.inQ[0].ackNum <= c.sendNext
  }

  lemma WindowLetsIn(c: Tcb, s: Segment)
    requires s.seqNum == c.recvNext && c.recvNext + |s.payload| < TWO32
    ensures InWindow(c, s) <==> |s.payload| <= c.recvWindow && (c.recvWindow == 0 || c.recvNext + c.recvWindow < TWO32)
  {
  }

  lemma AckRound(c: Tcb)
    requires Steady(c)
    ensures Took(c, Write(c, ACK, []), [], c.inQ)
  {
    WriteAppends(c, ACK, []);
    assert c.delivered + [] == c.delivered;
  }

  lemma PayloadRound(c: Tcb, s: Segment)
    requires Steady(c) && c.recvNext + |s.payload| < TWO32 && |s.payload| <= c.recvWindow
    ensures Took(c, ReceivePayload(c, s.payload), [s], c.inQ)
  {
    Single(s);
    WriteAppends(c.(recvNext := c.recvNext + |s.payload|, recvWindow := c.recvWindow - |s.payload|), ACK, []);
  }

  /** One round on a clean segment that is next: it is taken whole, or not at all. */
  lemma NextRound(c: Tcb)
    requires Steady(c) && NextIsClean(c)
    ensures var r, s := OthersRound(c), c.inQ[0];
      r.exit == Bottom && Took(c, r.tcb, if InWindow(c, s) then [s] else [], c.inQ[1..])
  {
    hide Write, InWindow, ReceivePayload;
    var s := c.inQ[0];
    AckRound(c);
    if InWindow(c, s) {
      WindowLetsIn(c, s);
      var e := TakeAck(c, s);
      PayloadRound(e, s);
      Single(s);
      assert e.delivered + [] == e.delivered;
    }
  }

  /** A position past the window: nothing that starts there is accepted. */
  predicate Past(c: Tcb, t: int)
  {
    t > c.recvNext && (c.recvWindow == 0 || c.recvNext + c.recvWindow <= t)
  }

  /** The front segment lies where the window has already refused. */
  predicate Behind(c: Tcb, t: int)
  {
    Past(c, t) || (c.recvWindow != 0 && c.recvNext + c.recvWindow >= TWO32 && t >= c.recvNext)
  }

  lemma RejectedRound(c: Tcb, t: int)
    requires Steady(c) && c.inQ != [] && Behind(c, t)
    requires var s := c.inQ[0]; s.seqNum == t && t + |s.payload| < TWO32 && !s.flags.rst
    ensures var r := OthersRound(c);
      r.exit == Bottom && Took(c, r.tcb, [], c.inQ[1..]) && Behind(r.tcb, t + |c.inQ[0].payload|)
  {
    hide Write;
    assert !InWindow(c, c.inQ[0]);
    AckRound(c);
    assert OthersRound(c).tcb == Pop(Write(c, ACK, []));
  }

  /** Once the window has rejected data, the rest of the run is rejected too. */
  lemma {:induction false} RestIsRejected(c: Tcb, n: nat, t: int)
    requires Steady(c) && n <= |c.inQ| && Clean(c.inQ[..n], t, c.sendNext)
    requires Behind(c, t)
    ensures Took(c, Others(c, n), [], c.inQ[n..])
    decreases n
  {
    hide OthersRound, InWindow;
    assert c.delivered + [] == c.delivered;
    if n > 0 {
      var s := c.inQ[0];
      assert c.inQ[..n][0] == s && c.inQ[..n][1..] == c.inQ[1..][..n - 1];
      RejectedRound(c, t);
      var r := OthersRound(c).tcb;
      RestIsRejected(r, n - 1, t + |s.payload|);
      assert c.inQ[1..][n - 1..] == c.inQ[n..];
    }
  }

  /** How many segments of a clean run the window lets in. */
  function LetIn(c: Tcb, n: nat): (k: nat)
    requires n <= |c.inQ|
    ensures k <= n
  {
    if c.recvWindow != 0 && c.recvNext + c.recvWindow >= TWO32 then 0 else Fitting(c.inQ[..n], c.recvWindow)
  }

  /** A clean run delivers exactly the payloads of its longest prefix that fits the window. */
  lemma {:induction false} BatchDelivers(c: Tcb, n: nat)
    requires Steady(c) && n <= |c.inQ| && Clean(c.inQ[..n], c.recvNext, c.sendNext)
    ensures Took(c, Others(c, n), c.inQ[..LetIn(c, n)], c.inQ[n..])
    decreases n
  {
    hide OthersRound, InWindow, Fitting;
    if n > 0 {
      var s := c.inQ[0];
      assert c.inQ[..n][0] == s && c.inQ[..n][1..] == c.inQ[1..][..n - 1];
      NextRound(c);
      Single(s);
      WindowLetsIn(c, s);
      var r := OthersRound(c).tcb;
      assert c.inQ[1..][n - 1..] == c.inQ[n..];
      LetInOne(c, r, n);
      if InWindow(c, s) {
        BatchDelivers(r, n - 1);
        var k := LetIn(r, n - 1);
        assert c.inQ[..k + 1][0] == s && c.inQ[..k + 1][1..] == r.inQ[..k];
        TookTwice(c, r, Others(r, n - 1), s, r.inQ[..k], c.inQ[..k + 1], c.inQ[n..]);
      } else {
        RestIsRejected(r, n - 1, c.recvNext + |s.payload|);
      }
    } else {
      assert c.delivered + [] == c.delivered;
    }
  }

  lemma LetInOne(c: Tcb, r: Tcb, n: nat)
    requires 0 < n <= |c.inQ| && c.recvNext + |c.inQ[0].payload| < TWO32 && r.inQ == c.inQ[1..]
    ensures var s := c.inQ[0];
      var open := c.recvWindow == 0 || c.recvNext + c.recvWindow < TWO32;
      if open && |s.payload| <= c.recvWindow then
        r.recvNext == c.recvNext + |s.payload| && r.recvWindow == c.recvWindow - |s.payload| ==>
          LetIn(c, n) == 1 + LetIn(r, n - 1)
      else LetIn(c, n) == 0
  {
    assert c.inQ[..n][0] == c.inQ[0] && c.inQ[..n][1..] == c.inQ[1..][..n - 1];
  }

  lemma TookTwice(c: Tcb, m: Tcb, r: Tcb, s: Segment, q: seq<Segment>, both: seq<Segment>, rest: seq<Segment>)
    requires Took(c, m, [s], m.inQ) && Took(m, r, q, rest) && both != [] && both[0] == s && both[1..] == q
    ensures Took(c, r, both, rest)
  {
    Single(s);
    assert c.delivered + s.payload + Payloads(q) == c.delivered + (s.payload + Payloads(q));
  }

  /** A ready run taken to its end leaves nothing ready. */
  lemma {:induction false} ReadyRunEnds(q: seq<Segment>, start: u32)
    requires Clean(q[..Ready(q, start)], start, 0xFFFF_FFFF)
    ensures start + Total(q[..Ready(q, start)]) < TWO32
    ensures Ready(q[Ready(q, start)..], start + Total(q[..Ready(q, start)])) == 0
    decreases |q|
  {
    var n := Ready(q, start);
    if n > 0 {
      assert q[..n][0] == q[0] && q[..n][1..] == q[1..][..n - 1];
      ReadyRunEnds(q[1..], After(q[0]));
      assert q[1..][n - 1..] == q[n..];
    }
  }

  lemma {:induction false} CleanForAny(q: seq<Segment>, start: int, sendNext: u32)
    requires Clean(q, start, sendNext)
    ensures Clean(q, start, 0xFFFF_FFFF)
  {
    if q != [] {
      CleanForAny(q[1..], start + |q[0].payload|, sendNext);
    }
  }

  /** Every ready segment of a clean run is looked at; if the window refuses none, nothing is left ready. */
  lemma NoHoleDelivery(c: Tcb)
    requires Steady(c)
    requires var n := Ready(c.inQ, c.recvNext); n > 0 && Clean(c.inQ[..n], c.recvNext, c.sendNext)
    ensures var n := Ready(c.inQ, c.recvNext);
      var r, k := Others(c, n), LetIn(c, n);
      && r.delivered == c.delivered + Payloads(c.inQ[..k])
      && r.recvNext == c.recvNext + Total(c.inQ[..k]) && r.recvWindow == c.recvWindow - Total(c.inQ[..k])
      && r.inQ == c.inQ[n..]
      && (k == n ==> Ready(r.inQ, r.recvNext) == 0)
  {
    hide Others;
    var n := Ready(c.inQ, c.recvNext);
    BatchDelivers(c, n);
    CleanForAny(c.inQ[..n], c.recvNext, c.sendNext);
    ReadyRunEnds(c.inQ, c.recvNext);
  }

  /** For a single segment in an empty queue: it is handed up if it is numbered `recvNext` or `recvNext + 1`, and what
      is wanted next then follows it, so that it was handed up in its place, exactly in the first case. */
  lemma SingleSegment(c: Tcb, s: Segment, patched: bool)
    requires Steady(c) && c.handler.RunOthers? && c.inQ == [] && s.payload != []
    requires InWindow(c, s) && s.seqNum + |s.payload| < TWO32
    requires s.flags.ack && !s.flags.syn && !s.flags.rst && !s.flags.fin && s.ackNum <= c.sendNext
    ensures var r := Receive(c, s, patched);
      && r.Present?
      && (r.tcb.delivered == c.delivered + s.payload <==> s.seqNum == c.recvNext || s.seqNum == c.recvNext + 1)
      && (r.tcb.delivered == c.delivered <==> s.seqNum > c.recvNext + 1)
      && (r.tcb.recvNext == s.seqNum + |s.payload| <==> s.seqNum == c.recvNext)
  {
    hide OthersRound, InWindow, Receive;
    var d := c.(inQ := [s]);
    WithHead(c, s);
    AcceptedInFull(d, s);
    ReceiveIntoEmpty(c, s, patched);
    assert |c.delivered + s.payload| > |c.delivered|;
  }

  lemma WithHead(c: Tcb, s: Segment)
    ensures InWindow(c.(inQ := [s]), s) == InWindow(c, s)
  {
  }

  lemma ReceiveIntoEmpty(c: Tcb, s: Segment, patched: bool)
    requires c.handler.RunOthers? && !c.state.SynSent? && c.inQ == [] && !c.fault
    requires OthersRound(c.(inQ := [s])).exit == Bottom
    ensures var d := c.(inQ := [s]);
      Receive(c, s, patched) == Present(if Continues(s.seqNum, c.recvNext) then OthersRound(d).tcb else d)
  {
    hide OthersRound, ListenStep, SynSentStep, Close;
    var d := c.(inQ := [s]);
    assert Insert([], s) == [s];
    assert Ready([s], c.recvNext) == (if Continues(s.seqNum, c.recvNext) then 1 + Ready([], After(s)) else 0);
    assert Others(d, 1) == Others(OthersRound(d).tcb, 0);
  }

  lemma AcceptedInFull(d: Tcb, s: Segment)
    requires Steady(d) && d.inQ == [s] && InWindow(d, s) && s.payload != []
    requires s.flags.ack && !s.flags.syn && !s.flags.rst && !s.flags.fin && s.ackNum <= d.sendNext
    ensures OthersRound(d).exit == Bottom && OthersRound(d).tcb.delivered == d.delivered + s.payload
    ensures OthersRound(d).tcb.recvNext == U32(d.recvNext + |s.payload|)
    ensures d.recvNext <= s.seqNum
  {
    hide Write;
    var e := TakeAck(d, s);
    WriteAppends(e.(recvNext := U32(e.recvNext + |s.payload|), recvWindow := U16(e.recvWindow - |s.payload|)), ACK, []);
  }
}
