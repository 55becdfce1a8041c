/** The send queue is a FIFO: nothing overtakes, and what stays behind does not fit. */
module SendQueue {
  import opened Wire
  import opened BlockQueue
  import opened Engine

  /** Everything accepted for sending, oldest first. */
  function Accepted(o: Output): seq<Segment> { o.sent + o.queue }

  /** No queued segment is numbered above the next one to be formed. */
  ghost predicate Ordered(o: Output, sendNext: u32)
  {
    && |o.queue| <= BLOCKS
    && forall i | 0 <= i < |o.queue| :: o.queue[i].seqNum <= sendNext
  }

  /** The drain loop releases a prefix of the queue, all of it fitting the window, and stops only when it has to. */
  lemma {:induction false} DrainReleases(o: Output, window: u16)
    ensures var r := Drain(o, window);
      && Accepted(r) == Accepted(o) && r.built == o.built && r.linkUp == o.linkUp
      && o.sent <= r.sent
      && (forall i | |o.sent| <= i < |r.sent| :: Fits(window, r.sent[i]) && LinkTakes(o.linkUp, r.sent[i]))
      && !CanRelease(r, window)
      && |r.queue| <= |o.queue| && r.queue == o.queue[|o.queue| - |r.queue|..]
    decreases |o.queue|
  {
    if CanRelease(o, window) {
      var n := o.(sent := o.sent + [o.queue[0]], queue := o.queue[1..]);
      DrainReleases(n, window);
      assert n.sent + n.queue == o.sent + o.queue;
    }
  }

  /** Queueing behind everything numbered no higher appends. */
  lemma QueuedBehind(o: Output, s: Segment)
    requires Ordered(o, s.seqNum)
    ensures var q := Buffered(o.queue, s);
      && q == o.queue + (if |o.queue| < BLOCKS then [s] else [])
      && |q| <= BLOCKS && forall i | 0 <= i < |q| :: q[i].seqNum <= s.seqNum
  {
    hide Insert;
    InsertAppends(o.queue, s);
  }

  /** What is left of an ordered queue is ordered. */
  lemma RestIsOrdered(q: seq<Segment>, r: Output, n: u32)
    requires |q| <= BLOCKS && forall i | 0 <= i < |q| :: q[i].seqNum <= n
    requires |r.queue| <= |q| && r.queue == q[|q| - |r.queue|..]
    ensures Ordered(r, n)
  {
  }

  lemma PushAppends(o: Output, s: Segment, window: u16)
    requires Ordered(o, s.seqNum)
    ensures var r := Push(o, s, window);
      && Accepted(r) == Accepted(o) + (if |o.queue| < BLOCKS then [s] else [])
      && r.built == o.built + [s] && r.linkUp == o.linkUp
      && Ordered(r, s.seqNum)
      && o.sent <= r.sent
      && (forall i | |o.sent| <= i < |r.sent| :: Fits(window, r.sent[i]) && LinkTakes(o.linkUp, r.sent[i]))
      && !CanRelease(r, window)
  {
    hide Drain, Buffered, Ordered, CanRelease, Fits, LinkTakes;
    QueuedBehind(o, s);
    var n := o.(built := o.built + [s], queue := Buffered(o.queue, s));
    DrainReleases(n, window);
    RestIsOrdered(n.queue, Push(o, s, window), s.seqNum);
    assert o.sent + n.queue == Accepted(o) + if |o.queue| < BLOCKS then [s] else [];
  }

  /** One tcp_write: numbered from send_next, appended in order, released from the front. */
  lemma WriteAppends(c: Tcb, flags: Flags, payload: Payload)
    requires Ordered(c.out, c.sendNext) && |payload| <= TCP_ROOM && c.sendNext + |payload| < TWO32
    ensures var r, s := Write(c, flags, payload), Form(c, flags, payload);
      && r == c.(sendNext := c.sendNext + |payload|, out := r.out)
      && Ordered(r.out, c.sendNext)
      && r.out.built == c.out.built + [s] && r.out.linkUp == c.out.linkUp
      && Accepted(r.out) == Accepted(c.out) + (if |c.out.queue| < BLOCKS then [s] else [])
      && c.out.sent <= r.out.sent
      && (forall i | |c.out.sent| <= i < |r.out.sent| ::
            Fits(EffectiveWindow(c), r.out.sent[i]) && LinkTakes(c.out.linkUp, r.out.sent[i]))
      && !CanRelease(r.out, EffectiveWindow(c))
  {
    PushAppends(c.out, Form(c, flags, payload), EffectiveWindow(c));
  }

  // ---------------------------------------------------------------- what fitting means

  /** Why the segment stays: it is longer than the window, or the layer below does not take it. */
  predicate HeldBack(o: Output, window: u16)
  {
    o.queue != [] ==>
      |o.queue[0].payload| > window || !o.linkUp || |o.queue[0].payload| > 0xFFFF - 40
  }

  /** Whatever the loop hands down is no longer than the window, and it does not stop before it has to. */
  lemma {:induction false} DrainFitsWindow(o: Output, window: u16)
    ensures var r := Drain(o, window);
      && o.sent <= r.sent && HeldBack(r, window)
      && (forall i | |o.sent| <= i < |r.sent| :: |r.sent[i].payload| <= window)
      && (r.sent != o.sent ==> o.linkUp) && (forall i | |o.sent| <= i < |r.sent| :: |r.sent[i].payload| <= 0xFFFF - 40)
    decreases |o.queue|
  {
    if CanRelease(o, window) {
      var n := o.(sent := o.sent + [o.queue[0]], queue := o.queue[1..]);
      DrainFitsWindow(n, window);
      assert Drain(o, window).sent[|o.sent|] == o.queue[0];
    }
  }

  /** The same for a write, whatever was queued: the window is the one stored, with its bytes exchanged. */
  lemma WriteFitsWindow(c: Tcb, flags: Flags, payload: Payload)
    ensures var r, w := Write(c, flags, payload), Swap16(c.sendWindow);
      && c.out.sent <= r.out.sent
      && (forall i | |c.out.sent| <= i < |r.out.sent| :: |r.out.sent[i].payload| <= w)
      && (r.out == c.out || HeldBack(r.out, w))
  {
    hide Drain, Insert, Swap16;
    var s := Form(c, flags, payload);
    DrainFitsWindow(c.out.(built := c.out.built + [s], queue := Buffered(c.out.queue, s)), EffectiveWindow(c));
  }

  /** tcp_write reports success exactly when the segment is not too long for its header, and everything at the front
      that fits the window has been handed down. */
  lemma WriteOkExactly(c: Tcb, flags: Flags, payload: Payload)
    requires !AddFaults(c.out.queue, c.sendNext)
    ensures var r := Write(c, flags, payload);
      WriteOk(payload, r) <==>
      |payload| <= 0xFFFF - 20 && (r.out.queue == [] || |r.out.queue[0].payload| > Swap16(c.sendWindow))
  {
    hide Drain, Insert, Swap16;
    var s := Form(c, flags, payload);
    DrainReleases(c.out.(built := c.out.built + [s], queue := Buffered(c.out.queue, s)), EffectiveWindow(c));
  }

  /** What the environment may do to the sending side between two segments. */
  datatype SendOp =
    | WriteOp(flags: Flags, payload: Payload, recvNext: u32, recvWindow: u16)
    | WindowOp(window: u16)
    | LinkOp(up: bool)

  function ApplySend(c: Tcb, op: SendOp): Tcb
  {
    match op
    case WriteOp(f, p, n, w) => Write(c.(recvNext := n, recvWindow := w), f, p)
    case WindowOp(w) => c.(sendWindow := w)
    case LinkOp(up) => c.(out := c.out.(linkUp := up))
  }

  /** The room and the numbers a run of operations needs: no 32-bit wrap, and a free block for each write. */
  predicate Roomy(c: Tcb, ops: seq<SendOp>)
    decreases |ops|
  {
    ops == [] ||
    (&& (ops[0].WriteOp? ==> |ops[0].payload| <= TCP_ROOM && c.sendNext + |ops[0].payload| < TWO32 && |c.out.queue| < BLOCKS)
     && Roomy(ApplySend(c, ops[0]), ops[1..]))
  }

  function ApplyAll(c: Tcb, ops: seq<SendOp>): Tcb
    decreases |ops|
  {
    if ops == [] then c else ApplyAll(ApplySend(c, ops[0]), ops[1..])
  }

  /** What has been handed down and what still waits make up all writes, in the order they were made. */
  lemma {:induction false} QueueIsFifo(c: Tcb, ops: seq<SendOp>)
    requires Ordered(c.out, c.sendNext) && !c.fault && Accepted(c.out) == c.out.built && Roomy(c, ops)
    ensures var r := ApplyAll(c, ops);
      && !r.fault && Ordered(r.out, r.sendNext)
      && Accepted(r.out) == r.out.built
      && c.out.built <= r.out.built && c.out.sent <= r.out.sent
      && c.sendNext <= r.sendNext
    decreases |ops|
  {
    if ops != [] {
      match ops[0] {
        case WriteOp(f, p, n, w) => WriteAppends(c.(recvNext := n, recvWindow := w), f, p);
        case _ =>
      }
      QueueIsFifo(ApplySend(c, ops[0]), ops[1..]);
    }
  }

  /** Without a free block the segment is lost, but its numbers are used up. */
  lemma FullQueueLosesTheSegment(c: Tcb, flags: Flags, payload: Payload)
    requires Ordered(c.out, c.sendNext) && |payload| <= TCP_ROOM && c.sendNext + |payload| < TWO32
    ensures var r := Write(c, flags, payload);
      && (Accepted(r.out) == Accepted(c.out) <==> |c.out.queue| == BLOCKS)
      && r.sendNext == c.sendNext + |payload|
  {
    WriteAppends(c, flags, payload);
    assert |Accepted(Write(c, flags, payload).out)| == |Accepted(c.out)| + if |c.out.queue| < BLOCKS then 1 else 0;
  }

  /** The window is stored in host order by tcp_others and converted again when read, so it is honoured
      exactly when its two bytes are equal; as stored at creation it is read correctly. */
  lemma WindowByteOrder(c: Tcb, s: Segment, cfg: Config, state: State)
    ensures EffectiveWindow(c.(sendWindow := s.window)) == s.window <==> s.window % 0x100 == s.window / 0x100
    ensures EffectiveWindow(Create(cfg, s, state)) == s.window
  {
    hide Swap16;
    SwapTwice(s.window);
  }

  lemma SwapTwice(x: u16)
    ensures Swap16(Swap16(x)) == x
    ensures Swap16(x) == x <==> x % 0x100 == x / 0x100
  {
    var high, low := x / 0x100, x % 0x100;
    assert Swap16(x) == low * 0x100 + high;
    assert Swap16(x) / 0x100 == low && Swap16(x) % 0x100 == high;
  }
}
