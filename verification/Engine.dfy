/**
 * One TCP connection as a value: what each C function does to the transmission control block,
 * to the segments handed to the layer below and to the bytes handed to the layer above.
 */
module Engine {
  import opened Wire
  import opened BlockQueue

  datatype State = Listen | SynSent | SynReceived | Established | FinWait1 | FinWait2
                 | CloseWait | Closing | Closed | LastAck | TimeWait

  /** The value of `state_function`. */
  datatype Handler = RunListen | RunSynSent | RunOthers | RunClose

  function HandlerFor(s: State): Handler
  {
    match s
    case Listen => RunListen
    case SynSent => RunSynSent
    case Closed => RunClose
    case _ => RunOthers
  }

  datatype Upcall = OnConnect | OnClose

  datatype Tcb = Tcb(
    sendInitial: u32, sendUna: u32, sendNext: u32, sendWindow: u16,
    lastUpdateSeq: u32, lastUpdateAck: u32,
    recvInitial: u32, recvNext: u32, recvWindow: u16,
    finNum: u32, state: State, handler: Handler, active: bool,
    inQ: seq<Segment>, out: Output,
    // a null pointer has been written through: the process is gone, the other fields mean nothing
    fault: bool,
    // the bytes handed to the layer above, and the calls to the socket's owner
    delivered: seq<u8>, upcalls: seq<Upcall>)

  /**
   * The output side: the send queue, whether the layer below takes packets at the moment,
   * every segment numbered by tcp_write, and those handed down.
   */
  datatype Output = Output(queue: seq<Segment>, linkUp: bool, built: seq<Segment>, sent: seq<Segment>)

  /** What the environment supplies when a block is created: a sequence number and a window. */
  datatype Config = Config(initial: u32, window: u16, active: bool)

  /** A TCP header, and below it an IPv4 header, have to fit the packet buffer with the payload. */
  const TCP_ROOM: int := 0xFFFF - 20
  const IP_ROOM: int := 0xFFFF - 40

  // ---------------------------------------------------------------- sending

  /** The window as the drain loop reads it: converted from network order once more. */
  function EffectiveWindow(c: Tcb): u16 { Swap16(c.sendWindow) }

  predicate Fits(window: u16, s: Segment) { window >= |s.payload| }

  predicate LinkTakes(linkUp: bool, s: Segment) { linkUp && |s.payload| <= IP_ROOM }

  predicate CanRelease(o: Output, window: u16)
  {
    o.queue != [] && Fits(window, o.queue[0]) && LinkTakes(o.linkUp, o.queue[0])
  }

  /** The loop at the end of tcp_write: hand down from the front while the head fits and is taken. */
  function Drain(o: Output, window: u16): Output
    decreases |o.queue|
  {
    if CanRelease(o, window) then Drain(o.(sent := o.sent + [o.queue[0]], queue := o.queue[1..]), window) else o
  }

  /** The segment tcp_write forms. */
  function Form(c: Tcb, flags: Flags, payload: Payload): Segment
  {
    Segment(c.sendNext, c.recvNext, flags.(psh := flags.psh || payload != []), c.recvWindow, payload)
  }

  /** Queue a segment, then drain. */
  function Push(o: Output, s: Segment, window: u16): Output
  {
    Drain(o.(built := o.built + [s], queue := Buffered(o.queue, s)), window)
  }

  function Write(c: Tcb, flags: Flags, payload: Payload): Tcb
  {
    var s := Form(c, flags, payload);
    if |payload| > TCP_ROOM then c
    else
      var c1 := c.(sendNext := U32(c.sendNext + |payload|));
      if AddFaults(c.out.queue, s.seqNum) then c1.(fault := true)
      else c1.(out := Push(c.out, s, EffectiveWindow(c)))
  }

  /** What tcp_write returns, `r` being the block it leaves behind. */
  predicate WriteOk(payload: Payload, r: Tcb)
  {
    |payload| <= TCP_ROOM && (r.out.queue == [] || !Fits(EffectiveWindow(r), r.out.queue[0]) || CanRelease(r.out, EffectiveWindow(r)))
  }

  // ---------------------------------------------------------------- creating

  function Create(cfg: Config, h: Segment, state: State): Tcb
  {
    Tcb(cfg.initial, 0, cfg.initial, Swap16(h.window), 0, 0, h.seqNum, h.seqNum, cfg.window,
        0, state, HandlerFor(state), cfg.active, [], Output([], true, [], []), false, [], [])
  }

  const STUB_HEADER := Segment(0, 0, NONE, 0, [])

  /** tcp_socket_connect */
  function Connect(cfg: Config, linkUp: bool): Tcb
  {
    var c0 := Create(cfg.(active := true), STUB_HEADER, SynSent);
    var c := Write(c0.(out := c0.out.(linkUp := linkUp)), SYN, []);
    if WriteOk([], c) then c.(sendNext := U32(c.sendNext + 1)) else c
  }

  // ---------------------------------------------------------------- receiving

  function Pop(c: Tcb): Tcb
  {
    if c.inQ == [] then c else c.(inQ := c.inQ[1..])
  }

  predicate InWindow(c: Tcb, s: Segment)
  {
    var edge := U32(c.recvNext + c.recvWindow);
    if s.payload != [] then
      var end := U32(s.seqNum + |s.payload| - 1);
      c.recvWindow != 0 && s.seqNum >= c.recvNext && s.seqNum < edge && end < edge
    else
      || (c.recvWindow != 0 && s.seqNum >= c.recvNext && s.seqNum < edge)
      || (c.recvWindow == 0 && c.recvNext == s.seqNum)
  }

  /** tcp_receive_payload */
  function ReceivePayload(c: Tcb, payload: Payload): Tcb
  {
    var r := Write(c.(recvNext := U32(c.recvNext + |payload|), recvWindow := U16(c.recvWindow - |payload|)), ACK, []);
    r.(delivered := r.delivered + payload)
  }

  function Notify(c: Tcb, u: Upcall): Tcb { c.(upcalls := c.upcalls + [u]) }

  /** A connection slot of a socket: no block, or a block. */
  datatype Slot = Absent | Present(tcb: Tcb)

  /** The connecting side has seen a SYN: established if its own SYN is acknowledged, else the SYNs crossed. */
  function AnswerSyn(c: Tcb, s: Segment): Tcb
  {
    if c.sendUna > c.sendInitial then
      var e := c.(state := Established, handler := RunOthers);
      Notify(if s.payload != [] then ReceivePayload(e, s.payload) else Write(e, ACK, []), OnConnect)
    else
      Write(c.(state := SynReceived, handler := RunOthers), SYN_ACK, [])
  }

  function SynSentStep(c: Tcb): Slot
    requires c.inQ != []
  {
    var s := c.inQ[0];
    if s.flags.ack && (s.ackNum <= c.sendInitial || s.ackNum > c.sendNext) then Present(Write(c, RST, []))
    else if s.flags.rst then (if s.flags.ack then Absent else Present(Pop(c)))
    else if s.flags.syn then
      var c1 := c.(recvInitial := s.seqNum, recvNext := U32(s.seqNum + 1),
                   sendUna := if s.flags.ack then s.ackNum else c.sendUna);
      var c2 := AnswerSyn(c1, s);
      Present(Pop(c2.(sendWindow := s.window, lastUpdateSeq := s.seqNum, lastUpdateAck := s.ackNum)))
    else Present(c)
  }

  function AcceptSyn(c: Tcb, s: Segment): Tcb
  {
    var c1 := c.(recvInitial := s.seqNum, recvNext := U32(s.seqNum + 1), state := SynReceived,
                 handler := RunOthers, sendNext := c.sendInitial);
    var c2 := Write(c1, SYN_ACK, []);
    c2.(sendUna := c2.sendInitial, sendNext := U32(c2.sendNext + 1))
  }

  function ListenStep(c: Tcb): Slot
    requires c.inQ != []
  {
    var s := c.inQ[0];
    if s.flags.rst then Absent
    else if s.flags.ack then
      Present(Pop(Write(c.(sendNext := s.ackNum, recvNext := 0), RST, [])))
    else Present(Pop(AcceptSyn(c, s)))
  }

  /** tcp_close: every queued segment but a reset is answered by a reset. */
  function CloseStep(c: Tcb): Tcb
    requires c.inQ != []
  {
    var s := c.inQ[0];
    if s.flags.rst then Pop(c)
    else if s.flags.ack then Pop(Write(c.(sendNext := s.ackNum), RST, []))
    else Pop(Write(c.(sendNext := 0, recvNext := U32(s.seqNum + |s.payload|)), RST, []))
  }

  /** How a round of the loop in tcp_others ends: at its bottom, by `continue`, or by `return`. */
  datatype Exit = Bottom | Continue | Return

  datatype Round = Round(tcb: Tcb, exit: Exit)

  predicate ChecksAck(s: State)
  {
    s.Established? || s.FinWait1? || s.FinWait2? || s.CloseWait? || s.Closing?
  }

  predicate AckOk(c: Tcb, ack: u32) { ack <= c.sendNext && ack > c.sendUna }

  predicate NotOlder(c: Tcb, s: Segment)
  {
    c.lastUpdateSeq < s.seqNum || (c.lastUpdateSeq == s.seqNum && c.lastUpdateAck <= s.ackNum)
  }

  /** An acceptable or repeated acknowledgement: window, then `send_unacknowledged`. */
  function TakeAck(c: Tcb, s: Segment): Tcb
  {
    var c1 := if (AckOk(c, s.ackNum) || s.ackNum == c.sendUna) && NotOlder(c, s)
              then c.(sendWindow := s.window, lastUpdateSeq := s.seqNum) else c;
    if AckOk(c, s.ackNum) then c1.(sendUna := s.ackNum) else c1
  }

  predicate FinAcked(c: Tcb, s: Segment) { c.finNum != 0 && s.ackNum >= c.finNum }

  function AckStage(c: Tcb, s: Segment): Round
  {
    if ChecksAck(c.state) then
      if s.ackNum > c.sendNext then Round(Pop(Write(c, ACK, [])), Continue)
      else
        var c1 := TakeAck(c, s);
        match c.state
        case FinWait1 => Round(if FinAcked(c1, s) then Pop(c1).(state := FinWait2) else c1, Bottom)
        case FinWait2 => Round(if c1.sendNext == c1.lastUpdateAck then Notify(c1, OnClose) else c1, Bottom)
        case Closing => Round(if FinAcked(c1, s) then Pop(c1).(state := TimeWait) else c1, Bottom)
        case _ => Round(c1, Bottom)
    else if c.state.SynReceived? then
      if !AckOk(c, s.ackNum) then Round(Write(c.(sendNext := s.ackNum), RST, []), Bottom)
      else Round(c.(sendWindow := s.window, lastUpdateSeq := s.seqNum, lastUpdateAck := s.ackNum, state := Established), Bottom)
    else Round(c, Bottom)
  }

  /** `state` is the one the round began with: the C code keeps it in a local variable. */
  function PayloadStage(c: Tcb, s: Segment, state: State): Tcb
  {
    if s.payload != [] && (state.Established? || state.FinWait1? || state.FinWait2?)
    then ReceivePayload(c, s.payload) else c
  }

  function AnswerFin(c: Tcb, s: Segment): Tcb
  {
    var c1 := Write(c.(recvNext := U32(s.seqNum + 1)), FIN_ACK, []);
    Notify(c1.(sendNext := U32(c1.sendNext + 1)), OnClose)
  }

  function FinStage(c: Tcb, s: Segment, state: State): Tcb
  {
    if !s.flags.fin || state.Closed? || state.Listen? || state.SynSent? then c
    else
      var c2 := AnswerFin(c, s);
      match state
      case Established => c2.(state := CloseWait)
      case FinWait1 => c2.(state := if FinAcked(c2, s) then TimeWait else Closing)
      case FinWait2 => c2.(state := TimeWait)
      case _ => c2
  }

  function OthersRound(c: Tcb): Round
    requires c.inQ != []
  {
    var s := c.inQ[0];
    if !InWindow(c, s) then
      if s.flags.rst then Round(Pop(c), Continue) else Round(Pop(Write(c, ACK, [])), Bottom)
    else if s.flags.rst then
      Round(if c.state.SynReceived? && c.active then Notify(c, OnClose) else c, Return)
    else if s.flags.syn then
      if c.state.SynReceived? && !c.active then Round(c, Return) else Round(Pop(Write(c, ACK, [])), Continue)
    else if !s.flags.ack then Round(Pop(c), Continue)
    else
      var a := AckStage(c, s);
      if a.exit == Continue then a
      else Round(Pop(FinStage(PayloadStage(a.tcb, s, c.state), s, c.state)), Bottom)
  }

  /** tcp_others on `n` queued segments; an empty queue is dereferenced through null. */
  function Others(c: Tcb, n: nat): Tcb
    decreases n
  {
    if n == 0 || c.fault then c
    else if c.inQ == [] then c.(fault := true)
    else
      var r := OthersRound(c);
      if r.exit == Return then r.tcb else Others(r.tcb, n - 1)
  }

  function Close(c: Tcb, n: nat): Tcb
    decreases n
  {
    if n == 0 || c.fault then c
    else if c.inQ == [] then c.(fault := true)
    else Close(CloseStep(c), n - 1)
  }

  function Dispatch(c: Tcb, n: nat): Slot
    requires 0 < n <= |c.inQ|
  {
    match c.handler
    case RunListen => ListenStep(c)
    case RunSynSent => SynSentStep(c)
    case RunOthers => Present(Others(c, n))
    case RunClose => Present(Close(c, n))
  }

  /**
   * tcp_read for an existing block. `patched` adds the branch tcp_block_buffer_add lacks, for a segment
   * that belongs in front of the head; without it such a segment writes through a null pointer.
   */
  function Receive(c: Tcb, s: Segment, patched: bool): Slot
  {
    if AddFaults(c.inQ, s.seqNum) && !patched then Present(c.(fault := true))
    else
      var c1 := c.(inQ := Buffered(c.inQ, s), recvNext := if c.state.SynSent? then s.seqNum else c.recvNext);
      var n := Ready(c1.inQ, c1.recvNext);
      if n == 0 then Present(c1) else Dispatch(c1, n)
  }

  /** tcp_read for one connection: a SYN creates the block, and a faulted process reads nothing. */
  function Read(slot: Slot, s: Segment, cfg: Config, patched: bool): Slot
  {
    match slot
    case Absent => if s.flags.syn then Receive(Create(cfg, s, Listen), s, patched) else Absent
    case Present(c) => if c.fault then slot else Receive(c, s, patched)
  }

  /** tcp_socket_send */
  function Send(c: Tcb, payload: Payload): Tcb
  {
    if c.fault then c else Write(c, PSH_ACK, payload)
  }
}
