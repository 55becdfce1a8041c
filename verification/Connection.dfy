/** The transmission control block as the object the C code updates, method by method. */
module Connection {
  import opened Wire
  import opened BlockQueue
  import opened BlockBuffer
  import E = Engine

  class TransmissionControlBlock {
    const sendInitial: u32
    var sendUna: u32
    var sendNext: u32
    var sendWindow: u16
    var lastUpdateSeq: u32
    var lastUpdateAck: u32
    var recvInitial: u32
    var recvNext: u32
    var recvWindow: u16
    var finNum: u32
    var state: E.State
    var handler: E.Handler
    var active: bool
    const inBuffer: Buffer
    const outBuffer: Buffer

    /** Does the layer below take packets, and has a null pointer been written through? */
    var linkUp: bool
    var fault: bool
    /** What has been numbered, handed down, handed up and signalled. */
    ghost var built: seq<Segment>
    ghost var sent: seq<Segment>
    ghost var delivered: seq<u8>
    ghost var upcalls: seq<E.Upcall>

    ghost function Repr(): set<object>
    {
      {this, inBuffer, inBuffer.pool, outBuffer, outBuffer.pool}
    }

    ghost predicate Valid()
      reads inBuffer, inBuffer.pool, outBuffer, outBuffer.pool
    {
      && inBuffer != outBuffer && inBuffer.pool != outBuffer.pool
      && inBuffer.Valid() && outBuffer.Valid()
    }

    ghost function Out(): E.Output
      reads this, outBuffer
    {
      E.Output(outBuffer.Contents, linkUp, built, sent)
    }

    /** The object as a value. */
    ghost function Value(): E.Tcb
      reads this, inBuffer, outBuffer
    {
      E.Tcb(sendInitial, sendUna, sendNext, sendWindow, lastUpdateSeq, lastUpdateAck,
            recvInitial, recvNext, recvWindow, finNum, state, handler, active,
            inBuffer.Contents, Out(), fault, delivered, upcalls)
    }

    /** tcp_create_transmission_control_block */
    constructor (cfg: E.Config, h: Segment, state: E.State)
      ensures Valid() && fresh(Repr())
      ensures Value() == E.Create(cfg, h, state)
    {
      hide Shape, Swap16;
      sendInitial, sendNext, sendUna := cfg.initial, cfg.initial, 0;
      sendWindow := Swap16(h.window);
      lastUpdateSeq, lastUpdateAck := 0, 0;
      recvInitial, recvNext, recvWindow := h.seqNum, h.seqNum, cfg.window;
      finNum := 0;
      var i := new Buffer();
      var o := new Buffer();
      inBuffer, outBuffer := i, o;
      this.state := state;
      handler := match state
        case Listen => E.RunListen
        case SynSent => E.RunSynSent
        case Closed => E.RunClose
        case _ => E.RunOthers;
      active, linkUp, fault := cfg.active, true, false;
      built, sent, delivered, upcalls := [], [], [], [];
    }

    /** tcp_write: form a segment, queue it, and hand down what fits the window. */
    method Write(flags: Flags, payload: Payload) returns (ok: bool)
      requires Valid()
      modifies this`sendNext, this`fault, this`built, this`sent, outBuffer, outBuffer.pool
      ensures Valid()
      ensures Value() == E.Write(old(Value()), flags, payload)
      ensures !fault ==> ok == E.WriteOk(payload, Value())
      ensures fault ==> old(fault) || old(AddFaults(outBuffer.Contents, sendNext))
    {
      hide U32, Swap16, E.Push, E.Drain, E.Fits, E.CanRelease, Insert, Shape;
      if |payload| > E.TCP_ROOM {
        return false;
      }
      var s := Number(flags, payload);
      var faults := outBuffer.WouldFault(s.seqNum);
      if faults {
        fault := true;
        return false;
      }
      ok := Queue(s);
    }

    /** Fill in the header and use up the numbers of the payload. */
    method Number(flags: Flags, payload: Payload) returns (s: Segment)
      modifies this`sendNext
      ensures s == old(E.Form(Value(), flags, payload))
      ensures sendNext == U32(old(sendNext) + |payload|)
    {
      s := Segment(sendNext, recvNext, flags, recvWindow, payload);
      if payload != [] {
        s := s.(flags := flags.(psh := true));
        sendNext := U32(sendNext + |payload|);
      }
    }

    /** Add a segment to the send queue, then drain. */
    method Queue(s: Segment) returns (ok: bool)
      requires Valid() && !AddFaults(outBuffer.Contents, s.seqNum)
      modifies this`built, this`sent, outBuffer, outBuffer.pool
      ensures Valid()
      ensures Out() == E.Push(old(Out()), s, Swap16(sendWindow))
      ensures ok == Released()
    {
      hide U32, U16, E.Drain, Insert, Shape;
      var r := outBuffer.Add(s);
      built := built + [s];
      ok := DrainQueue();
    }

    /** The queue is not held up by the layer below. */
    ghost predicate Released()
      reads this, outBuffer
    {
      var w := Swap16(sendWindow);
      outBuffer.Contents == [] || !E.Fits(w, outBuffer.Contents[0]) || E.CanRelease(Out(), w)
    }

    /** The loop at the end of tcp_write. */
    method DrainQueue() returns (ok: bool)
      requires Valid()
      modifies this`sent, outBuffer, outBuffer.pool
      ensures Valid()
      ensures Out() == E.Drain(old(Out()), Swap16(sendWindow))
      ensures ok == Released()
    {
      var head := outBuffer.GetHead();
      while head != NULL
        invariant Valid()
        invariant head == NULL <==> outBuffer.Contents == []
        invariant head != NULL ==> outBuffer.pool[head].Holds(outBuffer.Contents[0])
        invariant E.Drain(Out(), Swap16(sendWindow)) == E.Drain(old(Out()), Swap16(sendWindow))
        decreases |outBuffer.Contents|
      {
        var remoteWindow := Swap16(sendWindow);
        var size := outBuffer.pool[head].payloadSize;
        if remoteWindow >= size {
          if !linkUp || size > E.IP_ROOM {
            return false;
          }
          sent := sent + [outBuffer.pool[head].data];
          outBuffer.RemoveFront(1);
        } else {
          return true;
        }
        head := outBuffer.GetHead();
      }
      ok := true;
    }

    /** The segment at the front of the receive buffer. */
    method Head() returns (s: Segment)
      requires Valid() && inBuffer.Contents != []
      ensures s == inBuffer.Contents[0]
    {
      var head := inBuffer.GetHead();
      s := inBuffer.pool[head].data;
    }

    /** One segment is removed from the front of the receive buffer. */
    method Pop()
      requires Valid()
      modifies inBuffer, inBuffer.pool
      ensures Valid() && Value() == E.Pop(old(Value()))
    {
      inBuffer.RemoveFront(1);
    }

    /** tcp_receive_payload */
    method ReceivePayload(payload: Payload)
      requires Valid()
      modifies this, outBuffer, outBuffer.pool
      ensures Valid() && Value() == E.ReceivePayload(old(Value()), payload)
    {
      hide U32, U16, E.Write, E.WriteOk, Shape, Valid;
      recvNext := U32(recvNext + |payload|);
      recvWindow := U16(recvWindow - |payload|);
      assert Value() == old(Value()).(recvNext := recvNext, recvWindow := recvWindow);
      var _ := Write(ACK, []);
      delivered := delivered + payload;
    }

    /** Remember the window and the segment it came with. */
    method NoteWindow(s: Segment)
      modifies this`sendWindow, this`lastUpdateSeq, this`lastUpdateAck
      ensures Value() == old(Value()).(sendWindow := s.window, lastUpdateSeq := s.seqNum, lastUpdateAck := s.ackNum)
    {
      sendWindow := s.window;
      lastUpdateSeq := s.seqNum;
      lastUpdateAck := s.ackNum;
    }

    /** Take over the other side's initial number. */
    method NoteSyn(s: Segment)
      modifies this`recvInitial, this`recvNext
      ensures Value() == old(Value()).(recvInitial := s.seqNum, recvNext := U32(s.seqNum + 1))
    {
      recvInitial := s.seqNum;
      recvNext := U32(recvInitial + 1);
    }

    /** A SYN or a FIN has been sent: it takes one number. */
    method CountOne()
      modifies this`sendNext
      ensures Value() == old(Value()).(sendNext := U32(old(sendNext) + 1))
    {
      sendNext := U32(sendNext + 1);
    }

    method Become(s: E.State)
      modifies this`state, this`handler
      ensures Value() == old(Value()).(state := s, handler := E.RunOthers)
    {
      state := s;
      handler := E.RunOthers;
    }

    method Notify(u: E.Upcall)
      modifies this`upcalls
      ensures Value() == E.Notify(old(Value()), u)
    {
      upcalls := upcalls + [u];
    }

    /** tcp_syn_sent; `deleted` tells that the block has been removed from its socket. */
    method SynSentStep() returns (deleted: bool)
      requires Valid() && inBuffer.Contents != []
      modifies this, outBuffer, outBuffer.pool, inBuffer, inBuffer.pool
      ensures if deleted then E.SynSentStep(old(Value())).Absent?
              else Valid() && E.SynSentStep(old(Value())) == E.Present(Value())
    {
      hide U32, U16, E.Write, E.WriteOk, E.ReceivePayload, Shape, Valid;
      var s := Head();
      if s.flags.ack && (s.ackNum <= sendInitial || s.ackNum > sendNext) {
        var _ := Write(RST, []);
        return false;
      }
      if s.flags.rst {
        if s.flags.ack {
          return true;
        }
        Pop();
        return false;
      }
      if s.flags.syn {
        TakeSyn(s);
      }
      deleted := false;
    }

    /** Establish the connection, or answer a SYN that crossed our own. */
    method AnswerSyn(s: Segment)
      requires Valid()
      modifies this, outBuffer, outBuffer.pool
      ensures Valid() && Value() == E.AnswerSyn(old(Value()), s)
    {
      hide U32, U16, E.Write, E.WriteOk, E.ReceivePayload, Shape, Valid;
      if sendUna > sendInitial {
        Become(E.Established);
        if s.payload != [] {
          ReceivePayload(s.payload);
        } else {
          var _ := Write(ACK, []);
        }
        Notify(E.OnConnect);
      } else {
        Become(E.SynReceived);
        var _ := Write(SYN_ACK, []);
      }
    }

    /** tcp_syn_sent, once the segment at the front is known to be an acceptable SYN. */
    method TakeSyn(s: Segment)
      requires Valid() && inBuffer.Contents != [] && s == inBuffer.Contents[0]
      requires s.flags.syn && !s.flags.rst && (s.flags.ack ==> sendInitial < s.ackNum <= sendNext)
      modifies this, outBuffer, outBuffer.pool, inBuffer, inBuffer.pool
      ensures Valid() && E.SynSentStep(old(Value())) == E.Present(Value())
    {
      hide U32, U16, E.AnswerSyn, Shape, Valid;
      NoteSyn(s);
      if s.flags.ack {
        sendUna := s.ackNum;
      }
      assert Value() == old(Value()).(recvInitial := s.seqNum, recvNext := U32(s.seqNum + 1),
                                      sendUna := if s.flags.ack then s.ackNum else old(sendUna));
      AnswerSyn(s);
      NoteWindow(s);
      Pop();
    }

    /** tcp_listen on a SYN: answer it with our own. */
    method AcceptSyn(s: Segment)
      requires Valid()
      modifies this, outBuffer, outBuffer.pool
      ensures Valid() && Value() == E.AcceptSyn(old(Value()), s)
    {
      hide U32, E.Write, E.WriteOk, Shape, Valid;
      NoteSyn(s);
      Become(E.SynReceived);
      sendNext := sendInitial;
      assert Value() == old(Value()).(recvInitial := s.seqNum, recvNext := U32(s.seqNum + 1),
                                      state := E.SynReceived, handler := E.RunOthers, sendNext := sendInitial);
      var _ := Write(SYN_ACK, []);
      sendUna := sendInitial;
      CountOne();
    }

    /** tcp_listen */
    method ListenStep() returns (deleted: bool)
      requires Valid() && inBuffer.Contents != []
      modifies this, outBuffer, outBuffer.pool, inBuffer, inBuffer.pool
      ensures if deleted then E.ListenStep(old(Value())).Absent?
              else Valid() && E.ListenStep(old(Value())) == E.Present(Value())
    {
      hide E.AcceptSyn, U32, U16, E.Write, E.WriteOk, Shape, Valid;
      var s := Head();
      if s.flags.rst {
        return true;
      } else if s.flags.ack {
        sendNext, recvNext := s.ackNum, 0;
        assert Value() == old(Value()).(sendNext := s.ackNum, recvNext := 0);
        var _ := Write(RST, []);
      } else {
        // the test for SYN at this point holds of every segment
        AcceptSyn(s);
      }
      Pop();
      deleted := false;
    }

    /** One round of the loop in tcp_close. */
    method CloseStep()
      requires Valid() && inBuffer.Contents != []
      modifies this, outBuffer, outBuffer.pool, inBuffer, inBuffer.pool
      ensures Valid() && Value() == E.CloseStep(old(Value()))
    {
      hide U32, U16, E.Write, E.WriteOk, Shape, Valid;
      var s := Head();
      if !s.flags.rst {
        if s.flags.ack {
          sendNext := s.ackNum;
        } else {
          sendNext, recvNext := 0, U32(s.seqNum + |s.payload|);
        }
        assert Value() == old(Value()).(sendNext := sendNext, recvNext := recvNext);
        var _ := Write(RST, []);
      }
      Pop();
    }

    /** tcp_close */
    method Close(n: u16)
      requires Valid()
      modifies this, outBuffer, outBuffer.pool, inBuffer, inBuffer.pool
      ensures Valid() && Value() == E.Close(old(Value()), n)
    {
      hide E.CloseStep, Shape;
      var left := n;
      while left > 0 && !fault
        invariant Valid()
        invariant E.Close(Value(), left) == E.Close(old(Value()), n)
        decreases left
      {
        left := left - 1;
        var head := inBuffer.GetHead();
        if head == NULL {
          fault := true;
          return;
        }
        CloseStep();
      }
    }

    /** Update the window if this is not an old segment, then what has been acknowledged. */
    method TakeAck(s: Segment, ackOk: bool)
      requires ackOk == E.AckOk(Value(), s.ackNum)
      modifies this`sendWindow, this`lastUpdateSeq, this`sendUna
      ensures Value() == E.TakeAck(old(Value()), s)
    {
      if ackOk || s.ackNum == sendUna {
        if lastUpdateSeq < s.seqNum || (lastUpdateSeq == s.seqNum && lastUpdateAck <= s.ackNum) {
          sendWindow, lastUpdateSeq := s.window, s.seqNum;
        }
      }
      if ackOk {
        sendUna := s.ackNum;
      }
    }

    /** An unacceptable acknowledgement in SYN-RECEIVED: `send_next` is overwritten to form a reset. */
    method Refuse(s: Segment)
      requires Valid()
      modifies this, outBuffer, outBuffer.pool
      ensures Valid() && Value() == E.Write(old(Value()).(sendNext := s.ackNum), RST, [])
    {
      hide E.Write, E.WriteOk, Shape, Valid;
      sendNext := s.ackNum;
      assert Value() == old(Value()).(sendNext := s.ackNum);
      var _ := Write(RST, []);
    }

    /** The part of a round of tcp_others that looks at the acknowledgement. */
    method AckStage(s: Segment) returns (exit: E.Exit)
      requires Valid()
      modifies this, outBuffer, outBuffer.pool, inBuffer, inBuffer.pool
      ensures Valid() && E.Round(Value(), exit) == E.AckStage(old(Value()), s)
    {
      hide U32, U16, E.Write, E.WriteOk, E.TakeAck, Shape, Valid;
      var ackOk := s.ackNum <= sendNext && s.ackNum > sendUna;
      exit := E.Bottom;
      if state.Established? || state.FinWait1? || state.FinWait2? || state.CloseWait? || state.Closing? {
        if s.ackNum > sendNext {
          var _ := Write(ACK, []);
          Pop();
          return E.Continue;
        }
        TakeAck(s, ackOk);
        if state.FinWait1? {
          if finNum != 0 && s.ackNum >= finNum {
            Pop();
            state := E.FinWait2;
          }
        } else if state.FinWait2? {
          if sendNext == lastUpdateAck {
            Notify(E.OnClose);
          }
        } else if state.Closing? {
          if finNum != 0 && s.ackNum >= finNum {
            Pop();
            state := E.TimeWait;
          }
        }
      } else if state.SynReceived? {
        if !ackOk {
          Refuse(s);
        } else {
          NoteWindow(s);
          state := E.Established;
        }
      }
    }

    /** Acknowledge a FIN with one of our own, and tell the owner. */
    method AnswerFin(s: Segment)
      requires Valid()
      modifies this, outBuffer, outBuffer.pool
      ensures Valid() && Value() == E.AnswerFin(old(Value()), s)
    {
      hide U32, E.Write, E.WriteOk, Shape, Valid;
      recvNext := U32(s.seqNum + 1);
      assert Value() == old(Value()).(recvNext := U32(s.seqNum + 1));
      var _ := Write(FIN_ACK, []);
      CountOne();
      Notify(E.OnClose);
    }

    /** The part of a round of tcp_others that looks at the FIN; `was` is the state the round began with. */
    method FinStage(s: Segment, was: E.State)
      requires Valid()
      modifies this, outBuffer, outBuffer.pool
      ensures Valid() && Value() == E.FinStage(old(Value()), s, was)
    {
      hide E.AnswerFin, Shape, Valid;
      if !s.flags.fin || was.Closed? || was.Listen? || was.SynSent? {
        return;
      }
      AnswerFin(s);
      ghost var c2 := Value();
      if was.Established? {
        state := E.CloseWait;
      } else if was.FinWait1? {
        state := if finNum != 0 && s.ackNum >= finNum then E.TimeWait else E.Closing;
      } else if was.FinWait2? {
        state := E.TimeWait;
      }
      assert Value() == c2.(state := state);
    }

    predicate InWindow(s: Segment)
      reads this
      ensures InWindow(s) == E.InWindow(Value(), s)
    {
      var edge := U32(recvNext + recvWindow);
      if s.payload != [] then
        recvWindow != 0 && s.seqNum >= recvNext && s.seqNum < edge && U32(s.seqNum + |s.payload| - 1) < edge
      else
        (recvWindow != 0 && s.seqNum >= recvNext && s.seqNum < edge) || (recvWindow == 0 && recvNext == s.seqNum)
    }

    /** One round of the loop in tcp_others. */
    method OthersRound() returns (exit: E.Exit)
      requires Valid() && inBuffer.Contents != []
      modifies this, outBuffer, outBuffer.pool, inBuffer, inBuffer.pool
      ensures Valid() && E.Round(Value(), exit) == E.OthersRound(old(Value()))
    {
      hide U32, U16, E.Write, E.WriteOk, E.ReceivePayload, E.AckStage, E.FinStage, E.InWindow, Shape;
      var s := Head();
      var was := state;
      if !InWindow(s) {
        if s.flags.rst {
          Pop();
          return E.Continue;
        }
        var _ := Write(ACK, []);
      } else {
        if s.flags.rst {
          if was.SynReceived? && active {
            Notify(E.OnClose);
          }
          return E.Return;
        }
        if s.flags.syn {
          if was.SynReceived? && !active {
            return E.Return;
          }
          var _ := Write(ACK, []);
          Pop();
          return E.Continue;
        }
        if !s.flags.ack {
          Pop();
          return E.Continue;
        }
        exit := AckStage(s);
        if exit == E.Continue {
          return;
        }
        if s.payload != [] && (was.Established? || was.FinWait1? || was.FinWait2?) {
          ReceivePayload(s.payload);
        }
        FinStage(s, was);
      }
      Pop();
      exit := E.Bottom;
    }

    /** tcp_others */
    method Others(n: u16)
      requires Valid()
      modifies this, outBuffer, outBuffer.pool, inBuffer, inBuffer.pool
      ensures Valid() && Value() == E.Others(old(Value()), n)
    {
      hide U32, U16, E.OthersRound, Shape;
      var left := n;
      while left > 0 && !fault
        invariant Valid()
        invariant E.Others(Value(), left) == E.Others(old(Value()), n)
        decreases left
      {
        left := left - 1;
        var head := inBuffer.GetHead();
        if head == NULL {
          fault := true;
          return;
        }
        var exit := OthersRound();
        if exit == E.Return {
          return;
        }
      }
    }

    /** tcp_read from the point where the block is known. */
    method Receive(s: Segment) returns (deleted: bool)
      requires Valid() && !fault
      modifies this, outBuffer, outBuffer.pool, inBuffer, inBuffer.pool
      ensures if deleted then E.Receive(old(Value()), s, false).Absent?
              else Valid() && E.Receive(old(Value()), s, false) == E.Present(Value())
    {
      hide U32, U16, E.ListenStep, E.SynSentStep, E.Others, E.Close, Insert, Shape;
      deleted := false;
      var faults := inBuffer.WouldFault(s.seqNum);
      if faults {
        fault := true;
        return;
      }
      var _ := inBuffer.Add(s);
      if state.SynSent? {
        recvNext := s.seqNum;
      }
      var n := inBuffer.NumReady(recvNext);
      if n > 0 {
        match handler
        case RunListen => deleted := ListenStep();
        case RunSynSent => deleted := SynSentStep();
        case RunOthers => Others(n);
        case RunClose => Close(n);
      }
    }

    /** tcp_socket_send */
    method Send(payload: Payload) returns (ok: bool)
      requires Valid() && !fault
      modifies this, outBuffer, outBuffer.pool
      ensures Valid() && Value() == E.Send(old(Value()), payload)
      ensures !fault ==> ok == E.WriteOk(payload, Value())
    {
      ok := Write(PSH_ACK, payload);
    }
  }

  /** tcp_read of a SYN that belongs to no block: one is created, and reads it. */
  method Open(s: Segment, cfg: E.Config) returns (c: TransmissionControlBlock, deleted: bool)
    requires s.flags.syn
    ensures fresh(c.Repr())
    ensures if deleted then E.Read(E.Absent, s, cfg, false).Absent?
            else c.Valid() && E.Read(E.Absent, s, cfg, false) == E.Present(c.Value())
  {
    hide E.Receive, Shape;
    c := new TransmissionControlBlock(cfg, s, E.Listen);
    deleted := c.Receive(s);
  }

  /** tcp_socket_connect: a block in SYN-SENT whose SYN has been written. */
  method Connect(cfg: E.Config, linkUp: bool) returns (c: TransmissionControlBlock, ok: bool)
    ensures c.Valid() && fresh(c.Repr())
    ensures c.Value() == E.Connect(cfg, linkUp)
    ensures ok == E.WriteOk([], c.Value())
  {
    hide E.Write, E.Fits, Swap16, Shape;
    ghost var c0 := E.Create(cfg.(active := true), E.STUB_HEADER, E.SynSent);
    c := new TransmissionControlBlock(cfg.(active := true), E.STUB_HEADER, E.SynSent);
    c.linkUp := linkUp;
    assert c.Value() == c0.(out := c0.out.(linkUp := linkUp));
    ok := c.Write(SYN, []);
    if ok {
      c.sendNext := U32(c.sendNext + 1);
    }
  }
}
