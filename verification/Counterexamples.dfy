/** The limits of stream safety: concrete runs in which each of its conditions is dropped. */
module Counterexamples {
  import opened Wire
  import opened BlockQueue
  import opened Engine
  import opened SendQueue
  import opened Handshake
  import opened Batch
  import opened TwoParty

  const CFG_A := Config(100, 1000, true)
  const CFG_B := Config(200, 1000, false)

  const THE_SYN := Segment(100, 0, SYN, 1000, [])
  const THE_SYN_ACK := Segment(200, 101, SYN_ACK, 1000, [])
  const THE_ACK := Segment(101, 201, ACK, 1000, [])

  function Data(n: u32, payload: Payload): Segment { Segment(n, 201, PSH_ACK, 1000, payload) }

  /** The connecting side after the handshake, having sent `more` besides. */
  function SideA(more: seq<Segment>, next: u32): Tcb
  {
    var log := [THE_SYN, THE_ACK] + more;
    Tcb(100, 101, next, 1000, 200, 101, 200, 201, 1000, 0, Established, RunOthers, true,
        [], Output([], true, log, log), false, [], [OnConnect])
  }

  /** The listening side, in SYN-RECEIVED. */
  function SideB(inQ: seq<Segment>): Tcb
  {
    Tcb(200, 200, 201, Swap16(1000), 0, 0, 100, 101, 1000, 0, SynReceived, RunOthers, false,
        inQ, Output([], true, [THE_SYN_ACK], [THE_SYN_ACK]), false, [], [])
  }

  const STREAM_A := Stream(100, false, [], {101})
  const STREAM_B := Stream(200, true, [], {201})

  /** Connected, with `more` sent by A and `q` waiting at B. */
  function Joint(more: seq<Segment>, next: u32, d: Stream, b: Tcb): Net
  {
    Net(Present(SideA(more, next)), Present(b), d, STREAM_B)
  }

  lemma Opened(su: Setup) returns (run: seq<Net>, acts: seq<Action>)
    requires su.cfgA == CFG_A && su.cfgB == CFG_B
    ensures IsRun(su, run, acts) && |acts| == 2
    ensures run[2] == Joint([], 101, STREAM_A, SideB([]))
  {
    hide Receive, Write;
    ConnectIs(CFG_A);
    var a0 := Connect(CFG_A, true);
    var n0 := Net(Present(a0), Absent, STREAM_A, STREAM_B);
    assert a0.out.sent == [THE_SYN] by { assert Form(Create(CFG_A, STUB_HEADER, SynSent), SYN, []) == THE_SYN; }

    ListenAnswers(CFG_B, THE_SYN, su.patched);
    var b0 := Create(CFG_B, THE_SYN, Listen).(recvNext := 101, state := SynReceived, handler := RunOthers);
    WriteToIdle(b0, SYN_ACK);
    assert Form(b0, SYN_ACK, []) == THE_SYN_ACK;
    assert [] + [THE_SYN_ACK] == [THE_SYN_ACK];
    var n1 := n0.(b := Present(SideB([])));
    assert Read(Absent, THE_SYN, CFG_B, su.patched) == n1.b;

    SynSentAnswers(a0, THE_SYN_ACK, su.patched);
    var a1 := a0.(recvInitial := 200, recvNext := 201, sendUna := 101, state := Established, handler := RunOthers);
    WriteToIdle(a1, ACK);
    assert Form(a1, ACK, []) == THE_ACK;
    assert [THE_SYN] + [THE_ACK] == [THE_SYN, THE_ACK] + [];
    var n2 := Joint([], 101, STREAM_A, SideB([]));
    assert Read(n1.a, THE_SYN_ACK, CFG_A, su.patched) == n2.a;

    run, acts := [n0, n1, n2], [ToB(THE_SYN), ToA(THE_SYN_ACK)];
    assert Step(su, n0, acts[0], n1) && Step(su, n1, acts[1], n2);
  }

  /** A run goes on by one step. */
  lemma Extend(su: Setup, run: seq<Net>, acts: seq<Action>, act: Action, n: Net)
    requires IsRun(su, run, acts) && Step(su, run[|acts|], act, n)
    ensures IsRun(su, run + [n], acts + [act])
  {
    hide Step, Init;
    var r, a := run + [n], acts + [act];
    assert r[0] == run[0];
    forall i | 0 <= i < |a| ensures Step(su, r[i], a[i], r[i + 1]) {
      if i < |acts| { assert Step(su, run[i], acts[i], run[i + 1]); }
    }
  }

  /** A writes when connected. */
  lemma AWrites(su: Setup, more: seq<Segment>, next: u32, d: Stream, b: Tcb, p: Payload)
    requires 1 <= |p| <= 1000 && (|p| == 1 ==> su.oneByte) && d.End() == next < 1000
    ensures Step(su, Joint(more, next, d, b), WriteA(p),
                 Joint(more + [Data(next, p)], next + |p|, d.Extend(p), b))
  {
    hide Write;
    var c := SideA(more, next);
    assert EffectiveWindow(c) >= 1000;
    DataToIdle(c, PSH_ACK, p);
    assert Form(c, PSH_ACK, p) == Data(next, p);
    assert [THE_SYN, THE_ACK] + more + [Data(next, p)] == [THE_SYN, THE_ACK] + (more + [Data(next, p)]);
  }

  const B_OPEN := SideB([]).(sendWindow := 1000, lastUpdateSeq := 101, lastUpdateAck := 201, state := Established)

  /** The handshake's last segment establishes B. */
  lemma BOpens(patched: bool)
    ensures Receive(SideB([]), THE_ACK, patched) == Present(B_OPEN)
  {
    hide Write;
    assert Buffered([], THE_ACK) == [THE_ACK];
    assert Ready([THE_ACK], 101) == 1 + Ready([], 101);
    var c := SideB([THE_ACK]);
    RoundCases(c);
    assert InWindow(c, THE_ACK);
    assert OthersRound(c).tcb == B_OPEN;
    assert Others(c, 1) == Others(B_OPEN, 0);
  }

  /** Single bytes break the stream: the second is taken for the first, since readiness tolerates `start + 1`. */
  lemma SingleBytesBreakTheStream(patched: bool, earlyData: bool) returns (su: Setup, run: seq<Net>, acts: seq<Action>)
    ensures su == Setup(CFG_A, CFG_B, patched, true, earlyData) && IsRun(su, run, acts)
    ensures run[|acts|].b.Present? && run[|acts|].da.wrote == [7, 8] && run[|acts|].b.tcb.delivered == [8]
  {
    hide Receive, Write, Send, EffectiveWindow;
    su := Setup(CFG_A, CFG_B, patched, true, earlyData);
    run, acts := Opened(su);
    BOpens(patched);
    var n3 := Joint([], 101, STREAM_A, B_OPEN);
    Extend(su, run, acts, ToB(THE_ACK), n3);
    run, acts := run + [n3], acts + [ToB(THE_ACK)];

    var d1, d2 := Data(101, [7]), Data(102, [8]);
    AWrites(su, [], 101, STREAM_A, B_OPEN, [7]);
    var n4 := Joint([d1], 102, STREAM_A.Extend([7]), B_OPEN);
    assert [] + [d1] == [d1];
    Extend(su, run, acts, WriteA([7]), n4);
    run, acts := run + [n4], acts + [WriteA([7])];

    AWrites(su, [d1], 102, STREAM_A.Extend([7]), B_OPEN, [8]);
    var n5 := Joint([d1] + [d2], 103, STREAM_A.Extend([7]).Extend([8]), B_OPEN);
    Extend(su, run, acts, WriteA([8]), n5);
    run, acts := run + [n5], acts + [WriteA([8])];

    SingleSegment(B_OPEN, d2, patched);
    var b := Receive(B_OPEN, d2, patched).tcb;
    assert [] + [8 as u8] == [8];
    assert d2 in n5.a.tcb.out.sent by { assert n5.a.tcb.out.sent[3] == d2; }
    var n6 := n5.(b := Present(b));
    Extend(su, run, acts, ToB(d2), n6);
    run, acts := run + [n6], acts + [ToB(d2)];
  }

  const D1 := Data(101, [1, 2])
  const D2 := Data(103, [3, 4])
  const WROTE := STREAM_A.Extend([1, 2]).Extend([3, 4])

  /** A has sent two segments right after the handshake, and the second has overtaken everything else. */
  lemma Overtaken(su: Setup) returns (run: seq<Net>, acts: seq<Action>)
    requires su.cfgA == CFG_A && su.cfgB == CFG_B && (su.patched ==> su.earlyData)
    ensures IsRun(su, run, acts) && |acts| == 5
    ensures run[5] == Joint([D1] + [D2], 105, WROTE, SideB([D2]))
  {
    hide Receive, Write, Send, EffectiveWindow;
    run, acts := Opened(su);
    AWrites(su, [], 101, STREAM_A, SideB([]), [1, 2]);
    assert [] + [D1] == [D1];
    var n3 := Joint([D1], 103, STREAM_A.Extend([1, 2]), SideB([]));
    Extend(su, run, acts, WriteA([1, 2]), n3);
    run, acts := run + [n3], acts + [WriteA([1, 2])];
    AWrites(su, [D1], 103, STREAM_A.Extend([1, 2]), SideB([]), [3, 4]);
    var n4 := Joint([D1] + [D2], 105, WROTE, SideB([]));
    Extend(su, run, acts, WriteA([3, 4]), n4);
    run, acts := run + [n4], acts + [WriteA([3, 4])];
    NotReady(su.patched);
    assert D2 in n4.a.tcb.out.sent by { assert n4.a.tcb.out.sent[3] == D2; }
    var n5 := n4.(b := Present(SideB([D2])));
    Extend(su, run, acts, ToB(D2), n5);
    run, acts := run + [n5], acts + [ToB(D2)];
  }

  lemma NotReady(patched: bool)
    ensures Receive(SideB([]), D2, patched) == Present(SideB([D2]))
  {
    assert Buffered([], D2) == [D2];
    assert Ready([D2], 101) == 0;
  }

  /** As written, the segment that fills the hole is written through a null pointer: a network that merely
      swaps two segments brings the process down. */
  lemma ReorderingFaults() returns (su: Setup, run: seq<Net>, acts: seq<Action>)
    ensures su.Careful() && !su.patched && IsRun(su, run, acts)
    ensures run[|acts|].b.Present? && run[|acts|].b.tcb.fault
  {
    hide Write;
    su := Setup(CFG_A, CFG_B, false, false, false);
    run, acts := Overtaken(su);
    var n5 := run[5];
    assert D1 in n5.a.tcb.out.sent by { assert n5.a.tcb.out.sent[2] == D1; }
    var n6 := n5.(b := Present(SideB([D2]).(fault := true)));
    Extend(su, run, acts, ToB(D1), n6);
    run, acts := run + [n6], acts + [ToB(D1)];
  }

  /** With the missing branch added, data that completes the handshake is skipped, and what follows it in the
      batch is delivered in its place. */
  lemma EarlyDataBreaksTheStream(oneByte: bool) returns (su: Setup, run: seq<Net>, acts: seq<Action>)
    ensures su == Setup(CFG_A, CFG_B, true, oneByte, true) && IsRun(su, run, acts)
    ensures run[|acts|].b.Present? && run[|acts|].da.wrote == [1, 2, 3, 4] && run[|acts|].b.tcb.delivered == [3, 4]
  {
    hide Receive, Write;
    su := Setup(CFG_A, CFG_B, true, oneByte, true);
    run, acts := Overtaken(su);
    var n5 := run[5];
    assert D1 in n5.a.tcb.out.sent by { assert n5.a.tcb.out.sent[2] == D1; }
    SkipsThenTakes();
    var n6 := n5.(b := Receive(SideB([D2]), D1, true));
    Extend(su, run, acts, ToB(D1), n6);
    run, acts := run + [n6], acts + [ToB(D1)];
    assert WROTE.wrote == [1, 2, 3, 4];
  }

  lemma SkipsThenTakes()
    ensures var r := Receive(SideB([D2]), D1, true); r.Present? && r.tcb.delivered == [3, 4]
  {
    hide Write;
    assert Buffered([D2], D1) == [D1, D2];
    assert [D1, D2][1..] == [D2] && [D2][1..] == [];
    assert Ready([D1, D2], 101) == 1 + Ready([D2], 103) && Ready([D2], 103) == 1 + Ready([], 105);
    var c := SideB([D1, D2]);
    assert InWindow(c, D1);
    RoundCases(c);
    var m := OthersRound(c).tcb;
    assert m == c.(sendWindow := 1000, lastUpdateSeq := 101, lastUpdateAck := 201, state := Established, inQ := [D2]);
    AcceptedInFull(m, D2);
    assert Others(c, 2) == Others(m, 1) && Others(m, 1) == Others(OthersRound(m).tcb, 0);
    assert [] + [3 as u8, 4] == [3, 4];
  }

  /** Every state of every run with these liberties is faithful, whatever the initial numbers and windows. */
  ghost predicate AlwaysFaithful(patched: bool, oneByte: bool, earlyData: bool)
  {
    forall su: Setup, run: seq<Net>, acts: seq<Action>, i: nat ::
      su.patched == patched && su.oneByte == oneByte && su.earlyData == earlyData && IsRun(su, run, acts) && i < |run| ==>
        Faithful(run[i])
  }

  /** The stream is safe exactly when nobody writes single bytes and, with the missing branch added, no data
      reaches an endpoint before its handshake is complete. */
  lemma StreamSafetyExactly(patched: bool, oneByte: bool, earlyData: bool)
    ensures AlwaysFaithful(patched, oneByte, earlyData) <==> !oneByte && (patched ==> !earlyData)
  {
    hide IsRun;
    if oneByte {
      var su, run, acts := SingleBytesBreakTheStream(patched, earlyData);
      Length(su, run, acts);
      var n := run[|acts|];
      assert n.b.tcb.delivered[0] != n.da.wrote[0];
    } else if patched && earlyData {
      var su, run, acts := EarlyDataBreaksTheStream(oneByte);
      Length(su, run, acts);
      var n := run[|acts|];
      assert n.b.tcb.delivered[0] != n.da.wrote[0];
    } else {
      forall su: Setup, run: seq<Net>, acts: seq<Action>, i: nat |
        su.patched == patched && su.oneByte == oneByte && su.earlyData == earlyData && IsRun(su, run, acts) && i < |run|
        ensures Faithful(run[i])
      {
        StreamSafety(su, run, acts, i);
      }
    }
  }

  lemma Length(su: Setup, run: seq<Net>, acts: seq<Action>)
    requires IsRun(su, run, acts)
    ensures |run| == |acts| + 1
  {
  }
}
