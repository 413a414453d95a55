/** Runs that show what can go wrong when a receive ring is filled completely. */
module ProtocolExamples {
  import opened Word
  import opened Ring
  import opened TcpCommon
  import opened FlowOps
  import opened ConnOps
  import opened Protocol
  import opened ProtocolStall

  function Fresh(rxRing: seq<byte>, txRing: seq<byte>): (e: Endpoint)
    requires 0 < |rxRing| < TWO31 && 0 < |txRing| < TWO31
    ensures InitEndpoint(e, 0) && EndpointWf(e)
  {
    var flow := Flow(
      Rx(rxRing, |rxRing|, 0, 0, 0, 0), Tx(txRing, 0, 0, 0, 0, |rxRing|), 0, 0, 0, 0, 0, 0, 0);
    Endpoint(0, flow, Conn(|rxRing|, |txRing|, false, 0, 0, 0, 0, 0, 0), [], [], {}, -1, 0, 0, [], 0, 0, 0, [])
  }

  /** A receiver with a receive ring of two bytes, and a sender. */
  function Receiver(): (e: Endpoint)
    ensures EndpointWf(e)
  {
    Fresh([0, 0], [0, 0])
  }

  function Sender(): (e: Endpoint)
    ensures EndpointWf(e)
  {
    Fresh([0, 0], [0, 0, 0, 0])
  }

  /** The first two bytes of the sender in one segment. */
  const TWO_BYTES: Flight := Flight(Seg(0, 0, true, false, 2, [1, 2]), 0, 0)

  /** Some run ends in state `s`. */
  ghost predicate Reachable(s: System) {
    exists run: seq<System>, acts: seq<(bool, Action)> {:trigger IsRun(run, acts)} ::
      IsRun(run, acts) && run[|acts|] == s
  }

  lemma ReachInit(s: System)
    requires Init(s)
    ensures Reachable(s)
  {
    hide Init;
    var run: seq<System>, acts: seq<(bool, Action)> := [s], [];
    assert IsRun(run, acts);
  }

  lemma ReachStep(s: System, left: bool, act: Action)
    requires Reachable(s) && CanStart(s, left, act) && CanStep(s, left, act)
    ensures Reachable(Step(s, left, act))
  {
    hide Init, Enabled, Aborts, Ready, Do, EndpointWf;
    var run: seq<System>, acts: seq<(bool, Action)> :| IsRun(run, acts) && run[|acts|] == s;
    var longer, more := run + [Step(s, left, act)], acts + [(left, act)];
    forall i | 0 <= i < |more|
      ensures Follows(longer[i], more[i], longer[i + 1])
    {
      if i < |acts| {
        assert Follows(run[i], acts[i], run[i + 1]);
      }
    }
    assert IsRun(longer, more);
  }

  /** The sender after writing two bytes, handing them over, telling the fast path, and the bump being applied. */
  function Told(): (e: Endpoint)
    ensures EndpointWf(e)
  {
    var e := Sender();
    e.(flow := e.flow.(tx := e.flow.tx.(ring := [1, 2, 0, 0], head := 2)),
       conn := e.conn.(open := true, txHead := 2, txAlloc := 2, bumpSeq := 1),
       bumps := [BumpRec(BumpMsg(0, 0, 2), 2, 0)], last := 0,
       written := [1, 2], sentOff := 2)
  }

  /** One action of the sender, as a step of the system. */
  lemma SenderStep(act: Action, e: Endpoint, n: Endpoint)
    requires Reachable(System(Receiver(), e, {}, {}))
    requires EndpointWf(e) && Enabled(e, {}, act) && !Aborts(e, act) && Ready(e, act) && Do(e, {}, act) == (n, {})
    ensures Reachable(System(Receiver(), n, {}, {}))
  {
    hide Reachable, Do, Enabled, Aborts, Ready, EndpointWf;
    var s := System(Receiver(), e, {}, {});
    ReachStep(s, false, act);
    var none: set<Flight> := {};
    assert none + none == none;
  }

  lemma SenderTells()
    ensures Reachable(System(Receiver(), Told(), {}, {}))
  {
    hide Reachable;
    var e0 := Sender();
    ReachInit(System(Receiver(), e0, {}, {}));
    var e1 := e0.(conn := e0.conn.(open := true));
    SenderStep(Confirm, e0, e1);
    var e2 := e1.(flow := e1.flow.(tx := e1.flow.tx.(ring := [1, 2, 0, 0])), conn := e1.conn.(txAlloc := 2),
                  written := [1, 2]);
    WriteTwo(e1, e2);
    SenderStep(Write([1, 2], true), e1, e2);
    var e3 := e2.(conn := e2.conn.(txHead := 2), sentOff := 2);
    PushTwo(e2, e3);
    SenderStep(Push(2), e2, e3);
    var e4 := e3.(conn := e3.conn.(bumpSeq := 1), bumps := [BumpRec(BumpMsg(0, 0, 2), 2, 0)], pending := {0});
    TellTwo(e3, e4);
    SenderStep(Tell, e3, e4);
    ApplyTwo(e4);
    SenderStep(Apply(0), e4, Told());
  }

  lemma WriteTwo(e: Endpoint, n: Endpoint)
    requires var s := Sender(); e == s.(conn := s.conn.(open := true))
    requires n == e.(flow := e.flow.(tx := e.flow.tx.(ring := [1, 2, 0, 0])), conn := e.conn.(txAlloc := 2),
                     written := [1, 2])
    ensures Do(e, {}, Write([1, 2], true)) == (n, {})
  {
    var data: seq<byte> := [1, 2];
    var ring: seq<byte> := [0, 0, 0, 0];
    assert data[..2] == data && e.written + data == data;
    assert ring[..0] + data + ring[2..] == [1, 2, 0, 0];
    assert RingWrite(ring, 0, data) == [1, 2, 0, 0];
    assert AllocLen(e.conn, 2, true) == 2;
  }

  lemma TellTwo(e: Endpoint, n: Endpoint)
    requires EndpointWf(e) && e.conn.open && e.conn.bumpSeq == 0 && e.conn.rxTail == 0 && e.conn.txHead == 2
    requires e.sentOff == 2 && e.handed == [] && e.bumps == [] && e.pending == {}
    requires n == e.(conn := e.conn.(bumpSeq := 1), bumps := [BumpRec(BumpMsg(0, 0, 2), 2, 0)], pending := {0})
    ensures Do(e, {}, Tell) == (n, {})
  {
    assert e.bumps + [BumpRec(BumpMsg(0, 0, 2), 2, 0)] == n.bumps;
    assert e.pending + {0} == n.pending;
  }

  lemma PushTwo(e: Endpoint, n: Endpoint)
    requires EndpointWf(e) && e.conn.open && e.conn.txLen == 4 && e.conn.txAlloc == 2 && e.conn.txHead == 0
    requires e.sentOff == 0 && n == e.(conn := e.conn.(txHead := 2), sentOff := 2)
    ensures Do(e, {}, Push(2)) == (n, {})
  {
  }

  lemma ApplyTwo(e: Endpoint)
    requires e == Told().(flow := Told().flow.(tx := Told().flow.tx.(head := 0)), pending := {0}, last := -1)
    ensures EndpointWf(e) && Enabled(e, {}, Apply(0)) && Ready(e, Apply(0))
    ensures Do(e, {}, Apply(0)) == (Told(), {})
  {
    hide Bump;
    BumpTwo(e.flow);
    assert e.pending - {0} == {};
  }

  lemma BumpTwo(f: Flow)
    requires f == Told().flow.(tx := Told().flow.tx.(head := 0))
    ensures FlowWf(f) && BumpIsNew(0, 0) && HeadOk(f.tx, 2) && TailOk(f.rx, 0)
    ensures Bump(f, 0, 0, 2) == BumpResult(Told().flow, true, 2, None)
  {
    hide W32;
    ModSmall(0, 2);
    assert Freed(f.rx, 0) == 0;
  }

  lemma SenderSends() returns (s: System)
    ensures Reachable(s) && s.a == Receiver() && TWO_BYTES in s.toA
  {
    hide Reachable;
    SenderTells();
    TransmitTwo();
    s := System(Receiver(), Told(), {}, {});
    ReachStep(s, false, Send);
    s := Step(s, false, Send);
  }

  lemma TransmitTwo()
    ensures Transmit(Told().flow).Some? && Do(Told(), {}, Send).1 == {TWO_BYTES}
  {
    var ring: seq<byte> := [1, 2, 0, 0];
    assert ring[0..2] == [1, 2];
    assert RingRead(ring, 0, 2) == [1, 2];
  }

  // ------------------------------------------------------------ the receiver

  /** The receiver once both bytes are in its ring; the notification may be lost. */
  function Full(open: bool, lost: bool): (e: Endpoint)
    ensures EndpointWf(e)
  {
    var e := Receiver();
    e.(flow := e.flow.(rx := Rx([1, 2], 0, 0, 2, 0, 0), acks := 1),
       conn := e.conn.(open := open),
       rcv := 2,
       notifs := if lost then [] else [Notif(2, 0)])
  }

  lemma ReceiveTwo(e: Endpoint, lost: bool)
    requires e == Receiver().(conn := Receiver().conn.(open := e.conn.open))
    ensures EndpointWf(e) && Enabled(e, {TWO_BYTES}, Receive(TWO_BYTES, false, lost))
    ensures AfterReceive(e, TWO_BYTES, false, lost).0 == Full(e.conn.open, lost)
  {
    hide Packet;
    PacketTwo(e.flow);
    assert [] + [Notif(2, 0)] == [Notif(2, 0)];
  }

  lemma PacketTwo(f: Flow)
    requires f == Receiver().flow
    ensures FlowWf(f) && Trimmable(f.rx, 0, 2)
    ensures var r := Packet(f, TWO_BYTES.seg, false);
            r.flow == Full(false, false).flow && r.rxBump == 2 && r.txBump == 0
  {
    hide AckStep, RxStep, Available;
    AckTwo(f);
    PayloadTwo(f.rx);
  }

  lemma AckTwo(f: Flow)
    requires f == Receiver().flow
    ensures AckStep(f, TWO_BYTES.seg) == AckResult(f.(acks := 1), 0, false)
  {
  }

  lemma PayloadTwo(rx: Rx)
    requires rx == Receiver().flow.rx
    ensures RxWf(rx) && Trimmable(rx, 0, 2)
    ensures RxStep(rx, 0, [1, 2]) == RxResult(Rx([1, 2], 0, 0, 2, 0, 0), 2, true)
  {
    var data: seq<byte> := [1, 2];
    assert data[0..2] == data;
    assert TrimRxbuf(0, 2, 0, 2) == Keep(0, 0);
    var ring: seq<byte> := [0, 0];
    assert ring[..0] + data + ring[2..] == data;
    assert RingWrite(ring, 0, data) == data;
  }

  lemma ReceiverFills(open: bool, lost: bool) returns (s: System)
    ensures Reachable(s) && s.a == Full(open, lost)
  {
    hide Reachable, AfterReceive;
    s := SenderSends();
    if open {
      ConfirmEmpty(s.a);
      ReachStep(s, true, Confirm);
      s := Step(s, true, Confirm);
    }
    var act := Receive(TWO_BYTES, false, lost);
    ReceiveTwo(s.a, lost);
    ReachStep(s, true, act);
    s := Step(s, true, act);
  }

  lemma ConfirmEmpty(e: Endpoint)
    requires e == Receiver()
    ensures Enabled(e, {}, Confirm) && !Aborts(e, Confirm) && Ready(e, Confirm)
    ensures AfterConfirm(e) == e.(conn := e.conn.(open := true))
  {
  }

  /** The application takes the notification of the two bytes. */
  lemma ReceiverNoticed(open: bool) returns (s: System)
    ensures Reachable(s)
    ensures var e := Full(open, false);
            s.a == e.(conn := e.conn.(rxHead := if open then 0 else 2), notifs := [], delivered := 2)
  {
    hide Reachable;
    s := ReceiverFills(open, false);
    assert Remove(s.a.notifs, 0) == [];
    ReachStep(s, true, Notify(0));
    s := Step(s, true, Notify(0));
  }

  /** A sender that fills a receive ring of two bytes stalls the connection: whether the application takes the
      notification, has not yet taken it, or never gets it. */
  lemma StallReached(noticed: bool, lost: bool) returns (s: System)
    ensures Reachable(s) && EndpointWf(s.a)
    ensures s.a.rcv == 2 && s.a.handed == [] && Stalled(s.a)
  {
    hide Reachable;
    if noticed {
      s := ReceiverNoticed(true);
    } else {
      s := ReceiverFills(true, lost);
    }
  }

  /** If the bytes arrive before the connection is confirmed, and are announced, the library's assertion fails on
      confirmation. */
  lemma ConfirmAborts() returns (s: System)
    ensures Reachable(s) && EndpointWf(s.a)
    ensures Enabled(s.a, s.toA, Confirm) && !Ready(s.a, Confirm)
  {
    hide Reachable;
    s := ReceiverNoticed(false);
  }
}
