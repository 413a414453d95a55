/** The invariant of the two-endpoint protocol. */
module ProtocolInv {
  import opened Word
  import opened Ring
  import opened TcpCommon
  import opened FlowOps
  import opened ConnOps
  import opened StreamHalves
  import opened Protocol

  // ------------------------------------------------------------ what holds of one endpoint

  ghost predicate TxInv(e: Endpoint)
    requires EndpointWf(e)
  {
    var len := |e.flow.tx.ring|;
    && TxHolds(e.flow.tx, e.iss, e.una, e.written)
    && HeadOff(e) <= e.sentOff <= |e.written| < e.tail + len
    && 0 <= e.tail && e.tail + SumTx(e.notifs) <= e.una
    && e.conn.txHead == e.sentOff % len
    && e.conn.txAlloc == |e.written| % len
    && e.conn.txTail == e.tail % len
    && (!e.conn.open ==> e.sentOff == 0)
  }

  ghost predicate RxInv(e: Endpoint, irs: u32, stream: seq<byte>)
    requires EndpointWf(e)
  {
    var len := |e.flow.rx.ring|;
    && RxHolds(e.flow.rx, irs, e.rcv, stream)
    && FreedOff(e) <= |e.handed| <= e.delivered
    && e.delivered + SumRx(e.notifs) <= e.rcv
    && e.handed <= stream
    && e.conn.rxHead == (if e.conn.open then e.delivered % len else e.delivered)
    && e.conn.rxTail == |e.handed| % len
    && (!e.conn.open ==> e.handed == [])
  }

  /** Bump `i` carries the ring positions of its stream offsets, which the application has passed. */
  ghost predicate BumpRecOk(e: Endpoint, i: int)
    requires EndpointWf(e) && 0 <= i < |e.bumps|
  {
    var b := e.bumps[i];
    && b.wire == BumpMsg(W32(i), b.read % e.conn.rxLen, b.head % e.conn.txLen)
    && 0 <= b.head <= e.sentOff
    && 0 <= b.read <= |e.handed|
    && (i > e.last ==> FreedOff(e) <= b.read)
  }

  ghost predicate Monotone(bumps: seq<BumpRec>) {
    forall i, j {:trigger bumps[i], bumps[j]} :: 0 <= i <= j < |bumps| ==>
      bumps[i].head <= bumps[j].head && bumps[i].read <= bumps[j].read
  }

  /** The flow record reflects the last bump applied. */
  ghost predicate BumpInv(e: Endpoint)
    requires EndpointWf(e)
  {
    && e.conn.bumpSeq == W32(|e.bumps|)
    && -1 <= e.last < |e.bumps| && e.last !in e.pending
    && e.flow.bumpSeq == W32(Max(e.last, 0))
    && HeadOff(e) == (if e.last < 0 then 0 else e.bumps[e.last].head)
    && (forall i :: 0 <= i < |e.bumps| ==> BumpRecOk(e, i))
    && (forall i :: e.last < i < |e.bumps| ==> i in e.pending)
    && Monotone(e.bumps)
  }

  /** What holds of an endpoint whose peer may send exactly `stream`, first byte numbered `irs`. */
  ghost predicate Inv(e: Endpoint, irs: u32, stream: seq<byte>) {
    && EndpointWf(e)
    && TxInv(e) && RxInv(e, irs, stream) && BumpInv(e)
  }

  /** The bytes the fast path of `e` may send. */
  ghost function Offered(e: Endpoint): seq<byte>
    requires EndpointWf(e) && TxInv(e)
  {
    e.written[..HeadOff(e)]
  }

  /** A segment from `s` carries exactly the stream bytes at its sequence number, and an
      acknowledgement number that `s` has reached. */
  ghost predicate Genuine(fl: Flight, s: Endpoint, irs: u32)
    requires EndpointWf(s) && TxInv(s)
  {
    && 0 <= fl.off && fl.off + |fl.seg.payload| <= |Offered(s)|
    && fl.seg.sn == W32(s.iss + fl.off)
    && fl.seg.payload == Offered(s)[fl.off..fl.off + |fl.seg.payload|]
    && fl.ackOff <= s.rcv
    && fl.seg.ack == W32(irs + fl.ackOff)
  }

  /** Nothing an endpoint has achieved is ever taken back. */
  ghost predicate Grown(e: Endpoint, n: Endpoint)
    requires EndpointWf(e) && TxInv(e) && EndpointWf(n) && TxInv(n)
  {
    && n.iss == e.iss
    && Offered(e) <= Offered(n) && e.written <= n.written && e.handed <= n.handed
    && e.una <= n.una && e.rcv <= n.rcv
    && FreedOff(e) <= FreedOff(n) && e.delivered <= n.delivered && e.tail <= n.tail
    && |n.flow.rx.ring| == |e.flow.rx.ring| && |n.flow.tx.ring| == |e.flow.tx.ring|
  }

  ghost predicate Good(e: Endpoint, n: Endpoint, out: set<Flight>, irs: u32, stream: seq<byte>)
    requires EndpointWf(e) && TxInv(e)
  {
    && Inv(n, irs, stream) && Grown(e, n)
    && forall fl :: fl in out ==> Genuine(fl, n, irs)
  }

  // ------------------------------------------------------------ helpers

  lemma {:induction false} SumAppend(q: seq<Notif>, m: Notif)
    ensures SumRx(q + [m]) == SumRx(q) + m.rx && SumTx(q + [m]) == SumTx(q) + m.tx
  {
    if q == [] {
      assert q + [m] == [m];
    } else {
      SumAppend(q[1..], m);
      assert (q + [m])[1..] == q[1..] + [m];
    }
  }

  lemma {:induction false} SumRemove(q: seq<Notif>, i: int)
    requires 0 <= i < |q|
    ensures SumRx(Remove(q, i)) == SumRx(q) - q[i].rx && SumTx(Remove(q, i)) == SumTx(q) - q[i].tx
  {
    if i == 0 {
      assert Remove(q, i) == q[1..];
    } else {
      SumRemove(q[1..], i - 1);
      assert Remove(q, i)[1..] == Remove(q[1..], i - 1);
    }
  }

  /** A segment without payload carries the current sequence and acknowledgement numbers. */
  lemma PureGenuine(e: Endpoint, irs: u32, stream: seq<byte>, ce: bool)
    requires Inv(e, irs, stream)
    ensures Genuine(Fly(e, Pure(e.flow, ce), NextOff(e)), e, irs)
  {
    hide W32, Holds, RxWf, TxHolds, BumpInv;
    InvHead(e, irs, stream);
    InvAck(e, irs, stream);
    NextSeqIs(e);
  }

  lemma NextSeqIs(e: Endpoint)
    requires EndpointWf(e) && TxInv(e)
    ensures e.flow.tx.nextSeq == W32(e.iss + NextOff(e))
  {
  }

  /** Bumps stay valid while the offsets they refer to only grow. */
  lemma BumpFrame(e: Endpoint, n: Endpoint)
    requires EndpointWf(e) && BumpInv(e) && EndpointWf(n)
    requires n.bumps == e.bumps && n.last == e.last
    requires n.pending <= e.pending && forall i :: e.last < i && i in e.pending ==> i in n.pending
    requires n.conn.bumpSeq == e.conn.bumpSeq && n.flow.bumpSeq == e.flow.bumpSeq
    requires n.conn.rxLen == e.conn.rxLen && n.conn.txLen == e.conn.txLen
    requires HeadOff(n) == HeadOff(e) && FreedOff(n) == FreedOff(e)
    requires e.sentOff <= n.sentOff && |e.handed| <= |n.handed|
    ensures BumpInv(n)
  {
    forall i | 0 <= i < |n.bumps|
      ensures BumpRecOk(n, i)
    {
      assert BumpRecOk(e, i);
    }
  }

  // ------------------------------------------------------------ fast path actions

  /** What arrives at `e`: a genuine segment of the peer's stream, not too old, and trimmable. */
  ghost predicate Arrives(e: Endpoint, irs: u32, stream: seq<byte>, fl: Flight)
    requires Inv(e, irs, stream)
  {
    && |stream| - e.rcv < TWO31
    && 0 <= fl.off && fl.off + |fl.seg.payload| <= |stream|
    && fl.seg.sn == W32(irs + fl.off)
    && fl.seg.payload == stream[fl.off..fl.off + |fl.seg.payload|]
    && fl.seg.ack == W32(e.iss + fl.ackOff) && fl.ackOff <= HeadOff(e)
    && e.rcv - fl.off < TWO31 && e.una - fl.ackOff < TWO31
    && Trimmable(e.flow.rx, fl.seg.sn, |fl.seg.payload|)
  }

  /** A received segment against both streams. */
  lemma PacketHolds(e: Endpoint, irs: u32, stream: seq<byte>, fl: Flight, ce: bool)
    requires Inv(e, irs, stream) && Arrives(e, irs, stream, fl)
    ensures var r := Packet(e.flow, fl.seg, ce);
            && e.una + r.txBump <= Max(e.una, fl.ackOff)
            && TxHolds(r.flow.tx, e.iss, e.una + r.txBump, e.written)
            && HeadOf(r.flow.tx, e.una + r.txBump) == HeadOff(e)
            && r.flow.tx.ring == e.flow.tx.ring
            && RxHolds(r.flow.rx, irs, e.rcv + r.rxBump, stream)
            && r.flow.rx.avail + r.rxBump == e.flow.rx.avail
            && |r.flow.rx.ring| == |e.flow.rx.ring|
            && r.flow.bumpSeq == e.flow.bumpSeq
  {
    hide TxHolds, RxHolds, Trimmable, Inv, Arrives, RxWf, TxWf, HeadOf, Packet;
    PacketTxHolds(e, irs, stream, fl, ce);
    PacketRxHolds(e, irs, stream, fl, ce);
  }

  lemma PacketTxHolds(e: Endpoint, irs: u32, stream: seq<byte>, fl: Flight, ce: bool)
    requires Inv(e, irs, stream) && Arrives(e, irs, stream, fl)
    ensures var r := Packet(e.flow, fl.seg, ce);
            && e.una + r.txBump <= Max(e.una, fl.ackOff)
            && TxHolds(r.flow.tx, e.iss, e.una + r.txBump, e.written)
            && HeadOf(r.flow.tx, e.una + r.txBump) == HeadOff(e)
            && r.flow.tx.ring == e.flow.tx.ring && r.flow.bumpSeq == e.flow.bumpSeq
  {
    hide TxHolds, RxHolds, W32, AckStep, RxStep, Trimmable, TxInv, RxInv, BumpInv, RxWf, BufAvail, Available, Packet;
    InvHolds(e, irs, stream);
    AckStepHolds(e.flow, fl.seg, e.iss, e.una, e.written, fl.ackOff);
    TxHoldsWindow(AckStep(e.flow, fl.seg).flow.tx, e.iss, e.una + AckStep(e.flow, fl.seg).bump, e.written, fl.seg.wnd);
    PacketParts(e.flow, fl.seg, ce);
  }

  lemma PacketRxHolds(e: Endpoint, irs: u32, stream: seq<byte>, fl: Flight, ce: bool)
    requires Inv(e, irs, stream) && Arrives(e, irs, stream, fl)
    ensures var r := Packet(e.flow, fl.seg, ce);
            && RxHolds(r.flow.rx, irs, e.rcv + r.rxBump, stream)
            && r.flow.rx.avail + r.rxBump == e.flow.rx.avail
            && |r.flow.rx.ring| == |e.flow.rx.ring|
  {
    hide TxHolds, RxHolds, W32, AckStep, RxStep, Trimmable, TxInv, RxInv, BumpInv, RxWf, TxWf, Packet;
    InvHolds(e, irs, stream);
    RxStepHolds(e.flow.rx, irs, e.rcv, stream, fl.off, |fl.seg.payload|);
    RxHoldsStay(e.flow.rx, irs, e.rcv, stream);
    PacketParts(e.flow, fl.seg, ce);
  }

  lemma RxHoldsStay(rx: Rx, irs: u32, rcv: int, stream: seq<byte>)
    requires RxHolds(rx, irs, rcv, stream)
    ensures RxHolds(rx, irs, rcv + 0, stream)
  {
  }

  /** A received segment, as acknowledgement and payload. */
  lemma PacketParts(f: Flow, p: Segment, ce: bool)
    requires FlowWf(f) && Trimmable(f.rx, p.sn, |p.payload|)
    ensures var r, a := Packet(f, p, ce), AckStep(f, p);
            var s := if a.stop then RxResult(f.rx, 0, false) else RxStep(f.rx, p.sn, p.payload);
            && r.txBump == a.bump && r.rxBump == s.bump && r.flow.rx == s.rx
            && r.flow.bumpSeq == a.flow.bumpSeq
            && (r.flow.tx == a.flow.tx || r.flow.tx == a.flow.tx.(remoteAvail := p.wnd))
  {
    hide AckStep, RxStep, Available;
  }

  lemma InvHolds(e: Endpoint, irs: u32, stream: seq<byte>)
    requires Inv(e, irs, stream)
    ensures TxHolds(e.flow.tx, e.iss, e.una, e.written) && RxHolds(e.flow.rx, irs, e.rcv, stream)
  {
  }

  lemma ReceiveGood(e: Endpoint, irs: u32, stream: seq<byte>, fl: Flight, ce: bool, lost: bool)
    requires Inv(e, irs, stream) && Arrives(e, irs, stream, fl)
    ensures var (n, out) := AfterReceive(e, fl, ce, lost);
            && Good(e, n, out, irs, stream)
            && n.una <= Max(e.una, fl.ackOff)
  {
    hide Packet, Trimmable, W32, Holds, RxWf;
    var (n, out) := AfterReceive(e, fl, ce, lost);
    var r := Packet(e.flow, fl.seg, ce);
    PacketHolds(e, irs, stream, fl, ce);
    SumAppend(e.notifs, Notif(r.rxBump, r.txBump));
    BumpFrame(e, n);
    PureGenuine(n, irs, stream, ce);
    PacketReply(e.flow, fl.seg, ce);
  }

  /** A segment is answered if and only if it carries payload, whatever becomes of that. */
  lemma PacketReply(f: Flow, p: Segment, ce: bool)
    requires FlowWf(f) && Trimmable(f.rx, p.sn, |p.payload|)
    ensures var r := Packet(f, p, ce);
            r.reply == if p.payload != [] then Some(Pure(r.flow, ce)) else None
  {
    hide AckStep, RxStep, Available;
  }

  lemma SendGood(e: Endpoint, irs: u32, stream: seq<byte>)
    requires Inv(e, irs, stream) && Transmit(e.flow).Some?
    ensures var (n, out) := AfterSend(e);
            Good(e, n, out, irs, stream) && n.una == e.una
  {
    hide W32, Holds, RxWf, TxHolds, Transmit;
    var (n, out) := AfterSend(e);
    InvHolds(e, irs, stream);
    TransmitHolds(e.flow, e.iss, e.una, e.written);
    TransmitKeeps(e.flow);
    BumpFrame(e, n);
    InvAck(e, irs, stream);
    InvHead(e, irs, stream);
  }

  lemma TransmitKeeps(f: Flow)
    requires FlowWf(f) && Transmit(f).Some?
    ensures var (g, p) := Transmit(f).value;
            g.rx == f.rx && g.bumpSeq == f.bumpSeq && p.ack == f.rx.nextSeq && FlowWf(g)
  {
  }

  lemma InvAck(e: Endpoint, irs: u32, stream: seq<byte>)
    requires Inv(e, irs, stream)
    ensures e.flow.rx.nextSeq == W32(irs + e.rcv)
  {
  }

  lemma InvHead(e: Endpoint, irs: u32, stream: seq<byte>)
    requires Inv(e, irs, stream)
    ensures 0 <= e.una <= NextOff(e) <= HeadOff(e) <= |e.written| < e.una + |e.flow.tx.ring|
  {
  }

  lemma TimeoutGood(e: Endpoint, irs: u32, stream: seq<byte>)
    requires Inv(e, irs, stream)
    ensures Good(e, AfterTimeout(e), {}, irs, stream) && AfterTimeout(e).una == e.una
  {
    hide W32, Holds, RxWf, TxHolds, Rewind;
    InvHolds(e, irs, stream);
    RewindHolds(e.flow.tx, e.iss, e.una, e.written);
    RewindRing(e.flow.tx);
    BumpFrame(e, AfterTimeout(e));
  }

  // ------------------------------------------------------------ bumps

  /** The counter comparison orders bumps within these distances of the last one applied. */
  lemma BumpOrder(i: int, f: int)
    requires f - TWO31 + 2 < i <= f + 0x4000_0000
    ensures BumpIsNew(W32(i), W32(f)) <==> i >= f
  {
  }

  /** A bump `d` after the one applied last is judged rightly if that one carries number `f`. */
  predicate OrdersAt(f: u32, d: int) { BumpIsNew(W32(f + d), f) <==> d >= 0 }

  /** A distance below 2^32 is judged rightly whatever the last bump applied, if and only if it is one of these. */
  lemma BumpOrderExactly(d: int)
    requires -TWO32 < d < TWO32
    ensures (forall f: u32 :: OrdersAt(f, d)) <==> -TWO31 + 2 < d <= 0x4000_0000
  {
    if -TWO31 + 2 < d <= 0x4000_0000 {
      forall f: u32
        ensures OrdersAt(f, d)
      {
        BumpOrder(f + d, f);
      }
    } else {
      var f: u32 := if d >= TWO31 then 0 else if d > 0 then 0xFFFF_FFFF else Max(0xBFFF_FFFD, -d);
      assert !OrdersAt(f, d);
    }
  }

  /** Freed bytes as the fast path computes them: a completely freed full ring counts as nothing. */
  lemma FreedIs(rx: Rx, irs: u32, rcv: int, stream: seq<byte>, read: int)
    requires RxHolds(rx, irs, rcv, stream)
    requires rcv + rx.avail - |rx.ring| <= read <= rcv
    ensures var freed := rcv + rx.avail - |rx.ring|;
            && TailOk(rx, read % |rx.ring|)
            && Freed(rx, read % |rx.ring|) == if read - freed < |rx.ring| then read - freed else 0
  {
    var len := |rx.ring|;
    var freed := rcv + rx.avail - len;
    ModAdd(rcv, rx.avail, len);
    ModSmall(rx.nextPos, len);
    ModAdd(freed, len, len);
    if read - freed < len {
      ModDistance(freed, read, len);
    } else {
      ModAdd(freed, len, len);
    }
  }

  lemma FreedHolds(rx: Rx, irs: u32, rcv: int, stream: seq<byte>, n: int)
    requires RxHolds(rx, irs, rcv, stream)
    requires 0 <= n && rx.avail + n <= |rx.ring|
    ensures RxHolds(rx.(avail := rx.avail + n), irs, rcv, stream)
  {
    hide W32;
    var lo := rcv + rx.avail - |rx.ring|;
    HoldsSub(rx.ring, stream, lo, rcv, lo + n, rcv);
  }

  /** A bump in reach is applied if and only if it is newer than the last one applied, and then the
      code's assumptions about its positions hold. */
  lemma ApplyReady(e: Endpoint, irs: u32, stream: seq<byte>, i: int)
    requires Inv(e, irs, stream) && i in e.pending && 0 <= i < |e.bumps| && InReach(i, e.last)
    ensures BumpIsNew(e.bumps[i].wire.bumpSeq, e.flow.bumpSeq) <==> i > e.last
    ensures ApplyOk(e, i)
    ensures i > e.last ==>
              && HeadOff(e) <= e.bumps[i].head <= |e.written|
              && FreedOff(e) <= e.bumps[i].read <= e.rcv
  {
    hide W32, Holds, BumpIsNew;
    assert BumpRecOk(e, i);
    BumpOrder(i, Max(e.last, 0));
    if i > e.last {
      if e.last >= 0 {
        assert BumpRecOk(e, e.last);
        assert e.bumps[e.last].head <= e.bumps[i].head;
      }
      NewHeadHolds(e.flow.tx, e.iss, e.una, e.written, e.bumps[i].head);
      FreedIs(e.flow.rx, irs, e.rcv, stream, e.bumps[i].read);
    }
  }

  /** The fields a newer bump changes. */
  lemma Applied(e: Endpoint, irs: u32, stream: seq<byte>, i: int)
    requires Inv(e, irs, stream) && i in e.pending && e.last < i < |e.bumps| && InReach(i, e.last)
    ensures ApplyOk(e, i)
    ensures var n := AfterApply(e, i).0;
            var b := e.bumps[i];
            && EndpointWf(n)
            && n == e.(flow := n.flow, pending := e.pending - {i}, last := i)
            && n.flow == e.flow.(rx := n.flow.rx, tx := n.flow.tx, bumpSeq := W32(i))
            && n.flow.tx == e.flow.tx.(head := b.head % |e.flow.tx.ring|) && HeadOff(n) == b.head <= e.sentOff
            && n.flow.rx == e.flow.rx.(avail := n.flow.rx.avail)
            && e.flow.rx.avail <= n.flow.rx.avail && FreedOff(e) <= FreedOff(n) <= b.read <= |e.handed|
            && TxHolds(n.flow.tx, e.iss, e.una, e.written) && RxHolds(n.flow.rx, irs, e.rcv, stream)
  {
    hide W32, Holds, BumpIsNew, HeadOk, TailOk, Available, TxHolds, RxHolds, Monotone;
    ApplyReady(e, irs, stream, i);
    InvHolds(e, irs, stream);
    var b := e.bumps[i];
    assert BumpRecOk(e, i);
    NewHeadHolds(e.flow.tx, e.iss, e.una, e.written, b.head);
    FreedIs(e.flow.rx, irs, e.rcv, stream, b.read);
    FreedHolds(e.flow.rx, irs, e.rcv, stream, Freed(e.flow.rx, b.read % |e.flow.rx.ring|));
  }

  lemma AppliedBumps(e: Endpoint, irs: u32, stream: seq<byte>, i: int)
    requires Inv(e, irs, stream) && i in e.pending && e.last < i < |e.bumps| && InReach(i, e.last)
    ensures ApplyOk(e, i)
    ensures var n := AfterApply(e, i).0;
            EndpointWf(n) && BumpInv(n)
  {
    hide W32, Holds, AfterApply, ApplyOk, TxInv, RxInv, TxHolds, RxHolds, RxWf, TxWf;
    Applied(e, irs, stream, i);
    var n := AfterApply(e, i).0;
    forall j | 0 <= j < |n.bumps|
      ensures BumpRecOk(n, j)
    {
      assert BumpRecOk(e, j);
      if j > i {
        assert e.bumps[i].read <= e.bumps[j].read;
      }
    }
  }

  lemma ApplyGood(e: Endpoint, irs: u32, stream: seq<byte>, i: int)
    requires Inv(e, irs, stream) && i in e.pending && 0 <= i < |e.bumps| && InReach(i, e.last)
    ensures ApplyOk(e, i)
    ensures var (n, out) := AfterApply(e, i);
            Good(e, n, out, irs, stream) && n.una == e.una
  {
    hide W32, Holds, BumpIsNew, HeadOk, TailOk, Available, BumpInv, TxHolds, RxHolds, RxWf, TxWf;
    ApplyReady(e, irs, stream, i);
    var (n, out) := AfterApply(e, i);
    if i > e.last {
      Applied(e, irs, stream, i);
      AppliedBumps(e, irs, stream, i);
      PureGenuine(n, irs, stream, false);
    } else {
      BumpFrame(e, n);
    }
  }

  // ------------------------------------------------------------ application actions

  lemma NotifyGood(e: Endpoint, irs: u32, stream: seq<byte>, i: int)
    requires Inv(e, irs, stream) && 0 <= i < |e.notifs|
    ensures NotifyOk(e, i)
    ensures Good(e, AfterNotify(e, i), {}, irs, stream) && AfterNotify(e, i).una == e.una
  {
    hide W32, Holds, RxWf, TxHolds, RxHolds, Advance, BumpInv;
    InvHead(e, irs, stream);
    InvFreed(e, irs, stream);
    SumRemove(e.notifs, i);
    var m := e.notifs[i];
    var n := AfterNotify(e, i);
    AdvanceMod(e.delivered, m.rx, e.conn.rxLen);
    AdvanceMod(e.tail, m.tx, e.conn.txLen);
    BumpFrame(e, n);
  }

  lemma InvFreed(e: Endpoint, irs: u32, stream: seq<byte>)
    requires Inv(e, irs, stream)
    ensures 0 <= FreedOff(e) <= e.rcv <= FreedOff(e) + |e.flow.rx.ring| && e.rcv <= |stream|
    ensures Holds(e.flow.rx.ring, stream, FreedOff(e), e.rcv)
  {
  }

  lemma ConfirmGood(e: Endpoint, irs: u32, stream: seq<byte>)
    requires Inv(e, irs, stream) && !e.conn.open && e.conn.rxHead < e.conn.rxLen
    ensures Good(e, AfterConfirm(e), {}, irs, stream) && AfterConfirm(e).una == e.una
  {
    hide W32, Holds, RxWf, TxHolds, RxHolds;
    ModSmall(e.delivered, e.conn.rxLen);
    BumpFrame(e, AfterConfirm(e));
  }

  /** What can be allocated is what keeps the written bytes within one turn of the ring, less one byte. */
  lemma AllocBytesIs(e: Endpoint, irs: u32, stream: seq<byte>)
    requires Inv(e, irs, stream)
    ensures AllocBytes(e.conn) == e.tail + e.conn.txLen - 1 - |e.written|
  {
    hide W32, Holds, RxWf, TxHolds, RxHolds;
    InvHead(e, irs, stream);
    ModDistance(e.tail, |e.written|, e.conn.txLen);
  }

  lemma WriteGood(e: Endpoint, irs: u32, stream: seq<byte>, data: seq<byte>, contiguous: bool)
    requires Inv(e, irs, stream) && e.conn.open
    ensures Good(e, AfterWrite(e, data, contiguous), {}, irs, stream)
    ensures AfterWrite(e, data, contiguous).una == e.una
  {
    hide W32, Holds, RxWf, TxHolds, RxHolds, AllocLen, RingWrite;
    var n := AfterWrite(e, data, contiguous);
    var k := AllocLen(e.conn, |data|, contiguous);
    InvHolds(e, irs, stream);
    InvHead(e, irs, stream);
    AllocBytesIs(e, irs, stream);
    AppendHolds(e.flow.tx, e.iss, e.una, e.written, data[..k]);
    ModAdd(|e.written|, k, e.conn.txLen);
    BumpFrame(e, n);
  }

  lemma PushGood(e: Endpoint, irs: u32, stream: seq<byte>, k: nat)
    requires Inv(e, irs, stream) && e.conn.open
    ensures Good(e, AfterPush(e, k), {}, irs, stream) && AfterPush(e, k).una == e.una
  {
    hide W32, Holds, RxWf, TxHolds, RxHolds;
    InvHead(e, irs, stream);
    ModDistance(e.sentOff, |e.written|, e.conn.txLen);
    if k <= SendBytes(e.conn) {
      ModAdd(e.sentOff, k, e.conn.txLen);
    }
    BumpFrame(e, AfterPush(e, k));
  }

  /** The bytes the application is handed are the next bytes of the peer's stream. */
  lemma ReadGood(e: Endpoint, irs: u32, stream: seq<byte>, k: nat)
    requires Inv(e, irs, stream) && e.conn.open
    ensures Good(e, AfterRead(e, k), {}, irs, stream) && AfterRead(e, k).una == e.una
  {
    hide W32, Holds, RxWf, TxHolds, RxHolds, RingRead, Advance, RecvdBytes, TxInv, BumpInv;
    InvFreed(e, irs, stream);
    var h := |e.handed|;
    var len := e.conn.rxLen;
    RecvdIs(e, irs, stream);
    if k <= RecvdBytes(e.conn) {
      AdvanceMod(h, k, len);
      ReadHolds(e.flow.rx.ring, stream, FreedOff(e), e.rcv, h, k);
      assert stream[..h] + stream[h..h + k] == stream[..h + k];
    }
    BumpFrame(e, AfterRead(e, k));
    TxFrame(e, AfterRead(e, k));
  }

  /** The library counts the announced bytes that are not freed, unless they fill the ring. */
  lemma RecvdIs(e: Endpoint, irs: u32, stream: seq<byte>)
    requires Inv(e, irs, stream) && e.conn.open
    ensures var n := e.delivered - |e.handed|;
            0 <= n <= |e.flow.rx.ring| && RecvdBytes(e.conn) == if n < |e.flow.rx.ring| then n else 0
  {
    hide W32, Holds, TxHolds, RxHolds, TxInv, BumpInv;
    InvFreed(e, irs, stream);
    var h, len := |e.handed|, e.conn.rxLen;
    if e.delivered - h < len {
      ModDistance(h, e.delivered, len);
    } else {
      ModAdd(h, len, len);
    }
  }

  /** The transmit half does not depend on the receive half. */
  lemma TxFrame(e: Endpoint, n: Endpoint)
    requires EndpointWf(e) && TxInv(e) && EndpointWf(n)
    requires n.flow.tx == e.flow.tx && n.iss == e.iss && n.una == e.una && n.written == e.written
    requires n.sentOff == e.sentOff && n.tail == e.tail && n.notifs == e.notifs
    requires n.conn.txHead == e.conn.txHead && n.conn.txAlloc == e.conn.txAlloc && n.conn.txTail == e.conn.txTail
    requires n.conn.open == e.conn.open
    ensures TxInv(n)
  {
  }

  lemma ToldBumps(e: Endpoint, irs: u32, stream: seq<byte>)
    requires Inv(e, irs, stream) && e.conn.open
    ensures EndpointWf(AfterTell(e)) && BumpInv(AfterTell(e))
  {
    hide W32, Holds, RxWf, TxHolds, RxHolds;
    var n := AfterTell(e);
    InvHead(e, irs, stream);
    SeqGap(0, |e.bumps|, |e.bumps| + 1);
    forall i | 0 <= i < |n.bumps|
      ensures BumpRecOk(n, i)
    {
      if i < |e.bumps| {
        assert n.bumps[i] == e.bumps[i] && BumpRecOk(e, i);
      }
    }
    ToldMonotone(e);
    if e.last >= 0 {
      assert BumpRecOk(e, e.last);
    }
  }

  lemma ToldMonotone(e: Endpoint)
    requires EndpointWf(e) && BumpInv(e)
    ensures Monotone(AfterTell(e).bumps)
  {
    hide W32, RxWf, TxWf;
    var n := AfterTell(e);
    forall i, j {:trigger n.bumps[i], n.bumps[j]} | 0 <= i <= j < |n.bumps|
      ensures n.bumps[i].head <= n.bumps[j].head && n.bumps[i].read <= n.bumps[j].read
    {
      if i < |e.bumps| {
        assert BumpRecOk(e, i) && n.bumps[i] == e.bumps[i];
        if j < |e.bumps| {
          assert n.bumps[j] == e.bumps[j];
        }
      }
    }
  }

  lemma TellGood(e: Endpoint, irs: u32, stream: seq<byte>)
    requires Inv(e, irs, stream) && e.conn.open
    ensures Good(e, AfterTell(e), {}, irs, stream) && AfterTell(e).una == e.una
  {
    hide W32, Holds, RxWf, TxHolds, RxHolds, BumpInv;
    ToldBumps(e, irs, stream);
  }
}
