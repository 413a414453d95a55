/** What the fast path sends, and what it takes from a segment, in every step of every run. The results are stated
    by the states before and after and by the segments in the network, in stream offsets. */
module ProtocolReplies {
  import opened Word
  import opened Ring
  import opened TcpCommon
  import opened FlowOps
  import opened StreamHalves
  import opened Protocol
  import opened ProtocolInv
  import opened ProtocolRuns

  /** A segment that carries `data` from the send position on and the receive state of `e`. */
  function FlightNow(e: Endpoint, irs: u32, ece: bool, data: seq<byte>): Flight
    requires |data| < TWO16
  {
    var wnd := Min(0xFFFF, e.flow.rx.avail);
    Flight(Seg(W32(e.iss + NextOff(e)), W32(irs + e.rcv), true, ece, wnd, data), NextOff(e), e.rcv)
  }

  /** Bytes that may be sent: those handed over and unsent, capped by the peer's window less what is in flight. */
  function CanSend(e: Endpoint): int
    requires EndpointWf(e)
  {
    Min(HeadOff(e) - NextOff(e), W32(e.flow.tx.remoteAvail - e.flow.tx.sent))
  }

  /** The segment acknowledges what is acknowledged already, and carries nothing. */
  predicate Repeats(e: Endpoint, fl: Flight) {
    fl.seg.isAck && fl.ackOff == e.una && fl.seg.payload == []
  }

  /** The third in a row of those. */
  predicate RepeatsThird(e: Endpoint, fl: Flight) {
    Repeats(e, fl) && W32(e.flow.dupacks + 1) >= 3
  }

  // ------------------------------------------------------------ steps of a run

  /** A step of the left endpoint. */
  lemma LeftStep(run: seq<System>, acts: seq<(bool, Action)>, k: nat)
    requires IsRun(run, acts) && k < |acts| && acts[k].0
    ensures SystemInv(run[k]) && SystemInv(run[k + 1])
    ensures CanStep(run[k], true, acts[k].1) && run[k + 1] == Step(run[k], true, acts[k].1)
  {
    hide Init, SystemInv, CanStart, CanStep, Step;
    RunInv(run, acts, k);
    RunInv(run, acts, k + 1);
    assert Follows(run[k], acts[k], run[k + 1]);
    StepInv(run[k], true, acts[k].1);
  }

  lemma ReceiveStep(run: seq<System>, acts: seq<(bool, Action)>, k: nat)
    requires IsRun(run, acts) && k < |acts| && acts[k].0 && acts[k].1.Receive?
    ensures var s, act := run[k], acts[k].1;
            && SystemInv(s) && SystemInv(run[k + 1])
            && Arrives(s.a, s.b.iss, Offered(s.b), act.fl)
            && var (n, out) := AfterReceive(s.a, act.fl, act.ce, act.lost);
               run[k + 1] == System(n, s.b, s.toA, s.toB + out)
  {
    hide Init, SystemInv, AfterReceive, Inv, TxInv, Offered;
    LeftStep(run, acts, k);
    SegmentArrives(run[k], acts[k].1);
  }

  // ------------------------------------------------------------ replies

  lemma PureIs(e: Endpoint, irs: u32, stream: seq<byte>, ece: bool)
    requires Inv(e, irs, stream)
    ensures Fly(e, Pure(e.flow, ece), NextOff(e)) == FlightNow(e, irs, ece, [])
  {
    hide W32, Holds, RxWf, TxHolds, RxHolds, BumpInv;
    NextSeqIs(e);
    InvAck(e, irs, stream);
  }

  /** Whoever receives payload acknowledges it, be it new, old, early or beyond the window: the segment carries no
      payload, the receive position and the window of the new state, and the mark of the segment received. A segment
      without payload is not answered. */
  lemma PayloadAcknowledged(run: seq<System>, acts: seq<(bool, Action)>, k: nat)
    requires IsRun(run, acts) && k < |acts| && acts[k].0 && acts[k].1.Receive?
    ensures var act, n, irs := acts[k].1, run[k + 1].a, run[k].b.iss;
            run[k + 1].toB
            == run[k].toB + if act.fl.seg.payload != [] then {FlightNow(n, irs, act.ce, [])} else {}
  {
    hide Init, Inv, TxInv, Offered, Packet, FlightNow, Pure, Genuine;
    ReceiveStep(run, acts, k);
    var s, act := run[k], acts[k].1;
    SystemParts(run[k + 1]);
    PacketReply(s.a.flow, act.fl.seg, act.ce);
    PureIs(run[k + 1].a, s.b.iss, Offered(s.b), act.ce);
  }

  // ------------------------------------------------------------ acknowledgements

  /** The acknowledgement of a segment against the stream. */
  lemma AckStepIs(f: Flow, p: Segment, iss: u32, una: int, written: seq<byte>, x: int)
    requires FlowWf(f) && TxHolds(f.tx, iss, una, written)
    requires una - TWO31 < x <= HeadOf(f.tx, una) && p.ack == W32(iss + x)
    ensures var r := AckStep(f, p);
            var repeats := p.isAck && x == una && p.payload == [];
            var third := repeats && W32(f.dupacks + 1) >= 3;
            var new' := p.isAck && x > una;
            && r.stop == third
            && r.bump == (if new' then x - una else 0)
            && r.flow.tx.sent == (if third then 0 else if new' then Max(una + f.tx.sent - x, 0) else f.tx.sent)
            && r.flow.dupacks == (if new' || third then 0 else if repeats then W32(f.dupacks + 1) else f.dupacks)
            && r.flow.drops == (if third then W32(f.drops + 1) else f.drops)
            && r.flow.rate == (if third && f.drops == 0 then f.rate / 2 else f.rate)
            && r.flow.tx.remoteAvail == f.tx.remoteAvail
  {
    hide W32, Holds, TxHolds, Rewind, Acked, ValidRxAck;
    if p.isAck {
      GenuineAck(f.tx, iss, una, written, x);
      if x >= una {
        AckedFields(f.tx, x - una);
        RewindFields(Acked(f.tx, x - una));
      }
    }
  }

  lemma AckedFields(tx: Tx, b: u32)
    requires TxWf(tx) && b <= tx.sent + TxBuffered(tx)
    ensures var r := Acked(tx, b);
            r.sent == Max(tx.sent - b, 0) && r.remoteAvail == tx.remoteAvail
  {
  }

  lemma RewindFields(tx: Tx)
    requires TxWf(tx)
    ensures var r := Rewind(tx);
            r.sent == 0 && r.remoteAvail == tx.remoteAvail && r.ring == tx.ring
  {
  }

  /** What a received segment does to the send half. The first unacknowledged byte moves forward to the one
      acknowledged, never back; an acknowledgement of bytes not sent moves the send position along. An acknowledgement
      of what is acknowledged already, without payload, is counted, and the third in a row goes back to the first
      unacknowledged byte and halves the rate if it is the first drop; nothing else touches these. */
  lemma AckTaken(run: seq<System>, acts: seq<(bool, Action)>, k: nat)
    requires IsRun(run, acts) && k < |acts| && acts[k].0 && acts[k].1.Receive?
    ensures var e, n, fl := run[k].a, run[k + 1].a, acts[k].1.fl;
            var third := RepeatsThird(e, fl);
            && EndpointWf(e) && EndpointWf(n)
            && n.una == (if fl.seg.isAck then Max(e.una, fl.ackOff) else e.una)
            && NextOff(n) == (if third then n.una else Max(NextOff(e), n.una))
            && HeadOff(n) == HeadOff(e)
            && n.flow.dupacks == (if n.una > e.una || third then 0
                                  else if Repeats(e, fl) then W32(e.flow.dupacks + 1) else e.flow.dupacks)
            && n.flow.drops == (if third then W32(e.flow.drops + 1) else e.flow.drops)
            && n.flow.rate == (if third && e.flow.drops == 0 then e.flow.rate / 2 else e.flow.rate)
  {
    hide Init, SystemInv, Inv, TxInv, W32, TxHolds, RxHolds, RxWf, TxWf, Packet, AckStep, RxStep, Offered, HeadOf;
    ReceiveStep(run, acts, k);
    SystemParts(run[k]);
    SystemParts(run[k + 1]);
    var s, act := run[k], acts[k].1;
    var e := s.a;
    InvHolds(e, s.b.iss, Offered(s.b));
    InvHead(e, s.b.iss, Offered(s.b));
    AckStepIs(e.flow, act.fl.seg, e.iss, e.una, e.written, act.fl.ackOff);
    PacketSendHalf(e.flow, act.fl.seg, act.ce);
    PacketHolds(e, s.b.iss, Offered(s.b), act.fl, act.ce);
  }

  /** Payload does not touch the send half, but for the peer's window. */
  lemma PacketSendHalf(f: Flow, p: Segment, ce: bool)
    requires FlowWf(f) && Trimmable(f.rx, p.sn, |p.payload|)
    ensures var r, a := Packet(f, p, ce), AckStep(f, p);
            && r.txBump == a.bump && r.flow.tx.sent == a.flow.tx.sent
            && r.flow == a.flow.(rx := r.flow.rx, tx := r.flow.tx)
  {
    hide AckStep, RxStep, Available;
  }

  /** The peer's window is taken from a segment if and only if its first byte is not beyond the next expected one and
      its last is not before it, so from an old segment without payload never, and from the third repetition never. */
  lemma WindowTaken(run: seq<System>, acts: seq<(bool, Action)>, k: nat)
    requires IsRun(run, acts) && k < |acts| && acts[k].0 && acts[k].1.Receive?
    ensures var e, n, fl := run[k].a, run[k + 1].a, acts[k].1.fl;
            n.flow.tx.remoteAvail
            == if fl.off <= e.rcv <= fl.off + |fl.seg.payload| && !RepeatsThird(e, fl) then fl.seg.wnd
               else e.flow.tx.remoteAvail
  {
    hide Init, SystemInv, Inv, TxInv, W32, TxHolds, RxHolds, RxWf, TxWf, Packet, AckStep, RxStep, HeadOf, Trimmable;
    hide Offered;
    ReceiveStep(run, acts, k);
    SystemParts(run[k]);
    var s, act := run[k], acts[k].1;
    var e, stream := s.a, Offered(s.b);
    InvHolds(e, s.b.iss, stream);
    InvFreed(e, s.b.iss, stream);
    AckStepIs(e.flow, act.fl.seg, e.iss, e.una, e.written, act.fl.ackOff);
    InOrderIs(e.flow.rx, s.b.iss, e.rcv, stream, act.fl.off, |act.fl.seg.payload|);
    PacketWindow(e.flow, act.fl.seg, act.ce);
  }

  lemma PacketWindow(f: Flow, p: Segment, ce: bool)
    requires FlowWf(f) && Trimmable(f.rx, p.sn, |p.payload|)
    ensures var r, a := Packet(f, p, ce), AckStep(f, p);
            r.flow.tx.remoteAvail
            == if !a.stop && RxStep(f.rx, p.sn, p.payload).inOrder then p.wnd else a.flow.tx.remoteAvail
  {
    hide AckStep, RxStep, Available;
  }

  /** A segment counts as in order if the next expected byte is in it or at one of its ends. */
  lemma InOrderIs(rx: Rx, irs: u32, rcv: int, stream: seq<byte>, off: int, n: int)
    requires RxHolds(rx, irs, rcv, stream)
    requires 0 <= off && 0 <= n < TWO16 && off + n <= |stream|
    requires -TWO31 < off - rcv < TWO31 && Trimmable(rx, W32(irs + off), n)
    ensures RxStep(rx, W32(irs + off), stream[off..off + n]).inOrder <==> off <= rcv <= off + n
  {
    hide W32, Holds, RxStep, OooStep, InOrderStep, TrimCorner, RxHolds, RxWf;
    RxHoldsBounds(rx, irs, rcv, stream);
    SeqRebase(irs, rcv, off - rcv);
    RxStepByDistance(rx, W32(irs + off), stream[off..off + n], off - rcv);
  }

  // ------------------------------------------------------------ payload

  /** Without an interval, in-order bytes move the receive position over them. */
  lemma InOrderAlone(rx: Rx, irs: u32, rcv: int, stream: seq<byte>, n: int)
    requires RxHolds(rx, irs, rcv, stream) && rx.oooLen == 0
    requires 0 < n <= rx.avail && rcv + n <= |stream|
    ensures var r := InOrderStep(rx, stream[rcv..rcv + n]);
            r.1 == n && r.0.oooLen == 0
  {
    hide W32, Holds, RingWrite, OooCatchUp;
    RxHoldsBounds(rx, irs, rcv, stream);
    var w := rx.(ring := RingWrite(rx.ring, rx.nextPos, stream[rcv..rcv + n]));
    AbsorbCatchingUp(w, n);
    NothingToCatchUp(Absorb(w, n), n);
  }

  /** What becomes of payload: `end` is the end of what fits the window. */
  ghost predicate PayloadGoes(rx: Rx, rcv: int, rx': Rx, rcv': int, off: int, n: int) {
    var end := Min(off + n, rcv + rx.avail);
    var o, o' := rcv + OooDist(rx), rcv' + OooDist(rx');
    if off <= rcv < end then
      if rx.oooLen == 0 then
        rcv' == end && rx'.oooLen == 0
      else if end < o then
        rcv' == end && o' == o && rx'.oooLen == rx.oooLen
      else
        && rcv' == (if end < o + rx.oooLen && end - o <= W16(rx.oooLen) then o + rx.oooLen else end)
        && rx'.oooLen == 0
    else if rcv < off < end && (rx.oooLen == 0 || end == o || off == o + rx.oooLen) then
      && rcv' == rcv
      && o' == (if rx.oooLen == 0 then off else Min(off, o))
      && o' + rx'.oooLen == (if rx.oooLen == 0 then end else Max(end, o + rx.oooLen))
    else
      rx' == rx && rcv' == rcv
  }

  lemma RxStepGoes(rx: Rx, irs: u32, rcv: int, stream: seq<byte>, off: int, n: int)
    requires RxHolds(rx, irs, rcv, stream)
    requires 0 <= off && 0 <= n < TWO16 && off + n <= |stream|
    requires -TWO31 < off - rcv < TWO31 && Trimmable(rx, W32(irs + off), n)
    ensures var r := RxStep(rx, W32(irs + off), stream[off..off + n]);
            PayloadGoes(rx, rcv, r.rx, rcv + r.bump, off, n)
  {
    hide W32, Holds, RxStep, OooStep, InOrderStep, TrimCorner, RxHolds, RxWf, OooDist;
    RxHoldsBounds(rx, irs, rcv, stream);
    var d := off - rcv;
    SeqRebase(irs, rcv, d);
    RxStepByDistance(rx, W32(irs + off), stream[off..off + n], d);
    if -n <= d <= rx.avail {
      var s, t := Max(0, -d), Max(0, d + n - rx.avail);
      SliceSlice(stream, off, n, s, n - t);
      if d > 0 {
        AheadGoes(rx, irs, rcv, stream, off, n - t);
      } else {
        NextGoes(rx, irs, rcv, stream, n - s - t);
      }
    }
  }

  lemma NextGoes(rx: Rx, irs: u32, rcv: int, stream: seq<byte>, m: int)
    requires RxHolds(rx, irs, rcv, stream)
    requires 0 <= m <= rx.avail && rcv + m <= |stream|
    ensures var r := InOrderStep(rx, stream[rcv..rcv + m]);
            var rcv' := rcv + r.1;
            var o, o' := rcv + OooDist(rx), rcv' + OooDist(r.0);
            if m == 0 then
              r == (rx, 0)
            else if rx.oooLen == 0 then
              r.1 == m && r.0.oooLen == 0
            else if rcv + m < o then
              r.1 == m && o' == o && r.0.oooLen == rx.oooLen
            else
              && rcv' == (if rcv + m < o + rx.oooLen && rcv + m - o <= W16(rx.oooLen) then o + rx.oooLen else rcv + m)
              && r.0.oooLen == 0
  {
    hide W32, Holds, InOrderStep, RxHolds, RxWf, OooDist;
    RxHoldsBounds(rx, irs, rcv, stream);
    if m == 0 {
      InOrderNothing(rx, stream[rcv..rcv + m]);
    } else if rx.oooLen == 0 {
      InOrderAlone(rx, irs, rcv, stream, m);
    } else {
      InOrderCatchesUp(rx, irs, rcv, stream, m);
    }
  }

  lemma InOrderNothing(rx: Rx, data: seq<byte>)
    requires RxWf(rx) && data == []
    ensures InOrderStep(rx, data) == (rx, 0)
  {
  }

  lemma AheadGoes(rx: Rx, irs: u32, rcv: int, stream: seq<byte>, off: int, m: int)
    requires RxHolds(rx, irs, rcv, stream) && 0 <= m < TWO16
    requires rcv < off && off + m <= rcv + rx.avail && off + m <= |stream|
    ensures W32(irs + off) != rx.nextSeq && Sub32(W32(irs + off), rx.nextSeq) + m <= rx.avail
    ensures var r := OooStep(rx, W32(irs + off), stream[off..off + m]);
            var o, o' := rcv + OooDist(rx), rcv + OooDist(r);
            if m == 0 then r == rx
            else if rx.oooLen == 0 || off + m == o || off == o + rx.oooLen then
              && o' == (if rx.oooLen == 0 then off else Min(off, o))
              && o' + r.oooLen == (if rx.oooLen == 0 then off + m else Max(off + m, o + rx.oooLen))
            else r == rx
  {
    hide W32, Holds, OooStep, RxHolds, RxWf, OooDist;
    OooStepHolds(rx, irs, rcv, stream, off, m);
    RxHoldsBounds(rx, irs, rcv, stream);
    if m > 0 {
      OooStepStores(rx, irs, rcv, stream, off, m);
    } else {
      OooStepNothing(rx, W32(irs + off), stream[off..off + m]);
    }
  }

  lemma OooStepNothing(rx: Rx, sn: u32, data: seq<byte>)
    requires RxWf(rx) && data == []
    requires sn != rx.nextSeq && Sub32(sn, rx.nextSeq) <= rx.avail
    ensures OooStep(rx, sn, data) == rx
  {
  }

  /** What a received segment does to the receive half. In-order bytes move the receive position over all of them
      that fit, and over the out-of-order interval as far as that is taken along; bytes ahead start the interval or
      extend it at one of its ends; anything else changes nothing. The window shrinks by as much as arrives. */
  lemma PayloadTaken(run: seq<System>, acts: seq<(bool, Action)>, k: nat)
    requires IsRun(run, acts) && k < |acts| && acts[k].0 && acts[k].1.Receive?
    ensures var e, n, fl := run[k].a, run[k + 1].a, acts[k].1.fl;
            && PayloadGoes(e.flow.rx, e.rcv, n.flow.rx, n.rcv, fl.off, |fl.seg.payload|)
            && n.flow.rx.avail + n.rcv == e.flow.rx.avail + e.rcv
            && |n.flow.rx.ring| == |e.flow.rx.ring|
  {
    hide Init, SystemInv, Inv, TxInv, W32, TxHolds, RxHolds, RxWf, TxWf, Packet, AckStep, RxStep, HeadOf, Trimmable;
    hide Offered, PayloadGoes;
    ReceiveStep(run, acts, k);
    SystemParts(run[k]);
    var s, act := run[k], acts[k].1;
    var e, stream := s.a, Offered(s.b);
    InvHolds(e, s.b.iss, stream);
    InvFreed(e, s.b.iss, stream);
    AckStepIs(e.flow, act.fl.seg, e.iss, e.una, e.written, act.fl.ackOff);
    PacketParts(e.flow, act.fl.seg, act.ce);
    PacketHolds(e, s.b.iss, stream, act.fl, act.ce);
    if AckStep(e.flow, act.fl.seg).stop {
      EmptyGoes(e.flow.rx, e.rcv, act.fl.off);
    } else {
      RxStepGoes(e.flow.rx, s.b.iss, e.rcv, stream, act.fl.off, |act.fl.seg.payload|);
    }
  }

  lemma EmptyGoes(rx: Rx, rcv: int, off: int)
    ensures PayloadGoes(rx, rcv, rx, rcv, off, 0)
  {
  }

  // ------------------------------------------------------------ counters

  lemma AckCounts(f: Flow, p: Segment)
    requires FlowWf(f)
    ensures var r := AckStep(f, p);
            && r.flow.acks == (if p.isAck then W32(f.acks + 1) else f.acks)
            && r.flow.ecn == (if p.isAck && p.ece then W32(f.ecn + 1) else f.ecn)
            && r.flow.ackBytes == W32(f.ackBytes + r.bump)
  {
    hide Rewind, Acked, ValidRxAck, BufAvail;
  }

  /** What congestion control is told of a segment: that it is an acknowledgement, that it echoes a mark, and how far
      it moves the first unacknowledged byte. */
  lemma ReceiveCounts(run: seq<System>, acts: seq<(bool, Action)>, k: nat)
    requires IsRun(run, acts) && k < |acts| && acts[k].0 && acts[k].1.Receive?
    ensures var e, n, p := run[k].a, run[k + 1].a, acts[k].1.fl.seg;
            && n.flow.acks == (if p.isAck then W32(e.flow.acks + 1) else e.flow.acks)
            && n.flow.ecn == (if p.isAck && p.ece then W32(e.flow.ecn + 1) else e.flow.ecn)
            && n.flow.ackBytes == W32(e.flow.ackBytes + (n.una - e.una))
  {
    hide Init, SystemInv, Inv, TxInv, W32, TxHolds, RxHolds, RxWf, TxWf, Packet, AckStep, RxStep, HeadOf, Trimmable;
    hide Offered;
    ReceiveStep(run, acts, k);
    SystemParts(run[k]);
    var s, act := run[k], acts[k].1;
    AckCounts(s.a.flow, act.fl.seg);
    PacketSendHalf(s.a.flow, act.fl.seg, act.ce);
  }

  /** No other action touches these counters or the first unacknowledged byte. */
  lemma OthersCountNothing(e: Endpoint, inbox: set<Flight>, act: Action)
    requires EndpointWf(e) && Enabled(e, inbox, act) && Ready(e, act) && !act.Receive?
    ensures var n := Do(e, inbox, act).0;
            n.flow.acks == e.flow.acks && n.flow.ecn == e.flow.ecn && n.flow.ackBytes == e.flow.ackBytes
            && n.una == e.una
  {
    hide W32, Available, RingRead, RingWrite, Advance, BumpIsNew, HeadOk, TailOk, Freed, Rewind, RxWf, TxWf;
  }

  /** In every run the counter of acknowledged bytes is the number of bytes acknowledged, up to wrap-around. */
  lemma {:induction false} AckBytesAreAcked(run: seq<System>, acts: seq<(bool, Action)>, k: nat)
    requires IsRun(run, acts) && k < |run|
    ensures run[k].a.flow.ackBytes == W32(run[0].a.flow.ackBytes + run[k].a.una)
  {
    hide SystemInv, EndpointWf, Enabled, Ready, Do, W32;
    if k == 0 {
      FirstCount(run[0].a.flow.ackBytes);
    } else {
      AckBytesAreAcked(run, acts, k - 1);
      if acts[k - 1].0 {
        LeftStep(run, acts, k - 1);
        var e, n := run[k - 1].a, run[k].a;
        if acts[k - 1].1.Receive? {
          ReceiveCounts(run, acts, k - 1);
          W32Shift(run[0].a.flow.ackBytes + e.una, n.una - e.una);
        } else {
          OthersCountNothing(e, run[k - 1].toA, acts[k - 1].1);
        }
      } else {
        RightStep(run, acts, k - 1);
      }
    }
  }

  lemma FirstCount(n: u32)
    ensures W32(n + 0) == n
  {
  }

  /** A step of the right endpoint leaves the left one alone. */
  lemma RightStep(run: seq<System>, acts: seq<(bool, Action)>, k: nat)
    requires IsRun(run, acts) && k < |acts| && !acts[k].0
    ensures SystemInv(run[k]) && SystemInv(run[k + 1])
    ensures CanStep(run[k], false, acts[k].1) && run[k + 1] == Step(run[k], false, acts[k].1)
    ensures run[k + 1].a == run[k].a && run[k].toB == run[k + 1].toB && run[k].toA <= run[k + 1].toA
  {
    hide Init, SystemInv, CanStart, EndpointWf, Enabled, Ready, Do;
    RunInv(run, acts, k);
    RunInv(run, acts, k + 1);
    assert Follows(run[k], acts[k], run[k + 1]);
    StepInv(run[k], false, acts[k].1);
  }

  // ------------------------------------------------------------ sending

  lemma AvailableIs(e: Endpoint)
    requires EndpointWf(e)
    ensures Available(e.flow.tx) == CanSend(e)
  {
    hide BufAvail;
  }

  lemma TransmitLength(f: Flow)
    requires FlowWf(f)
    ensures Transmit(f).Some? <==> Available(f.tx) > 0
    ensures Transmit(f).Some? ==>
              && |Transmit(f).value.1.payload| == Min(Available(f.tx), TCP_MSS)
              && TransmitFrame(f, Transmit(f).value.0)
  {
    hide Available, Advance;
  }

  /** Only the send position moves. */
  ghost predicate TransmitFrame(f: Flow, g: Flow) {
    && g == f.(tx := g.tx)
    && g.tx == f.tx.(nextSeq := g.tx.nextSeq, nextPos := g.tx.nextPos, sent := g.tx.sent)
  }

  /** A segment is sent if and only if something may be sent. It carries as much of that as a segment holds, from the
      send position on, and the receive state; the send position moves behind it, and nothing else changes. */
  lemma SendExact(run: seq<System>, acts: seq<(bool, Action)>, k: nat)
    requires IsRun(run, acts) && k < |run|
    ensures var s := run[k];
            && SystemInv(s)
            && (Enabled(s.a, s.toA, Send) <==> CanSend(s.a) > 0)
            && (k < |acts| && acts[k] == (true, Send) ==>
                  var e, n := s.a, run[k + 1].a;
                  var off, len := NextOff(e), Min(CanSend(e), 1448);
                  && 0 <= off && 0 < len && off + len <= HeadOff(e) <= |e.written|
                  && run[k + 1] == System(n, s.b, s.toA,
                                          s.toB + {FlightNow(e, s.b.iss, false, e.written[off..off + len])})
                  && NextOff(n) == off + len && n == e.(flow := n.flow) && TransmitFrame(e.flow, n.flow))
  {
    hide Init, SystemInv, Inv, TxInv, W32, TxHolds, RxHolds, RxWf, Transmit, Offered, Available, CanSend, Genuine;
    RunInv(run, acts, k);
    SystemParts(run[k]);
    AvailableIs(run[k].a);
    TransmitLength(run[k].a.flow);
    if k < |acts| && acts[k] == (true, Send) {
      LeftStep(run, acts, k);
      var s := run[k];
      InvHolds(s.a, s.b.iss, Offered(s.b));
      InvHead(s.a, s.b.iss, Offered(s.b));
      TransmitHolds(s.a.flow, s.a.iss, s.a.una, s.a.written);
      TransmitReceiveState(s.a.flow);
      InvAck(s.a, s.b.iss, Offered(s.b));
    }
  }

  lemma TransmitReceiveState(f: Flow)
    requires FlowWf(f) && Transmit(f).Some?
    ensures var p := Transmit(f).value.1;
            p.ack == f.rx.nextSeq && p.isAck && !p.ece && p.wnd == Min(0xFFFF, f.rx.avail)
  {
    hide Available, Advance, RingRead;
  }

  // ------------------------------------------------------------ timeouts

  /** After a timeout the send position is the first unacknowledged byte, so that the next segment starts there, and
      the end of what may be sent is kept. If something was in flight, a drop is counted, the rate is halved at the
      first drop, and duplicates are counted anew; else nothing changes. */
  lemma TimeoutRewinds(run: seq<System>, acts: seq<(bool, Action)>, k: nat)
    requires IsRun(run, acts) && k < |acts| && acts[k] == (true, Timeout)
    ensures var e, n := run[k].a, run[k + 1].a;
            && EndpointWf(e) && EndpointWf(n)
            && NextOff(n) == n.una == e.una && HeadOff(n) == HeadOff(e)
            && n == e.(flow := n.flow) && n.flow.rx == e.flow.rx
            && n.flow.tx.remoteAvail == e.flow.tx.remoteAvail && n.flow.tx.ring == e.flow.tx.ring
            && (if e.flow.tx.sent == 0 then n == e
                else
                  && n.flow.drops == W32(e.flow.drops + 1) && n.flow.dupacks == 0
                  && n.flow.rate == if e.flow.drops == 0 then e.flow.rate / 2 else e.flow.rate)
            && run[k + 1].toB == run[k].toB
  {
    hide Init, SystemInv, Inv, TxInv, W32, TxHolds, RxHolds, RxWf, Rewind, Offered, Available, Genuine;
    LeftStep(run, acts, k);
    SystemParts(run[k]);
    SystemParts(run[k + 1]);
    var s := run[k];
    var e := s.a;
    InvHolds(e, s.b.iss, Offered(s.b));
    RewindHolds(e.flow.tx, e.iss, e.una, e.written);
    RewindFields(e.flow.tx);
    assert Do(e, s.toA, Timeout) == (AfterTimeout(e), {});
  }

  /** The segment sent next after a timeout carries the stream from the first unacknowledged byte on. */
  lemma ResendsFromUna(run: seq<System>, acts: seq<(bool, Action)>, k: nat)
    requires IsRun(run, acts) && k + 1 < |acts| && acts[k] == (true, Timeout) && acts[k + 1] == (true, Send)
    ensures var e, n := run[k].a, run[k + 1].a;
            && EndpointWf(e)
            && var len := Min(Min(HeadOff(e) - e.una, e.flow.tx.remoteAvail), 1448);
               && 0 <= e.una && 0 < len && e.una + len <= |e.written|
               && var fl := FlightNow(n, run[k].b.iss, false, e.written[e.una..e.una + len]);
                  fl.off == e.una && run[k + 2].toB == run[k].toB + {fl}
  {
    hide Init, Follows, SystemInv, FlowWf, HeadOf;
    TimeoutRewinds(run, acts, k);
    SendExact(run, acts, k + 1);
    FirstCount(run[k].a.flow.tx.remoteAvail);
    TimeoutKeepsPeer(run, acts, k);
  }

  lemma TimeoutKeepsPeer(run: seq<System>, acts: seq<(bool, Action)>, k: nat)
    requires IsRun(run, acts) && k < |acts| && acts[k] == (true, Timeout)
    ensures run[k + 1].b == run[k].b
  {
    hide Init, SystemInv, EndpointWf, Enabled, Do;
    LeftStep(run, acts, k);
  }

  // ------------------------------------------------------------ window updates

  lemma BumpUpdates(e: Endpoint, i: int)
    requires EndpointWf(e) && 0 <= i < |e.bumps| && ApplyOk(e, i)
    ensures var r := Bump(e.flow, e.bumps[i].wire.bumpSeq, e.bumps[i].wire.rxTail, e.bumps[i].wire.txHead);
            && (r.applied <==> BumpIsNew(e.bumps[i].wire.bumpSeq, e.flow.bumpSeq))
            && r.update == if r.applied && e.flow.rx.avail == 0 && r.flow.rx.avail > 0 && Available(r.flow.tx) == 0
                           then Some(Pure(r.flow, false)) else None
  {
    hide BumpIsNew, HeadOk, TailOk, Freed, Available;
  }

  /** A bump makes the fast path send at most a window update: if and only if it is applied, the window was closed and
      is open now, and nothing may be sent that would carry the new window. */
  lemma WindowUpdate(run: seq<System>, acts: seq<(bool, Action)>, k: nat)
    requires IsRun(run, acts) && k < |acts| && acts[k].0 && acts[k].1.Apply?
    ensures var e, n, i := run[k].a, run[k + 1].a, acts[k].1.i;
            && EndpointWf(n)
            && run[k + 1].toB
               == run[k].toB + if i > e.last && e.flow.rx.avail == 0 && n.flow.rx.avail > 0 && CanSend(n) == 0
                               then {FlightNow(n, run[k].b.iss, false, [])} else {}
  {
    hide Init, SystemInv, Inv, TxInv, Offered, FlightNow, Pure, BumpIsNew, HeadOk, TailOk, Available, CanSend, W32;
    hide RxWf, TxWf, Bump, Genuine;
    LeftStep(run, acts, k);
    SystemParts(run[k]);
    SystemParts(run[k + 1]);
    var s, i := run[k], acts[k].1.i;
    var n := run[k + 1].a;
    ApplyReady(s.a, s.b.iss, Offered(s.b), i);
    BumpUpdates(s.a, i);
    DoApply(s.a, s.toA, i);
    AvailableIs(n);
    PureIs(n, s.b.iss, Offered(s.b), false);
  }

  // ------------------------------------------------------------ fast retransmit, end to end

  /** Segments stay in the network. */
  lemma {:induction false} NetworkKeeps(run: seq<System>, acts: seq<(bool, Action)>, j: nat, k: nat)
    requires IsRun(run, acts) && j <= k < |run|
    ensures run[j].toB <= run[k].toB
    decreases k
  {
    hide Init, SystemInv, Enabled, Do, EndpointWf;
    if j < k {
      NetworkKeeps(run, acts, j, k - 1);
      if acts[k - 1].0 {
        LeftStep(run, acts, k - 1);
      } else {
        RightStep(run, acts, k - 1);
      }
    }
  }

  /** Step `i` is the arrival of payload at the left endpoint after which it still waits for byte `x`. */
  ghost predicate ArrivesAhead(run: seq<System>, acts: seq<(bool, Action)>, i: nat, x: int)
    requires |run| == |acts| + 1
  {
    && i < |acts| && acts[i].0 && acts[i].1.Receive? && acts[i].1.fl.seg.payload != []
    && run[i + 1].a.rcv == x
  }

  /** The acknowledgement that answers it. */
  ghost function Answer(run: seq<System>, acts: seq<(bool, Action)>, i: nat, x: int): Flight
    requires |run| == |acts| + 1 && ArrivesAhead(run, acts, i, x)
  {
    FlightNow(run[i + 1].a, run[i].b.iss, acts[i].1.ce, [])
  }

  lemma AnswerSent(run: seq<System>, acts: seq<(bool, Action)>, i: nat, x: int, k: nat)
    requires IsRun(run, acts) && ArrivesAhead(run, acts, i, x) && i < k < |run|
    ensures Answer(run, acts, i, x) in run[k].toB
    ensures run[i].b.iss == run[k].b.iss
    ensures var fl := Answer(run, acts, i, x);
            fl.ackOff == x && Duplicate(fl.seg, run[k].b.iss, x)
  {
    hide Init, Follows, SystemInv, Inv, EndpointWf, TxInv, Grown, HeadOff, W32;
    PayloadAcknowledged(run, acts, i);
    NetworkKeeps(run, acts, i + 1, k);
    NothingRegresses(run, acts, i, k);
    SystemParts(run[i]);
    SystemParts(run[k]);
    GrownIss(run[i].b, run[k].b);
  }

  lemma GrownIss(e: Endpoint, n: Endpoint)
    requires EndpointWf(e) && TxInv(e) && EndpointWf(n) && TxInv(n) && Grown(e, n)
    ensures n.iss == e.iss
  {
  }

  /** A step of the right endpoint that receives one of the answers: one more duplicate, and the third goes back. */
  lemma AnswerTaken(run: seq<System>, acts: seq<(bool, Action)>, k: nat, x: int)
    requires IsRun(run, acts) && k < |acts| && !acts[k].0 && acts[k].1.Receive?
    requires run[k].b.una == x && run[k].b.flow.dupacks < 3
    requires var fl := acts[k].1.fl; fl.ackOff == x && Duplicate(fl.seg, run[k].b.iss, x)
    ensures var e, n := run[k].b, run[k + 1].b;
            && EndpointWf(e) && EndpointWf(n)
            && n.una == x && n.iss == e.iss && HeadOff(n) == HeadOff(e)
            && (if e.flow.dupacks < 2 then
                  && n.flow.dupacks == e.flow.dupacks + 1 && NextOff(n) == NextOff(e)
                  && n.flow.rate == e.flow.rate && n.flow.drops == e.flow.drops
                else
                  && n.flow.dupacks == 0 && NextOff(n) == x
                  && n.flow.drops == W32(e.flow.drops + 1)
                  && n.flow.rate == if e.flow.drops == 0 then e.flow.rate / 2 else e.flow.rate)
  {
    hide Init, SystemInv, Inv, TxInv, W32, TxHolds, RxHolds, RxWf, TxWf, Packet, Offered, HeadOf, Trimmable, Genuine;
    hide Duplicate;
    RightStep(run, acts, k);
    SystemParts(run[k]);
    SystemParts(run[k + 1]);
    SwapInv(run[k]);
    var s, act := run[k], acts[k].1;
    SegmentArrives(Swap(s), act);
    InvHolds(s.b, s.a.iss, Offered(s.a));
    DuplicateCounts(s.b.flow, act.fl.seg, act.ce, s.b.iss, x, s.b.written);
    PacketHolds(s.b, s.a.iss, Offered(s.a), act.fl, act.ce);
    DuplicateBump(s.b.flow, act.fl.seg, act.ce, s.b.iss, x, s.b.written);
  }

  lemma DuplicateBump(f: Flow, p: Segment, ce: bool, iss: u32, una: int, written: seq<byte>)
    requires FlowWf(f) && TxHolds(f.tx, iss, una, written) && Duplicate(p, iss, una)
    requires Trimmable(f.rx, p.sn, |p.payload|)
    ensures Packet(f, p, ce).txBump == 0
  {
    hide W32, TxHolds, RxHolds, RxWf, TxWf, Packet, AckStep, RxStep, Trimmable, HeadOf;
    TxHeadAhead(f.tx, iss, una, written);
    AckStepIs(f, p, iss, una, written, una);
    PacketSendHalf(f, p, ce);
  }

  lemma TxHeadAhead(tx: Tx, iss: u32, una: int, written: seq<byte>)
    requires TxHolds(tx, iss, una, written)
    ensures una <= HeadOf(tx, una)
  {
  }

  /** Step `k` is the arrival of segment `fl` at the right endpoint. */
  predicate Hears(acts: seq<(bool, Action)>, k: nat, fl: Flight) {
    k < |acts| && !acts[k].0 && acts[k].1.Receive? && acts[k].1.fl == fl
  }

  /** Payload that arrives three times without helping the receiver on, be it early, repeated or beyond the window,
      makes it send three acknowledgements of the byte it waits for; when these arrive one after the other at a sender
      that has counted no duplicate and has that byte unacknowledged, the sender is back at it, with one drop more and
      the rate halved if that is the first. */
  lemma ThreeAnswersRewind(run: seq<System>, acts: seq<(bool, Action)>, i1: nat, i2: nat, i3: nat, k: nat, x: int)
    requires IsRun(run, acts) && i1 < k && i2 < k && i3 < k && k + 3 <= |acts|
    requires ArrivesAhead(run, acts, i1, x) && ArrivesAhead(run, acts, i2, x) && ArrivesAhead(run, acts, i3, x)
    requires Hears(acts, k, Answer(run, acts, i1, x)) && Hears(acts, k + 1, Answer(run, acts, i2, x))
    requires Hears(acts, k + 2, Answer(run, acts, i3, x))
    requires run[k].b.una == x && run[k].b.flow.dupacks == 0
    ensures {Answer(run, acts, i1, x), Answer(run, acts, i2, x), Answer(run, acts, i3, x)} <= run[k].toB
    ensures var e, n := run[k].b, run[k + 3].b;
            && EndpointWf(e) && EndpointWf(n)
            && NextOff(n) == n.una == x && HeadOff(n) == HeadOff(e)
            && n.flow.dupacks == 0 && n.flow.drops == W32(e.flow.drops + 1)
            && n.flow.rate == if e.flow.drops == 0 then e.flow.rate / 2 else e.flow.rate
  {
    hide IsRun, W32, EndpointWf, HeadOff, FlightNow, Duplicate;
    RunLength(run, acts);
    AnswerSent(run, acts, i1, x, k);
    AnswerSent(run, acts, i2, x, k);
    AnswerSent(run, acts, i3, x, k);
    AnswerTaken(run, acts, k, x);
    AnswerTaken(run, acts, k + 1, x);
    AnswerTaken(run, acts, k + 2, x);
  }

  lemma RunLength(run: seq<System>, acts: seq<(bool, Action)>)
    requires IsRun(run, acts)
    ensures |run| == |acts| + 1
  {
  }

  // ------------------------------------------------------------ the peer's window

  /** Sending stays within the peer's window if and only if what was in flight before did: the room left is a
      difference that wraps around when the window has shrunk below what is in flight. */
  lemma WindowObeyed(run: seq<System>, acts: seq<(bool, Action)>, k: nat)
    requires IsRun(run, acts) && k < |acts| && acts[k] == (true, Send)
    ensures var t, t' := run[k].a.flow.tx, run[k + 1].a.flow.tx;
            t.sent < t'.sent && t'.remoteAvail == t.remoteAvail
            && (t'.sent <= t'.remoteAvail <==> t.sent <= t.remoteAvail)
  {
    hide Init, SystemInv, TxWf, RxWf, HeadOf, FlightNow, W32;
    SendExact(run, acts, k);
    var t := run[k].a.flow.tx;
    W32Range(t.remoteAvail - t.sent);
  }

  /** A fresh flow with a receive ring of four bytes takes the peer's window to be as large. It sends four of five
      bytes; the peer, with room for two, acknowledges these and closes its window. The flow sends the fifth byte
      all the same, with two bytes in flight. */
  lemma WindowOverrun(txRing: seq<byte>)
    requires |txRing| == 8
    ensures var f := Flow(Rx([0, 0, 0, 0], 4, 0, 0, 0, 0), Tx(txRing, 0, 0, 0, 0, 4), 0, 0, 0, 0, 0, 0, 0);
            var p := Seg(0, 2, true, false, 0, []);
            && FlowWf(f) && HeadOk(f.tx, 5) && TailOk(f.rx, 0)
            && var f1 := Bump(f, 0, 0, 5).flow;
            && Transmit(f1).Some?
            && var f2 := Transmit(f1).value.0;
            && f2.tx.sent == 4 && Trimmable(f2.rx, 0, 0)
            && var f3 := Packet(f2, p, false).flow;
            && f3.tx.sent == 2 && f3.tx.remoteAvail == 0
            && Transmit(f3).Some? && Transmit(f3).value.0.tx.sent == 3
  {
    var rx := Rx([0, 0, 0, 0], 4, 0, 0, 0, 0);
    var f := Flow(rx, Tx(txRing, 0, 0, 0, 0, 4), 0, 0, 0, 0, 0, 0, 0);
    assert Freed(rx, 0) == 0;
    var f1 := Bump(f, 0, 0, 5).flow;
    assert f1 == f.(tx := f.tx.(head := 5));
    var f2 := Transmit(f1).value.0;
    assert f2 == f1.(tx := Tx(txRing, 5, 4, 4, 4, 4));
    OverrunAck(f2);
  }

  lemma OverrunAck(f: Flow)
    requires FlowWf(f) && f.rx == Rx([0, 0, 0, 0], 4, 0, 0, 0, 0) && |f.tx.ring| == 8
    requires f.tx == Tx(f.tx.ring, 5, 4, 4, 4, 4)
    ensures Trimmable(f.rx, 0, 0)
    ensures var g := Packet(f, Seg(0, 2, true, false, 0, []), false).flow;
            g.tx == Tx(f.tx.ring, 5, 4, 4, 2, 0)
  {
    hide W32, OooStep, InOrderStep, Rewind;
  }
}
