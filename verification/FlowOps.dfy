/** What the fast path does to one flow record, as functions from record to record. */
module FlowOps {
  import opened Word
  import opened Ring
  import opened TcpCommon

  const TCP_MSS: u16 := 1448

  /** Receive half: ring, window, next expected byte, and one out-of-order interval. */
  datatype Rx = Rx(ring: seq<byte>, avail: u32, nextPos: u32, nextSeq: u32, oooStart: u32, oooLen: u32)

  /** Transmit half: ring, head of the buffered bytes, next byte to send, bytes in flight, peer's window. */
  datatype Tx = Tx(ring: seq<byte>, head: u32, nextPos: u32, nextSeq: u32, sent: u32, remoteAvail: u32)

  datatype Flow = Flow(
    rx: Rx, tx: Tx,
    dupacks: u32, bumpSeq: u32, rate: u32,
    drops: u32, acks: u32, ackBytes: u32, ecn: u32)

  datatype Seg = Seg(sn: u32, ack: u32, isAck: bool, ece: bool, wnd: u16, payload: seq<byte>)

  type Segment = p: Seg | |p.payload| < TWO16 witness Seg(0, 0, false, false, 0, [])

  // ---------------------------------------------------------------- receive half

  /** Distance of the out-of-order interval from the next expected byte. */
  function OooDist(rx: Rx): u32 { Sub32(rx.oooStart, rx.nextSeq) }

  predicate RxWf(rx: Rx) {
    && 0 < |rx.ring| < TWO31
    && rx.nextPos < |rx.ring|
    && rx.avail <= |rx.ring|
    && (rx.oooLen != 0 ==> 0 < OooDist(rx) && OooDist(rx) + rx.oooLen <= rx.avail)
  }

  predicate TxWf(tx: Tx) {
    && 0 < |tx.ring| < TWO31
    && tx.nextPos < |tx.ring|
    && tx.head < |tx.ring|
    && tx.sent + BufAvail(tx.nextPos, tx.head, |tx.ring|) < |tx.ring|
  }

  predicate FlowWf(f: Flow) { RxWf(f.rx) && TxWf(f.tx) }

  /** The segment does not meet the untrimmed wrap case. */
  predicate Trimmable(rx: Rx, sn: u32, bytes: u16) { !TrimCorner(rx.nextSeq, rx.avail, sn, bytes) }

  /** Advance a ring position by at most one turn. */
  function Advance(pos: int, n: int, len: int): (r: int)
    requires 0 <= pos < len && 0 <= n <= len
    ensures 0 <= r < len && r == (pos + n) % len
  {
    ModAdd(pos, n, len);
    ModSmall(pos, len);
    if pos + n >= len then pos + n - len else pos + n
  }

  /** Advancing the ring position of an offset gives that of the offset further on. */
  lemma AdvanceMod(a: int, n: int, len: int)
    requires 0 < len && 0 <= n <= len
    ensures Advance(a % len, n, len) == (a + n) % len
  {
    ModAdd(a, n, len);
  }

  /** Write payload at its sequence number. */
  function SeqWrite(rx: Rx, sn: u32, data: seq<byte>): (r: Rx)
    requires RxWf(rx) && Sub32(sn, rx.nextSeq) + |data| <= rx.avail
    ensures r == rx.(ring := r.ring) && |r.ring| == |rx.ring|
  {
    rx.(ring := RingWrite(rx.ring, Advance(rx.nextPos, Sub32(sn, rx.nextSeq), |rx.ring|), data))
  }

  /** A segment ahead of the next expected byte: start or extend the out-of-order interval, or ignore it. */
  function OooStep(rx: Rx, sn: u32, data: seq<byte>): (r: Rx)
    requires RxWf(rx) && |data| < TWO16
    requires sn != rx.nextSeq && Sub32(sn, rx.nextSeq) + |data| <= rx.avail
    ensures RxWf(r)
  {
    if |data| == 0 then
      rx
    else if rx.oooLen == 0 then
      SeqWrite(rx, sn, data).(oooStart := sn, oooLen := |data|)
    else if Add32(sn, |data|) == rx.oooStart then
      SeqWrite(rx, sn, data).(oooStart := sn, oooLen := rx.oooLen + |data|)
    else if Add32(rx.oooStart, rx.oooLen) == sn then
      SeqWrite(rx, sn, data).(oooLen := rx.oooLen + |data|)
    else
      rx
  }

  /** Move the receive position over `n` bytes that are in the ring. */
  function Absorb(rx: Rx, n: u32): (r: Rx)
    requires 0 < |rx.ring| < TWO31 && rx.nextPos < |rx.ring| && n <= rx.avail <= |rx.ring|
    ensures 0 < |r.ring| < TWO31 && r.nextPos < |r.ring| && r.avail <= |r.ring|
  {
    rx.(avail := rx.avail - n,
        nextPos := Advance(rx.nextPos, n, |rx.ring|),
        nextSeq := Add32(rx.nextSeq, n))
  }

  /** The receive position has moved by `n` into the window; the interval has not been looked at yet. */
  ghost predicate CatchingUp(rx: Rx, n: u32) {
    && 0 < |rx.ring| < TWO31 && rx.nextPos < |rx.ring| && rx.avail <= |rx.ring|
    && n + rx.avail <= |rx.ring|
    && (rx.oooLen != 0 ==>
          0 < Add32(OooDist(rx), n) && Add32(OooDist(rx), n) + rx.oooLen <= n + rx.avail)
  }

  lemma AbsorbCatchingUp(rx: Rx, n: u32)
    requires RxWf(rx) && 0 < n <= rx.avail
    ensures CatchingUp(Absorb(rx, n), n)
  {
    hide W32;
  }

  /** After the receive position moved by `n`: trim the out-of-order interval, drop it if it is
      superfluous, absorb it if it is now next. Its length is passed on as 16 bits. */
  function OooCatchUp(rx: Rx, ghost n: u32): (r: (Rx, u32))
    requires CatchingUp(rx, n)
    ensures RxWf(r.0) && r.1 <= rx.avail
  {
    if rx.oooLen == 0 then
      (rx, 0)
    else
      OooTrim(rx, n);
      match TrimRxbuf(rx.nextSeq, rx.avail, rx.oooStart, W16(rx.oooLen))
      case Drop =>
        (rx.(oooLen := 0), 0)
      case Keep(s, e) =>
        var t := rx.(oooStart := Add32(rx.oooStart, s), oooLen := Sub32(rx.oooLen, s + e));
        if t.oooLen > 0 && t.oooStart == t.nextSeq then
          (Absorb(t, t.oooLen).(oooLen := 0), t.oooLen)
        else
          (t, 0)
  }

  lemma OooTrim(rx: Rx, n: u32)
    requires rx.avail <= |rx.ring| < TWO31 && n + rx.avail <= |rx.ring|
    requires rx.oooLen != 0 && 0 < Add32(OooDist(rx), n) && Add32(OooDist(rx), n) + rx.oooLen <= n + rx.avail
    ensures TrimRxbuf(rx.nextSeq, rx.avail, rx.oooStart, W16(rx.oooLen))
         == TrimAt(rx.avail, Add32(OooDist(rx), n) - n, W16(rx.oooLen))
  {
    TrimByDistance(rx.nextSeq, rx.avail, rx.oooStart, W16(rx.oooLen), Add32(OooDist(rx), n) - n);
  }

  /** The next expected bytes have arrived. */
  function InOrderStep(rx: Rx, data: seq<byte>): (r: (Rx, u32))
    requires RxWf(rx) && |data| <= rx.avail
    ensures RxWf(r.0)
  {
    if |data| == 0 then
      (rx, 0)
    else
      var w := rx.(ring := RingWrite(rx.ring, rx.nextPos, data));
      AbsorbCatchingUp(w, |data|);
      var a := Absorb(w, |data|);
      var c := OooCatchUp(a, |data|);
      (c.0, |data| + c.1)
  }

  datatype RxResult = RxResult(rx: Rx, bump: u32, inOrder: bool)

  lemma TrimFits(rx: Rx, sn: u32, data: seq<byte>)
    requires RxWf(rx) && |data| < TWO16 && Trimmable(rx, sn, |data|)
    ensures var t := TrimRxbuf(rx.nextSeq, rx.avail, sn, |data|);
            t.Keep? ==> && t.start + t.end <= |data|
                        && Sub32(Add32(sn, t.start), rx.nextSeq) + |data| - t.start - t.end <= rx.avail
  {
    var m := Sub32(sn, rx.nextSeq);
    TrimByDistance(rx.nextSeq, rx.avail, sn, |data|, if m + |data| < TWO32 then m else m - TWO32);
  }

  /** Payload of a received segment. */
  function RxStep(rx: Rx, sn: u32, data: seq<byte>): (r: RxResult)
    requires RxWf(rx) && |data| < TWO16 && Trimmable(rx, sn, |data|)
    ensures RxWf(r.rx)
  {
    TrimFits(rx, sn, data);
    match TrimRxbuf(rx.nextSeq, rx.avail, sn, |data|)
    case Drop =>
      RxResult(rx, 0, false)
    case Keep(s, e) =>
      var d := data[s..|data| - e];
      var q := Add32(sn, s);
      if q != rx.nextSeq then
        RxResult(OooStep(rx, q, d), 0, false)
      else
        var r := InOrderStep(rx, d);
        RxResult(r.0, r.1, true)
  }

  // ---------------------------------------------------------------- transmit half

  function TxBuffered(tx: Tx): (r: int)
    requires TxWf(tx)
    ensures 0 <= r < |tx.ring|
  {
    BufAvail(tx.nextPos, tx.head, |tx.ring|)
  }

  function Available(tx: Tx): u32
    requires TxWf(tx)
  {
    TxAvail(tx.nextPos, tx.head, |tx.ring|, tx.remoteAvail, tx.sent)
  }

  /** Step back to the first unacknowledged byte, as if nothing in flight had been sent. */
  function Rewind(tx: Tx): (r: Tx)
    requires TxWf(tx)
    ensures TxWf(r)
  {
    tx.(nextSeq := Sub32(tx.nextSeq, tx.sent),
        nextPos := if tx.nextPos >= tx.sent then tx.nextPos - tx.sent
                   else |tx.ring| - (tx.sent - tx.nextPos),
        sent := 0)
  }

  function ResetRetransmit(f: Flow): (r: Flow)
    requires FlowWf(f)
    ensures FlowWf(r) && r.rx == f.rx
  {
    f.(dupacks := 0,
       tx := Rewind(f.tx),
       rate := if f.drops == 0 then f.rate / 2 else f.rate,
       drops := Add32(f.drops, 1))
  }

  /** An acknowledgement moves the first unacknowledged byte by `bump`, beyond the bytes in flight
      if it is from the future. */
  function Acked(tx: Tx, bump: u32): (r: Tx)
    requires TxWf(tx) && bump <= tx.sent + TxBuffered(tx)
    ensures TxWf(r)
  {
    if bump <= tx.sent then
      tx.(sent := tx.sent - bump)
    else
      tx.(nextSeq := Add32(tx.nextSeq, bump - tx.sent),
          nextPos := Advance(tx.nextPos, bump - tx.sent, |tx.ring|),
          sent := 0)
  }

  datatype AckResult = AckResult(flow: Flow, bump: u32, stop: bool)

  /** Acknowledgement of a received segment; `stop` after a third duplicate. */
  function AckStep(f: Flow, p: Segment): (r: AckResult)
    requires FlowWf(f)
    ensures FlowWf(r.flow) && r.flow.rx == f.rx
    ensures r.bump <= f.tx.sent + TxBuffered(f.tx)
  {
    if !p.isAck then
      AckResult(f, 0, false)
    else
      var c := f.(acks := Add32(f.acks, 1), ecn := if p.ece then Add32(f.ecn, 1) else f.ecn);
      RxAckExact(f.tx.nextSeq, f.tx.sent, f.tx.nextPos, f.tx.head, |f.tx.ring|, p.ack);
      match ValidRxAck(f.tx.nextSeq, f.tx.sent, f.tx.nextPos, f.tx.head, |f.tx.ring|, p.ack)
      case None =>
        AckResult(c, 0, false)
      case Some(b) =>
        var g := c.(ackBytes := Add32(c.ackBytes, b), tx := Acked(c.tx, b));
        if b != 0 then
          AckResult(g.(dupacks := 0), b, false)
        else if |p.payload| == 0 then
          var n := Add32(g.dupacks, 1);
          if n >= 3 then AckResult(ResetRetransmit(g), 0, true)
          else AckResult(g.(dupacks := n), 0, false)
        else
          AckResult(g, 0, false)
  }

  // ---------------------------------------------------------------- the operations

  function Window(rx: Rx): u16
    requires rx.avail < TWO31
  {
    Min(0xFFFF, rx.avail)
  }

  /** A segment without payload that carries the receive state. */
  function Pure(f: Flow, ece: bool): Segment
    requires FlowWf(f)
  {
    Seg(f.tx.nextSeq, f.rx.nextSeq, true, ece, Window(f.rx), [])
  }

  function Gain(before: u32, after: u32): u32 { if after > before then after - before else 0 }

  datatype PacketResult = PacketResult(flow: Flow, rxBump: u32, txBump: u32, credit: u32, reply: Option<Segment>)

  /** A received segment. `ce` tells whether the network marked it. */
  function Packet(f: Flow, p: Segment, ce: bool): (r: PacketResult)
    requires FlowWf(f) && Trimmable(f.rx, p.sn, |p.payload|)
    ensures FlowWf(r.flow)
  {
    var a := AckStep(f, p);
    var s := if a.stop then RxResult(f.rx, 0, false) else RxStep(f.rx, p.sn, p.payload);
    var g := a.flow.(
      rx := s.rx,
      tx := if s.inOrder then a.flow.tx.(remoteAvail := p.wnd) else a.flow.tx);
    PacketResult(g, s.bump, a.bump, Gain(Available(f.tx), Available(g.tx)),
                 if |p.payload| > 0 then Some(Pure(g, ce)) else None)
  }

  /** Is this bump newer than the last one applied, judged by 32-bit counters? */
  predicate BumpIsNew(bumpSeq: u32, last: u32) {
    !(|| (bumpSeq >= last && bumpSeq - last > 0xFFFF_FFFF / 2)
      || (bumpSeq < last && (last < (0xFFFF_FFFF / 4) * 3 || bumpSeq > 0xFFFF_FFFF / 4)))
  }

  /** The application's head keeps the buffered bytes within one turn of the ring. */
  predicate HeadOk(tx: Tx, head: u32)
    requires tx.nextPos < |tx.ring| < TWO31
  {
    head < |tx.ring| && tx.sent + BufAvail(tx.nextPos, head, |tx.ring|) < |tx.ring|
  }

  /** Receive bytes freed by the application, judged by ring positions. */
  function Freed(rx: Rx, tail: u32): (r: int)
    requires RxWf(rx) && tail < |rx.ring|
    ensures 0 <= r < |rx.ring|
  {
    var edge := Advance(rx.nextPos, rx.avail, |rx.ring|);
    if tail >= edge then tail - edge else |rx.ring| - edge + tail
  }

  /** The application frees no more than what the receive ring holds. */
  predicate TailOk(rx: Rx, tail: u32)
    requires RxWf(rx)
  {
    tail < |rx.ring| && rx.avail + Freed(rx, tail) <= |rx.ring|
  }

  datatype BumpResult = BumpResult(flow: Flow, applied: bool, credit: u32, update: Option<Segment>)

  /** Queue positions from the application. */
  function Bump(f: Flow, bumpSeq: u32, rxTail: u32, txHead: u32): (r: BumpResult)
    requires FlowWf(f)
    requires BumpIsNew(bumpSeq, f.bumpSeq) ==> HeadOk(f.tx, txHead) && TailOk(f.rx, rxTail)
    ensures FlowWf(r.flow)
  {
    if !BumpIsNew(bumpSeq, f.bumpSeq) then
      BumpResult(f, false, 0, None)
    else
      var g := f.(
        bumpSeq := bumpSeq,
        tx := f.tx.(head := txHead),
        rx := f.rx.(avail := f.rx.avail + Freed(f.rx, rxTail)));
      var avail := Available(g.tx);
      BumpResult(g, true, Gain(Available(f.tx), avail),
                 if avail == 0 && f.rx.avail == 0 && g.rx.avail != 0 then Some(Pure(g, false)) else None)
  }

  /** The queue manager lets the flow send one segment. */
  function Transmit(f: Flow): (r: Option<(Flow, Segment)>)
    requires FlowWf(f)
    ensures r.Some? ==> FlowWf(r.value.0)
  {
    var avail := Available(f.tx);
    if avail == 0 then
      None
    else
      var len := Min(avail, TCP_MSS);
      var g := f.(tx := f.tx.(
        nextSeq := Add32(f.tx.nextSeq, len),
        nextPos := Advance(f.tx.nextPos, len, |f.tx.ring|),
        sent := Add32(f.tx.sent, len)));
      Some((g, Seg(f.tx.nextSeq, f.rx.nextSeq, true, false, Window(f.rx),
                   RingRead(f.tx.ring, f.tx.nextPos, len))))
  }

  /** Timeout in the kernel; returns the transmit credit gained. */
  function Retransmit(f: Flow): (r: (Flow, u32))
    requires FlowWf(f)
    ensures FlowWf(r.0)
  {
    if f.tx.sent == 0 then
      (f, 0)
    else
      var g := ResetRetransmit(f);
      (g, Gain(Available(f.tx), Available(g.tx)))
  }
}
