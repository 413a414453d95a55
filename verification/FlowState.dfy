/** The flow record as the fast path updates it, in place and under its lock. */
module FlowState {
  import opened Word
  import opened Ring
  import opened TcpCommon
  import opened FlowOps

  lemma AckBound(f: Flow, ack: u32)
    requires FlowWf(f)
    ensures var b := ValidRxAck(f.tx.nextSeq, f.tx.sent, f.tx.nextPos, f.tx.head, |f.tx.ring|, ack);
            b.Some? ==> b.value <= f.tx.sent + TxBuffered(f.tx)
  {
    RxAckExact(f.tx.nextSeq, f.tx.sent, f.tx.nextPos, f.tx.head, |f.tx.ring|, ack);
  }

  class FlowRecord {
    const rxRing: array<byte>
    const txRing: array<byte>
    var rxAvail: u32
    var rxNextPos: u32
    var rxNextSeq: u32
    var rxRemoteAvail: u32
    var rxDupackCnt: u32
    var rxOooStart: u32
    var rxOooLen: u32
    var txSent: u32
    var txNextPos: u32
    var txNextSeq: u32
    var txHead: u32
    var bumpSeq: u32
    var txRate: u32
    var cntTxDrops: u32
    var cntRxAcks: u32
    var cntRxAckBytes: u32
    var cntRxEcn: u32

    ghost function RxView(): Rx
      reads this, rxRing
    {
      Rx(rxRing[..], rxAvail, rxNextPos, rxNextSeq, rxOooStart, rxOooLen)
    }

    ghost function TxView(): Tx
      reads this, txRing
    {
      Tx(txRing[..], txHead, txNextPos, txNextSeq, txSent, rxRemoteAvail)
    }

    ghost function View(): Flow
      reads this, rxRing, txRing
    {
      Flow(RxView(), TxView(), rxDupackCnt, bumpSeq, txRate,
           cntTxDrops, cntRxAcks, cntRxAckBytes, cntRxEcn)
    }

    ghost predicate Valid()
      reads this, rxRing, txRing
    {
      rxRing != txRing && FlowWf(View())
    }

    /** What the kernel writes into a fresh record. */
    constructor (rxRing: array<byte>, txRing: array<byte>, localSeq: u32, remoteSeq: u32, rate: u32)
      requires rxRing != txRing
      requires 0 < rxRing.Length < TWO31 && 0 < txRing.Length < TWO31
      ensures Valid() && this.rxRing == rxRing && this.txRing == txRing
      ensures RxView() == Rx(rxRing[..], rxRing.Length, 0, remoteSeq, 0, 0)
      ensures TxView() == Tx(txRing[..], 0, 0, localSeq, 0, rxRing.Length)
      ensures bumpSeq == 0 && txRate == rate
    {
      this.rxRing, this.txRing := rxRing, txRing;
      rxAvail, rxNextPos, rxNextSeq := rxRing.Length, 0, remoteSeq;
      rxRemoteAvail, rxDupackCnt := rxRing.Length, 0;
      rxOooStart, rxOooLen := 0, 0;
      txSent, txNextPos, txNextSeq, txHead := 0, 0, localSeq, 0;
      bumpSeq, txRate := 0, rate;
      cntTxDrops, cntRxAcks, cntRxAckBytes, cntRxEcn := 0, 0, 0, 0;
    }

    method RxSeqWrite(sn: u32, src: seq<byte>)
      requires RxWf(RxView()) && Sub32(sn, rxNextSeq) + |src| <= rxAvail
      modifies rxRing
      ensures RxView() == SeqWrite(old(RxView()), sn, src)
    {
      hide W32, Sub32, RingWrite;
      var diff := Sub32(sn, rxNextSeq);
      var pos := rxNextPos + diff;
      if pos >= rxRing.Length {
        pos := pos - rxRing.Length;
      }
      WriteRing(rxRing, pos, src);
    }

    method ResetRetransmit()
      requires Valid()
      modifies this
      ensures Valid() && View() == FlowOps.ResetRetransmit(old(View()))
    {
      rxDupackCnt := 0;
      txNextSeq := Sub32(txNextSeq, txSent);
      if txNextPos >= txSent {
        txNextPos := txNextPos - txSent;
      } else {
        var x := txSent - txNextPos;
        txNextPos := txRing.Length - x;
      }
      txSent := 0;
      if cntTxDrops == 0 {
        txRate := txRate / 2;
      }
      cntTxDrops := Add32(cntTxDrops, 1);
    }

    /** Move the first unacknowledged byte, past the bytes in flight if need be. */
    method MoveAcked(bump: u32)
      requires Valid() && bump <= txSent + TxBuffered(TxView())
      modifies `txSent, `txNextSeq, `txNextPos
      ensures TxView() == Acked(old(TxView()), bump)
    {
      if bump <= txSent {
        txSent := txSent - bump;
      } else {
        var ahead := bump - txSent;
        txNextSeq := Add32(txNextSeq, ahead);
        if txNextPos + ahead >= txRing.Length {
          txNextPos := txNextPos + ahead - txRing.Length;
        } else {
          txNextPos := txNextPos + ahead;
        }
        txSent := 0;
      }
    }

    /** Acknowledgement part of a received segment. */
    method ReceiveAck(p: Segment) returns (txBump: u32, stop: bool)
      requires Valid()
      modifies this
      ensures Valid() && RxView() == old(RxView())
      ensures AckStep(old(View()), p) == AckResult(View(), txBump, stop)
    {
      hide W32, Add32, Sub32, ValidRxAck, RxWf, Acked, Rewind;
      txBump, stop := 0, false;
      if !p.isAck {
        return;
      }
      cntRxAcks := Add32(cntRxAcks, 1);
      if p.ece {
        cntRxEcn := Add32(cntRxEcn, 1);
      }
      AckBound(View(), p.ack);
      var bump := ValidRxAck(txNextSeq, txSent, txNextPos, txHead, txRing.Length, p.ack);
      if bump.None? {
        return;
      }
      txBump := bump.value;
      cntRxAckBytes := Add32(cntRxAckBytes, txBump);
      MoveAcked(txBump);
      if txBump != 0 {
        rxDupackCnt := 0;
      } else if |p.payload| == 0 {
        rxDupackCnt := Add32(rxDupackCnt, 1);
        if rxDupackCnt >= 3 {
          ResetRetransmit();
          stop := true;
        }
      }
    }

    /** Advance the receive position over `n` bytes. */
    method Accept(n: u32)
      requires 0 < rxRing.Length < TWO31 && rxNextPos < rxRing.Length && n <= rxAvail <= rxRing.Length
      modifies `rxAvail, `rxNextPos, `rxNextSeq
      ensures RxView() == Absorb(old(RxView()), n)
    {
      rxAvail := rxAvail - n;
      if rxNextPos + n >= rxRing.Length {
        rxNextPos := rxNextPos + n - rxRing.Length;
      } else {
        rxNextPos := rxNextPos + n;
      }
      rxNextSeq := Add32(rxNextSeq, n);
    }

    /** Check whether the out-of-order interval has become continuous or superfluous. */
    method CatchUp(ghost n: u32) returns (more: u32)
      requires CatchingUp(RxView(), n)
      modifies `rxAvail, `rxNextPos, `rxNextSeq, `rxOooStart, `rxOooLen
      ensures OooCatchUp(old(RxView()), n) == (RxView(), more)
    {
      more := 0;
      if rxOooLen != 0 {
        OooTrim(RxView(), n);
        match TrimRxbuf(rxNextSeq, rxAvail, rxOooStart, W16(rxOooLen))
        case Drop =>
          rxOooLen := 0;
        case Keep(trimStart, trimEnd) =>
          rxOooStart := Add32(rxOooStart, trimStart);
          rxOooLen := Sub32(rxOooLen, trimStart + trimEnd);
          if rxOooLen > 0 && rxOooStart == rxNextSeq {
            more := rxOooLen;
            Accept(more);
            rxOooLen := 0;
          }
      }
    }

    /** Start or extend the out-of-order interval, or ignore the payload. */
    method StoreOutOfOrder(start: u32, data: seq<byte>)
      requires RxWf(RxView()) && |data| < TWO16
      requires start != rxNextSeq && Sub32(start, rxNextSeq) + |data| <= rxAvail
      modifies `rxOooStart, `rxOooLen, rxRing
      ensures RxView() == OooStep(old(RxView()), start, data)
    {
      hide W32, RingWrite, Add32;
      if |data| == 0 {
        return;
      }
      if rxOooLen == 0 {
        RxSeqWrite(start, data);
        rxOooStart := start;
        rxOooLen := |data|;
      } else if Add32(start, |data|) == rxOooStart {
        RxSeqWrite(start, data);
        rxOooStart := start;
        rxOooLen := rxOooLen + |data|;
      } else if Add32(rxOooStart, rxOooLen) == start {
        RxSeqWrite(start, data);
        rxOooLen := rxOooLen + |data|;
      }
    }

    /** Store the next expected bytes; returns by how much the receive position moved. */
    method StoreInOrder(data: seq<byte>) returns (rxBump: u32)
      requires RxWf(RxView()) && |data| <= rxAvail
      modifies `rxAvail, `rxNextPos, `rxNextSeq, `rxOooStart, `rxOooLen, rxRing
      ensures InOrderStep(old(RxView()), data) == (RxView(), rxBump)
    {
      hide W32, Add32, RingWrite, OooCatchUp;
      rxBump := 0;
      if |data| > 0 {
        WriteRing(rxRing, rxNextPos, data);
        AbsorbCatchingUp(RxView(), |data|);
        Accept(|data|);
        var more := CatchUp(|data|);
        rxBump := |data| + more;
      }
    }

    /** Payload part of a received segment. */
    method ReceivePayload(sn: u32, payload: seq<byte>) returns (rxBump: u32, inOrder: bool)
      requires RxWf(RxView()) && |payload| < TWO16 && Trimmable(RxView(), sn, |payload|)
      modifies `rxAvail, `rxNextPos, `rxNextSeq, `rxOooStart, `rxOooLen, rxRing
      ensures RxStep(old(RxView()), sn, payload) == RxResult(RxView(), rxBump, inOrder)
    {
      hide W32, Add32, TrimRxbuf, TrimCorner, OooStep, InOrderStep, RxWf;
      rxBump, inOrder := 0, false;
      TrimFits(RxView(), sn, payload);
      var trim := TrimRxbuf(rxNextSeq, rxAvail, sn, |payload|);
      if trim.Drop? {
        return;
      }
      var data := payload[trim.start..|payload| - trim.end];
      var start := Add32(sn, trim.start);
      if start != rxNextSeq {
        StoreOutOfOrder(start, data);
      } else {
        inOrder := true;
        rxBump := StoreInOrder(data);
      }
    }

    /** A received segment: the acknowledgement, the payload, the notification to the application
        (`rxBump`, `txBump`), the transmit credit gained, and the acknowledgement sent. */
    method Packet(p: Segment, ce: bool)
      returns (rxBump: u32, txBump: u32, credit: u32, reply: Option<Segment>)
      requires Valid() && Trimmable(RxView(), p.sn, |p.payload|)
      modifies this, rxRing
      ensures Valid()
      ensures FlowOps.Packet(old(View()), p, ce) == PacketResult(View(), rxBump, txBump, credit, reply)
    {
      hide W32, AckStep, RxStep, TxAvail, RxWf, Trimmable;
      rxBump, credit, reply := 0, 0, None;
      var oldAvail := TxAvail(txNextPos, txHead, txRing.Length, rxRemoteAvail, txSent);
      var stop;
      txBump, stop := ReceiveAck(p);
      if !stop {
        var inOrder;
        rxBump, inOrder := ReceivePayload(p.sn, p.payload);
        if inOrder {
          rxRemoteAvail := p.wnd;
        }
      }
      var newAvail := TxAvail(txNextPos, txHead, txRing.Length, rxRemoteAvail, txSent);
      if newAvail > oldAvail {
        credit := newAvail - oldAvail;
      }
      if |p.payload| > 0 {
        reply := Some(Seg(txNextSeq, rxNextSeq, true, ce, Min(0xFFFF, rxAvail), []));
      }
    }

    /** Queue positions from the application. */
    method Bump(seqNo: u32, rxTail: u32, head: u32)
      returns (applied: bool, credit: u32, update: Option<Segment>)
      requires Valid()
      requires BumpIsNew(seqNo, bumpSeq) ==> HeadOk(TxView(), head) && TailOk(RxView(), rxTail)
      modifies this
      ensures Valid()
      ensures FlowOps.Bump(old(View()), seqNo, rxTail, head) == BumpResult(View(), applied, credit, update)
    {
      hide W32, Sub32, Add32, TxAvail, BufAvail;
      applied, credit, update := false, 0, None;
      if (seqNo >= bumpSeq && seqNo - bumpSeq > 0xFFFF_FFFF / 2)
        || (seqNo < bumpSeq && (bumpSeq < (0xFFFF_FFFF / 4) * 3 || seqNo > 0xFFFF_FFFF / 4))
      {
        return;
      }
      applied := true;
      bumpSeq := seqNo;
      var oldAvail := TxAvail(txNextPos, txHead, txRing.Length, rxRemoteAvail, txSent);
      var newAvail := TxAvail(txNextPos, head, txRing.Length, rxRemoteAvail, txSent);
      if oldAvail < newAvail {
        credit := newAvail - oldAvail;
      }
      txHead := head;
      var tail := rxNextPos + rxAvail;
      if tail >= rxRing.Length {
        tail := tail - rxRing.Length;
      }
      var availPrev := rxAvail;
      if rxTail >= tail {
        rxAvail := rxAvail + (rxTail - tail);
      } else {
        rxAvail := rxAvail + (rxRing.Length - tail + rxTail);
      }
      if newAvail == 0 && availPrev == 0 && rxAvail != 0 {
        update := Some(Seg(txNextSeq, rxNextSeq, true, false, Min(0xFFFF, rxAvail), []));
      }
    }

    /** The queue manager lets the flow send one segment, if there is anything to send. */
    method Transmit() returns (sent: Option<Segment>)
      requires Valid()
      modifies this
      ensures Valid()
      ensures match FlowOps.Transmit(old(View()))
              case None => sent.None? && View() == old(View())
              case Some(r) => sent == Some(r.1) && View() == r.0
    {
      sent := None;
      var avail := TxAvail(txNextPos, txHead, txRing.Length, rxRemoteAvail, txSent);
      if avail == 0 {
        return;
      }
      var len := Min(avail, TCP_MSS);
      var snapSeq, snapPos := txNextSeq, txNextPos;
      txNextSeq := Add32(txNextSeq, len);
      if txNextPos + len >= txRing.Length {
        txNextPos := txNextPos + len - txRing.Length;
      } else {
        txNextPos := txNextPos + len;
      }
      txSent := Add32(txSent, len);
      var payload := ReadRing(txRing, snapPos, len);
      sent := Some(Seg(snapSeq, rxNextSeq, true, false, Min(0xFFFF, rxAvail), payload));
    }

    /** Timeout in the kernel; returns the transmit credit gained. */
    method Retransmit() returns (credit: u32)
      requires Valid()
      modifies this
      ensures Valid() && FlowOps.Retransmit(old(View())) == (View(), credit)
    {
      credit := 0;
      var oldAvail := TxAvail(txNextPos, txHead, txRing.Length, rxRemoteAvail, txSent);
      if txSent == 0 {
        return;
      }
      ResetRetransmit();
      var newAvail := TxAvail(txNextPos, txHead, txRing.Length, rxRemoteAvail, txSent);
      if newAvail > oldAvail {
        credit := newAvail - oldAvail;
      }
    }
  }
}
