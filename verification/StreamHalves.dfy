/** The two halves of a flow record against the byte streams they carry: every concrete field names
    an unbounded stream offset, and the rings hold the stream's bytes. */
module StreamHalves {
  import opened Word
  import opened Ring
  import opened TcpCommon
  import opened FlowOps

  // ------------------------------------------------------------ what holds of one half

  /** The send half names stream offsets consistently and keeps every unacknowledged byte. */
  ghost predicate TxHolds(tx: Tx, iss: u32, una: int, written: seq<byte>) {
    && TxWf(tx)
    && 0 <= una
    && tx.nextSeq == W32(iss + una + tx.sent)
    && tx.nextPos == (una + tx.sent) % |tx.ring|
    && una + tx.sent + TxBuffered(tx) <= |written| < una + |tx.ring|
    && Holds(tx.ring, written, una, |written|)
  }

  /** The receive half names offsets of the peer's stream consistently; the bytes it counts and the
      out-of-order interval are the peer's bytes. */
  ghost predicate RxHolds(rx: Rx, irs: u32, rcv: int, stream: seq<byte>) {
    && RxWf(rx)
    && rx.nextSeq == W32(irs + rcv)
    && rx.nextPos == rcv % |rx.ring|
    && Holds(rx.ring, stream, rcv + rx.avail - |rx.ring|, rcv)
    && (rx.oooLen != 0 ==>
          Holds(rx.ring, stream, rcv + OooDist(rx), rcv + OooDist(rx) + rx.oooLen))
  }

  // ------------------------------------------------------------ the receive half

  lemma HoldsSub(ring: seq<byte>, stream: seq<byte>, lo: int, hi: int, lo': int, hi': int)
    requires Holds(ring, stream, lo, hi) && lo <= lo' && hi' <= hi
    ensures Holds(ring, stream, lo', hi')
  {
  }

  lemma HoldsJoin(ring: seq<byte>, stream: seq<byte>, lo: int, mid: int, mid': int, hi: int)
    requires Holds(ring, stream, lo, mid) && Holds(ring, stream, mid', hi) && mid' <= mid
    ensures Holds(ring, stream, lo, hi)
  {
  }

  /** The distance of two sequence numbers is the distance of the stream offsets they stand for. */
  lemma SeqGap(irs: u32, a: int, b: int)
    requires 0 <= b - a < TWO32
    ensures Sub32(W32(irs + b), W32(irs + a)) == b - a
    ensures Add32(W32(irs + a), b - a) == W32(irs + b)
  {
  }

  lemma RxHoldsBounds(rx: Rx, irs: u32, rcv: int, stream: seq<byte>)
    requires RxHolds(rx, irs, rcv, stream)
    ensures RxWf(rx) && 0 <= rcv <= |stream| && 0 < |rx.ring| < TWO31
    ensures rx.nextSeq == W32(irs + rcv)
    ensures rx.nextPos == rcv % |rx.ring| < |rx.ring| && rx.avail <= |rx.ring|
    ensures Holds(rx.ring, stream, rcv + rx.avail - |rx.ring|, rcv)
    ensures rx.oooLen != 0 ==>
              && 0 < OooDist(rx) && OooDist(rx) + rx.oooLen <= rx.avail
              && rx.oooStart == W32(irs + rcv + OooDist(rx))
              && Holds(rx.ring, stream, rcv + OooDist(rx), rcv + OooDist(rx) + rx.oooLen)
  {
    hide W32, Sub32;
    if rx.oooLen != 0 {
      SeqForward(irs, rcv, rx.oooStart);
    }
  }

  lemma SeqForward(irs: u32, a: int, b: u32)
    ensures b == W32(irs + a + Sub32(b, W32(irs + a)))
  {
  }

  lemma SeqRebase(irs: u32, a: int, d: int)
    ensures W32(W32(irs + a) + d) == W32(irs + (a + d))
  {
  }

  lemma SliceSlice<T>(q: seq<T>, off: int, n: int, s: int, t: int)
    requires 0 <= off && 0 <= s <= t <= n && off + n <= |q|
    ensures q[off..off + n][s..t] == q[off + s..off + t]
  {
    var l := q[off..off + n];
    forall i | 0 <= i < t - s
      ensures l[s..t][i] == q[off + s..off + t][i]
    {
      assert l[s + i] == q[off + s + i];
    }
  }

  /** A write of stream bytes keeps any held range in the same turn of the ring. */
  lemma WriteKeeps(ring: seq<byte>, stream: seq<byte>, lo: int, hi: int, a: int, n: int, base: int)
    requires Holds(ring, stream, lo, hi)
    requires 0 <= n && 0 <= base <= a && a + n <= base + |ring| && a + n <= |stream|
    requires base <= lo && hi <= base + |ring|
    ensures Holds(RingWrite(ring, a % |ring|, stream[a..a + n]), stream, lo, hi)
  {
    forall k | lo <= k < hi
      ensures RingWrite(ring, a % |ring|, stream[a..a + n])[k % |ring|] == stream[k]
    {
      if k >= a {
        WriteAt(ring, a, stream[a..a + n], k);
      } else {
        WriteAt(ring, a, stream[a..a + n], k + |ring|);
        ModAdd(k, |ring|, |ring|);
      }
    }
  }

  lemma HoldsLow(ring: seq<byte>, stream: seq<byte>, lo: int, hi: int)
    requires Holds(ring, stream, lo, hi)
    ensures 0 < |ring| && 0 <= lo && hi <= |stream|
  {
  }

  /** Writing stream bytes into the window keeps what the receive half holds. */
  lemma RingWriteRxHolds(rx: Rx, irs: u32, rcv: int, stream: seq<byte>, off: int, n: int)
    requires RxHolds(rx, irs, rcv, stream)
    requires rcv <= off && 0 <= n && off + n <= rcv + rx.avail && off + n <= |stream|
    ensures var ring := RingWrite(rx.ring, off % |rx.ring|, stream[off..off + n]);
            && RxHolds(rx.(ring := ring), irs, rcv, stream)
            && Holds(ring, stream, off, off + n)
  {
    hide W32, Holds, RingWrite;
    var lo := rcv + rx.avail - |rx.ring|;
    HoldsLow(rx.ring, stream, lo, rcv);
    WriteHolds(rx.ring, stream, lo, rcv, off, n);
    if rx.oooLen != 0 {
      var o := rcv + OooDist(rx);
      WriteKeeps(rx.ring, stream, o, o + rx.oooLen, off, n, lo);
    }
  }

  lemma SeqMeets(irs: u32, a: int, b: int)
    requires -TWO31 < b - a < TWO31
    ensures W32(irs + a) == W32(irs + b) <==> a == b
  {
  }

  /** Payload meets the interval at its end or its start, by sequence number or by stream offset. */
  lemma OooMeets(rx: Rx, irs: u32, rcv: int, stream: seq<byte>, off: int, n: int)
    requires RxHolds(rx, irs, rcv, stream) && 0 <= n < TWO16 && rx.oooLen != 0
    requires rcv < off && off + n <= rcv + rx.avail && off + n <= |stream|
    ensures var o := rcv + OooDist(rx);
            && (Add32(W32(irs + off), n) == rx.oooStart <==> off + n == o)
            && (Add32(rx.oooStart, rx.oooLen) == W32(irs + off) <==> off == o + rx.oooLen)
  {
    hide W32, Add32, Sub32, Holds, RxHolds, OooDist;
    RxHoldsBounds(rx, irs, rcv, stream);
    var o := rcv + OooDist(rx);
    SeqMeets(irs, off + n, o);
    SeqMeets(irs, o + rx.oooLen, off);
    SeqGap(irs, off, off + n);
    SeqGap(irs, o, o + rx.oooLen);
  }

  /** Where payload goes that is written at its sequence number. */
  lemma SeqWriteHolds(rx: Rx, irs: u32, rcv: int, stream: seq<byte>, off: int, n: int)
    requires RxHolds(rx, irs, rcv, stream)
    requires rcv <= off && 0 <= n && off + n <= rcv + rx.avail && off + n <= |stream|
    ensures Sub32(W32(irs + off), rx.nextSeq) == off - rcv
    ensures var w := SeqWrite(rx, W32(irs + off), stream[off..off + n]);
            RxHolds(w, irs, rcv, stream) && Holds(w.ring, stream, off, off + n)
  {
    hide W32, Holds, RxHolds, RxWf, RingWrite;
    RxHoldsBounds(rx, irs, rcv, stream);
    SeqGap(irs, rcv, off);
    ModAdd(rcv, off - rcv, |rx.ring|);
    RingWriteRxHolds(rx, irs, rcv, stream, off, n);
  }

  lemma OooStepHolds(rx: Rx, irs: u32, rcv: int, stream: seq<byte>, off: int, n: int)
    requires RxHolds(rx, irs, rcv, stream) && n < TWO16
    requires rcv < off && 0 <= n && off + n <= rcv + rx.avail && off + n <= |stream|
    ensures W32(irs + off) != rx.nextSeq && Sub32(W32(irs + off), rx.nextSeq) + n <= rx.avail
    ensures var r := OooStep(rx, W32(irs + off), stream[off..off + n]);
            RxHolds(r, irs, rcv, stream) && r.avail == rx.avail && |r.ring| == |rx.ring|
  {
    hide W32, Add32, Sub32, Holds, RingWrite, RxHolds, RxWf;
    RxHoldsBounds(rx, irs, rcv, stream);
    SeqWriteHolds(rx, irs, rcv, stream, off, n);
    SeqGap(irs, rcv, rcv);
    SeqMeets(irs, rcv, off);
    var w := SeqWrite(rx, W32(irs + off), stream[off..off + n]);
    RxHoldsBounds(w, irs, rcv, stream);
    if n != 0 && rx.oooLen == 0 {
      NewInterval(w, irs, rcv, stream, off, n);
    } else if n != 0 {
      OooMeets(rx, irs, rcv, stream, off, n);
      var o := rcv + OooDist(rx);
      if off + n == o {
        HoldsJoin(w.ring, stream, off, o, o, o + rx.oooLen);
        NewInterval(w, irs, rcv, stream, off, rx.oooLen + n);
      } else if off == o + rx.oooLen {
        HoldsJoin(w.ring, stream, o, off, off, off + n);
        NewInterval(w, irs, rcv, stream, o, rx.oooLen + n);
      }
    }
  }

  /** Another interval whose bytes are in the ring. */
  lemma NewInterval(w: Rx, irs: u32, rcv: int, stream: seq<byte>, o: int, len: u32)
    requires RxHolds(w, irs, rcv, stream)
    requires rcv < o && o + len <= rcv + w.avail && Holds(w.ring, stream, o, o + len)
    ensures RxHolds(w.(oooStart := W32(irs + o), oooLen := len), irs, rcv, stream)
  {
    hide W32, Sub32, Holds;
    SeqGap(irs, rcv, o);
  }

  lemma AbsorbHolds(rx: Rx, irs: u32, rcv: int, stream: seq<byte>, n: u32)
    requires 0 < |rx.ring| < TWO31 && rx.nextPos < |rx.ring| && n <= rx.avail <= |rx.ring|
    requires rx.nextSeq == W32(irs + rcv) && rx.nextPos == rcv % |rx.ring|
    ensures Absorb(rx, n).nextSeq == W32(irs + rcv + n)
    ensures Absorb(rx, n).nextPos == (rcv + n) % |rx.ring|
  {
    hide W32;
    SeqRebase(irs, rcv, n);
    ModAdd(rcv, n, |rx.ring|);
    ModAdd(rx.nextPos, n, |rx.ring|);
    ModSmall(rx.nextPos, |rx.ring|);
  }

  /** Catching up, by the signed distance `d` of the interval from the new receive position. */
  function CatchUpAt(a: Rx, d: int): (Rx, u32)
    requires 0 < |a.ring| < TWO31 && a.nextPos < |a.ring| && a.avail <= |a.ring|
    requires d + a.oooLen <= a.avail
  {
    if d > 0 then (a, 0)
    else if d + W16(a.oooLen) < 0 then (a.(oooLen := 0), 0)
    else if a.oooLen + d > 0 then
      (Absorb(a.(oooStart := a.nextSeq, oooLen := a.oooLen + d), a.oooLen + d).(oooLen := 0), a.oooLen + d)
    else (a.(oooStart := a.nextSeq, oooLen := 0), 0)
  }

  lemma CatchUpByDistance(a: Rx, n: u32, d: int)
    requires 0 < |a.ring| < TWO31 && a.nextPos < |a.ring| && n + a.avail <= |a.ring|
    requires a.oooLen != 0 && d + n > 0 && d + a.oooLen <= a.avail
    requires a.oooStart == W32(a.nextSeq + d)
    ensures Add32(OooDist(a), n) == d + n
    ensures OooCatchUp(a, n) == CatchUpAt(a, d)
  {
    hide W32, Add32, TrimRxbuf, Absorb;
    OooDistShift(a, n, d);
    OooTrim(a, n);
    SeqShift(a.nextSeq, a.oooStart, d);
  }

  lemma OooDistShift(a: Rx, n: u32, d: int)
    requires n < TWO31 && -TWO31 < d < TWO31 && d + n > 0
    requires a.oooStart == W32(a.nextSeq + d)
    ensures Add32(OooDist(a), n) == d + n
  {
  }

  lemma CatchUpHolds(a: Rx, irs: u32, rcv: int, stream: seq<byte>, o: int)
    requires 0 < |a.ring| < TWO31 && a.nextPos < |a.ring| && a.avail <= |a.ring|
    requires a.oooLen != 0 && rcv - TWO31 < o && o + a.oooLen <= rcv + a.avail
    requires a.nextSeq == W32(irs + rcv) && a.nextPos == rcv % |a.ring|
    requires a.oooStart == W32(irs + o)
    requires Holds(a.ring, stream, rcv + a.avail - |a.ring|, rcv)
    requires Holds(a.ring, stream, o, o + a.oooLen)
    ensures var r := CatchUpAt(a, o - rcv);
            && RxHolds(r.0, irs, rcv + r.1, stream)
            && r.0.avail + r.1 == a.avail && |r.0.ring| == |a.ring|
  {
    var d := o - rcv;
    if d > 0 {
      SeqGap(irs, rcv, o);
    } else if d + W16(a.oooLen) >= 0 && a.oooLen + d > 0 {
      AbsorbHolds(a.(oooStart := a.nextSeq, oooLen := a.oooLen + d), irs, rcv, stream, a.oooLen + d);
      HoldsJoin(a.ring, stream, rcv + a.avail - |a.ring|, rcv, o, o + a.oooLen);
    }
  }

  lemma InOrderHolds(rx: Rx, irs: u32, rcv: int, stream: seq<byte>, n: int)
    requires RxHolds(rx, irs, rcv, stream)
    requires 0 <= n <= rx.avail && rcv + n <= |stream|
    ensures var r := InOrderStep(rx, stream[rcv..rcv + n]);
            && n <= r.1
            && RxHolds(r.0, irs, rcv + r.1, stream)
            && r.0.avail + r.1 == rx.avail && |r.0.ring| == |rx.ring|
  {
    hide W32, Add32, Holds, RxHolds, RxWf, OooCatchUp, Absorb, RingWrite, CatchingUp;
    RxHoldsBounds(rx, irs, rcv, stream);
    if n != 0 {
      var w := rx.(ring := RingWrite(rx.ring, rx.nextPos, stream[rcv..rcv + n]));
      RingWriteRxHolds(rx, irs, rcv, stream, rcv, n);
      AbsorbedHolds(w, irs, rcv, stream, n);
    }
  }

  /** Moving over bytes that have just been written, then catching up with the interval. */
  lemma AbsorbedHolds(w: Rx, irs: u32, rcv: int, stream: seq<byte>, n: u32)
    requires RxHolds(w, irs, rcv, stream)
    requires 0 < n <= w.avail && Holds(w.ring, stream, rcv, rcv + n)
    ensures var a := Absorb(w, n);
            && CatchingUp(a, n)
            && var r := OooCatchUp(a, n);
            && RxHolds(r.0, irs, rcv + n + r.1, stream)
            && r.0.avail + n + r.1 == w.avail && |r.0.ring| == |w.ring|
  {
    hide W32, Add32, Sub32, Holds, RxHolds, RxWf, OooDist, CatchUpAt, OooCatchUp, CatchingUp;
    RxHoldsBounds(w, irs, rcv, stream);
    AbsorbCatchingUp(w, n);
    var a := Absorb(w, n);
    AbsorbHolds(w, irs, rcv, stream, n);
    HoldsJoin(w.ring, stream, rcv + w.avail - |w.ring|, rcv, rcv, rcv + n);
    if w.oooLen != 0 {
      var o := rcv + OooDist(w);
      var d := o - rcv - n;
      SeqRebase(irs, rcv + n, d);
      CatchUpByDistance(a, n, d);
      CatchUpHolds(a, irs, rcv + n, stream, o);
    } else {
      NothingToCatchUp(a, n);
      NoIntervalHolds(a, irs, rcv + n, stream);
    }
  }

  lemma NothingToCatchUp(a: Rx, n: u32)
    requires CatchingUp(a, n) && a.oooLen == 0
    ensures OooCatchUp(a, n) == (a, 0)
  {
  }

  lemma NoIntervalHolds(a: Rx, irs: u32, rcv: int, stream: seq<byte>)
    requires 0 < |a.ring| < TWO31 && a.nextPos < |a.ring| && a.avail <= |a.ring|
    requires a.oooLen == 0
    requires a.nextSeq == W32(irs + rcv) && a.nextPos == rcv % |a.ring|
    requires Holds(a.ring, stream, rcv + a.avail - |a.ring|, rcv)
    ensures RxHolds(a, irs, rcv, stream)
  {
  }

  /** The payload of a genuine segment, however old, early or overlapping, leaves only the peer's
      bytes in the counted part of the ring and in the out-of-order interval. */
  lemma RxStepHolds(rx: Rx, irs: u32, rcv: int, stream: seq<byte>, off: int, n: int)
    requires RxHolds(rx, irs, rcv, stream)
    requires 0 <= off && 0 <= n < TWO16 && off + n <= |stream|
    requires -TWO31 < off - rcv < TWO31 && Trimmable(rx, W32(irs + off), n)
    ensures var r := RxStep(rx, W32(irs + off), stream[off..off + n]);
            && RxHolds(r.rx, irs, rcv + r.bump, stream)
            && r.rx.avail + r.bump == rx.avail && |r.rx.ring| == |rx.ring|
  {
    hide W32, Holds, RxStep, OooStep, InOrderStep, TrimCorner, RxHolds, RxWf;
    RxHoldsBounds(rx, irs, rcv, stream);
    var d := off - rcv;
    SeqRebase(irs, rcv, d);
    RxStepByDistance(rx, W32(irs + off), stream[off..off + n], d);
    if -n <= d <= rx.avail {
      var s, t := Max(0, -d), Max(0, d + n - rx.avail);
      SliceSlice(stream, off, n, s, n - t);
      if d > 0 {
        OooStepHolds(rx, irs, rcv, stream, off, n - t);
      } else {
        InOrderHolds(rx, irs, rcv, stream, n - s - t);
      }
    }
  }

  /** Payload processing by the signed distance of the segment from the next expected byte. */
  lemma RxStepByDistance(rx: Rx, sn: u32, data: seq<byte>, d: int)
    requires RxWf(rx) && |data| < TWO16 && Trimmable(rx, sn, |data|)
    requires -TWO31 < d < TWO31 && sn == W32(rx.nextSeq + d)
    ensures var s, t := Max(0, -d), Max(0, d + |data| - rx.avail);
            if d < -|data| || d > rx.avail then
              RxStep(rx, sn, data) == RxResult(rx, 0, false)
            else if d > 0 then
              && sn != rx.nextSeq && Sub32(sn, rx.nextSeq) + |data| - t <= rx.avail
              && RxStep(rx, sn, data) == RxResult(OooStep(rx, sn, data[..|data| - t]), 0, false)
            else
              && |data| - s - t <= rx.avail
              && var r := InOrderStep(rx, data[s..|data| - t]);
                 RxStep(rx, sn, data) == RxResult(r.0, r.1, true)
  {
    hide W32, Add32, TrimRxbuf, TrimCorner, OooStep, InOrderStep, RxWf;
    RxWfBounds(rx);
    TrimFits(rx, sn, data);
    TrimByDistance(rx.nextSeq, rx.avail, sn, |data|, d);
    SeqShift(rx.nextSeq, sn, d);
    if d > 0 {
      var t := Max(0, d + |data| - rx.avail);
      if t <= |data| {
        assert data[0..|data| - t] == data[..|data| - t];
      }
    }
  }

  lemma RxWfBounds(rx: Rx)
    requires RxWf(rx)
    ensures rx.avail <= |rx.ring| < TWO31
  {
  }

  lemma SeqShift(nextSeq: u32, sn: u32, d: int)
    requires -TWO31 < d < TWO31 && sn == W32(nextSeq + d)
    ensures Add32(sn, 0) == sn
    ensures d > 0 ==> sn != nextSeq
    ensures d <= 0 ==> Add32(sn, -d) == nextSeq
  {
  }

  /** The next expected bytes move the receive position over all of them that fit, and possibly over the
      out-of-order interval as well. */
  lemma InOrderProgress(rx: Rx, irs: u32, rcv: int, stream: seq<byte>, off: int, n: int)
    requires RxHolds(rx, irs, rcv, stream)
    requires 0 <= off <= rcv < off + n && n < TWO16 && off + n <= |stream| && rcv - off < TWO31
    requires Trimmable(rx, W32(irs + off), n)
    ensures var r := RxStep(rx, W32(irs + off), stream[off..off + n]);
            r.inOrder && r.bump >= Min(off + n - rcv, rx.avail)
  {
    hide W32, Holds, RxStep, InOrderStep, TrimCorner, RxHolds, RxWf;
    RxHoldsBounds(rx, irs, rcv, stream);
    var d := off - rcv;
    SeqRebase(irs, rcv, d);
    RxStepByDistance(rx, W32(irs + off), stream[off..off + n], d);
    var t := Max(0, d + n - rx.avail);
    SliceSlice(stream, off, n, -d, n - t);
    InOrderHolds(rx, irs, rcv, stream, n + d - t);
  }

  /** Out-of-order payload that starts or extends the interval is kept; other payload is not. */
  lemma OooStepStores(rx: Rx, irs: u32, rcv: int, stream: seq<byte>, off: int, n: int)
    requires RxHolds(rx, irs, rcv, stream) && 0 < n < TWO16
    requires rcv < off && off + n <= rcv + rx.avail && off + n <= |stream|
    ensures W32(irs + off) != rx.nextSeq && Sub32(W32(irs + off), rx.nextSeq) + n <= rx.avail
    ensures var r := OooStep(rx, W32(irs + off), stream[off..off + n]);
            var o, o' := rcv + OooDist(rx), rcv + OooDist(r);
            if rx.oooLen == 0 then o' == off && r.oooLen == n
            else if off + n == o then o' == off && o' + r.oooLen == o + rx.oooLen
            else if off == o + rx.oooLen then o' == o && o' + r.oooLen == off + n
            else r == rx
  {
    hide W32, Add32, Sub32, Holds, RingWrite, RxHolds, RxWf;
    RxHoldsBounds(rx, irs, rcv, stream);
    SeqGap(irs, rcv, off);
    SeqGap(irs, rcv, rcv);
    SeqMeets(irs, rcv, off);
    if rx.oooLen != 0 {
      OooMeets(rx, irs, rcv, stream, off, n);
    }
  }

  /** In-order bytes that reach the interval take it over with all it adds, if and only if they overlap it by no
      more than its length modulo 2^16, as the length is passed on as 16 bits. */
  lemma InOrderCatchesUp(rx: Rx, irs: u32, rcv: int, stream: seq<byte>, n: int)
    requires RxHolds(rx, irs, rcv, stream) && rx.oooLen != 0
    requires 0 < n <= rx.avail && rcv + n <= |stream|
    ensures var o := rcv + OooDist(rx);
            var r := InOrderStep(rx, stream[rcv..rcv + n]);
            && r.1 == (if o <= rcv + n < o + rx.oooLen && rcv + n - o <= W16(rx.oooLen) then o + rx.oooLen - rcv else n)
            && r.0.oooLen == (if rcv + n < o then rx.oooLen else 0)
            && (rcv + n < o ==> rcv + n + OooDist(r.0) == o)
  {
    hide W32, Holds, RingWrite, OooCatchUp;
    RxHoldsBounds(rx, irs, rcv, stream);
    var w := rx.(ring := RingWrite(rx.ring, rx.nextPos, stream[rcv..rcv + n]));
    AbsorbCatchingUp(w, n);
    AbsorbHolds(w, irs, rcv, stream, n);
    var d := OooDist(rx) - n;
    SeqRebase(irs, rcv + n, d);
    CatchUpByDistance(Absorb(w, n), n, d);
  }

  function Zeros(n: nat): (z: seq<byte>)
    ensures |z| == n
  {
    seq(n, _ => 0)
  }

  /** A fresh receive half with a ring of 131072 bytes gets bytes 1 to 65536 of the stream in two segments ahead of
      byte 0, and then bytes 0 and 1: the interval is dropped, and 65535 bytes that were received are lost. */
  lemma LongIntervalDropped()
    ensures var rx := Rx(Zeros(0x2_0000), 0x2_0000, 0, 0, 0, 0);
            && RxWf(rx) && Trimmable(rx, 1, 0x8000)
            && var one := RxStep(rx, 1, Zeros(0x8000)).rx;
            && RxWf(one) && Trimmable(one, 0x8001, 0x8000)
            && var two := RxStep(one, 0x8001, Zeros(0x8000)).rx;
            && RxWf(two) && Trimmable(two, 0, 2)
            && two.oooStart == 1 && two.oooLen == 0x1_0000
            && var r := RxStep(two, 0, Zeros(2));
            && r.bump == 2 && r.rx.oooLen == 0
  {
    hide W32, RxStep, OooStep, InOrderStep, Zeros, Holds;
    var stream := Zeros(0x2_0000);
    var rx := Rx(stream, 0x2_0000, 0, 0, 0, 0);
    FreshHolds(stream);
    AheadOf(rx, stream, 1);
    var one := RxStep(rx, 1, Zeros(0x8000)).rx;
    AheadOf(one, stream, 0x8001);
    var two := RxStep(one, 0x8001, Zeros(0x8000)).rx;
    ZerosSlice(0x2_0000, 0, 2);
    WholeData(Zeros(2));
    RxHoldsBounds(two, 0, 0, stream);
    SmallSeq(0);
    RxStepByDistance(two, 0, Zeros(2), 0);
    InOrderCatchesUp(two, 0, 0, stream, 2);
  }

  lemma FreshHolds(ring: seq<byte>)
    requires 0 < |ring| < TWO31
    ensures RxHolds(Rx(ring, |ring|, 0, 0, 0, 0), 0, 0, ring)
  {
  }

  /** Half of the interval arrives, ahead of the next expected byte. */
  lemma AheadOf(rx: Rx, stream: seq<byte>, off: int)
    requires stream == Zeros(0x2_0000) && (off == 1 || off == 0x8001)
    requires RxHolds(rx, 0, 0, stream) && rx.avail == 0x2_0000 == |rx.ring|
    requires if off == 1 then rx.oooLen == 0 else rx.oooLen == 0x8000 && OooDist(rx) == 1
    ensures Trimmable(rx, off, 0x8000)
    ensures var r := RxStep(rx, off, Zeros(0x8000)).rx;
            && RxHolds(r, 0, 0, stream) && r.avail == 0x2_0000 == |r.ring|
            && r.oooLen == off + 0x7FFF && OooDist(r) == 1 && r.oooStart == 1
  {
    hide W32, RxStep, OooStep, Zeros, Holds;
    RxHoldsBounds(rx, 0, 0, stream);
    SmallSeq(0);
    SmallSeq(off);
    ZerosSlice(0x2_0000, off, 0x8000);
    WholeData(Zeros(0x8000));
    RxStepByDistance(rx, off, Zeros(0x8000), off);
    RxStepHolds(rx, 0, 0, stream, off, 0x8000);
    OooStepStores(rx, 0, 0, stream, off, 0x8000);
    RxHoldsBounds(RxStep(rx, off, Zeros(0x8000)).rx, 0, 0, stream);
  }

  lemma SmallSeq(n: u32)
    ensures W32(n) == n && W32(0 + n) == n
  {
  }

  lemma WholeData(data: seq<byte>)
    ensures data[..|data|] == data && data[0..|data|] == data
  {
  }

  lemma ZerosSlice(n: nat, a: nat, m: nat)
    requires a + m <= n
    ensures Zeros(n)[a..a + m] == Zeros(m)
  {
  }

  /** In the corner the segment is kept whole, and the byte that belongs just past the window is bound for
      the place of the oldest byte not yet freed. */
  lemma CornerHitsOldestByte(rx: Rx, sn: u32, n: u16)
    requires RxWf(rx) && TrimCorner(rx.nextSeq, rx.avail, sn, n)
    ensures TrimRxbuf(rx.nextSeq, rx.avail, sn, n) == Keep(0, 0)
    ensures var d := Sub32(sn, rx.nextSeq);
            && 0 < d <= rx.avail < d + n
            && Advance(Advance(rx.nextPos, d, |rx.ring|), rx.avail - d, |rx.ring|)
               == Advance(rx.nextPos, rx.avail, |rx.ring|)
  {
    hide W32;
  }

  // ------------------------------------------------------------ the transmit half

  /** Stream offset of the end of the bytes that may be sent. */
  function HeadOf(tx: Tx, una: int): int
    requires TxWf(tx)
  {
    una + tx.sent + TxBuffered(tx)
  }

  /** A genuine acknowledgement is accepted if and only if it is not older than what is acknowledged,
      and moves the acknowledged offset to the offset it stands for. */
  lemma GenuineAck(tx: Tx, iss: u32, una: int, written: seq<byte>, x: int)
    requires TxHolds(tx, iss, una, written)
    requires una - TWO31 < x <= HeadOf(tx, una)
    ensures ValidRxAck(tx.nextSeq, tx.sent, tx.nextPos, tx.head, |tx.ring|, W32(iss + x))
         == if x >= una then Some(x - una) else None
  {
    hide W32, Holds, ValidRxAck, BufAvail;
    RxAckExact(tx.nextSeq, tx.sent, tx.nextPos, tx.head, |tx.ring|, W32(iss + x));
    SeqGap(iss, una, una + tx.sent);
    SeqBack(iss, una, tx.sent);
    AckDistance(iss, una, x);
  }

  lemma AckDistance(iss: u32, una: int, x: int)
    requires una - TWO31 < x < una + TWO31
    ensures SeqDist(W32(iss + una), W32(iss + x), 0) == if x >= una then x - una else x - una + TWO32
  {
    hide W32;
    W32Shift(iss + una, x - una);
    W32Range(W32(iss + una) + (x - una));
    W32Range(W32(iss + x) - W32(iss + una));
  }

  lemma AckedHolds(tx: Tx, iss: u32, una: int, written: seq<byte>, b: u32)
    requires TxHolds(tx, iss, una, written)
    requires b <= tx.sent + TxBuffered(tx)
    ensures TxHolds(Acked(tx, b), iss, una + b, written)
    ensures HeadOf(Acked(tx, b), una + b) == HeadOf(tx, una)
  {
    hide W32, Holds, Advance, BufAvail;
    HoldsSub(tx.ring, written, una, |written|, una + b, |written|);
    if b > tx.sent {
      var k := b - tx.sent;
      SeqGap(iss, una + tx.sent, una + b);
      AdvanceMod(una + tx.sent, k, |tx.ring|);
      BufAdvance(tx.nextPos, k, tx.head, |tx.ring|);
    }
  }

  /** Moving the send position leaves that much less to send. */
  lemma BufAdvance(pos: u32, k: u32, head: u32, len: u32)
    requires pos < len && head < len && k <= BufAvail(pos, head, len)
    ensures BufAvail(Advance(pos, k, len), head, len) == BufAvail(pos, head, len) - k
  {
    ModAdd(pos, k, len);
    ModSmall(pos, len);
  }

  lemma RewindHolds(tx: Tx, iss: u32, una: int, written: seq<byte>)
    requires TxHolds(tx, iss, una, written)
    ensures TxHolds(Rewind(tx), iss, una, written)
    ensures HeadOf(Rewind(tx), una) == HeadOf(tx, una)
  {
    hide W32, Holds;
    SeqGap(iss, una, una + tx.sent);
    SeqBack(iss, una, tx.sent);
    ModAdd(una, tx.sent, |tx.ring|);
    HeadMod(tx, una);
    ModDistance(una, HeadOf(tx, una), |tx.ring|);
  }

  lemma SeqBack(iss: u32, a: int, n: u32)
    ensures Sub32(W32(iss + a + n), n) == W32(iss + a)
  {
  }

  lemma HeadMod(tx: Tx, una: int)
    requires TxWf(tx) && tx.nextPos == (una + tx.sent) % |tx.ring|
    ensures tx.head == HeadOf(tx, una) % |tx.ring|
  {
    ModAdd(una + tx.sent, TxBuffered(tx), |tx.ring|);
  }

  lemma AckStepHolds(f: Flow, p: Segment, iss: u32, una: int, written: seq<byte>, x: int)
    requires FlowWf(f) && TxHolds(f.tx, iss, una, written)
    requires una - TWO31 < x <= HeadOf(f.tx, una) && p.ack == W32(iss + x)
    ensures var r := AckStep(f, p);
            && una + r.bump == (if p.isAck then Max(una, x) else una)
            && TxHolds(r.flow.tx, iss, una + r.bump, written)
            && HeadOf(r.flow.tx, una + r.bump) == HeadOf(f.tx, una)
            && r.flow.tx.ring == f.tx.ring && r.flow.bumpSeq == f.bumpSeq
  {
    hide TxHolds, Acked, Rewind, ValidRxAck, W32, Add32;
    if p.isAck {
      GenuineAck(f.tx, iss, una, written, x);
      if x >= una {
        AckedHolds(f.tx, iss, una, written, x - una);
        AckedRing(f.tx, x - una);
        RewindHolds(Acked(f.tx, x - una), iss, x, written);
        RewindRing(Acked(f.tx, x - una));
      }
    }
  }

  lemma AckedRing(tx: Tx, b: u32)
    requires TxWf(tx) && b <= tx.sent + TxBuffered(tx)
    ensures Acked(tx, b).ring == tx.ring
  {
  }

  lemma RewindRing(tx: Tx)
    requires TxWf(tx)
    ensures Rewind(tx).ring == tx.ring
  {
  }

  /** The segment sent carries the stream bytes at its sequence number. */
  lemma TransmitHolds(f: Flow, iss: u32, una: int, written: seq<byte>)
    requires FlowWf(f) && TxHolds(f.tx, iss, una, written)
    requires Transmit(f).Some?
    ensures var (g, p) := Transmit(f).value;
            var off := una + f.tx.sent;
            && TxHolds(g.tx, iss, una, written)
            && HeadOf(g.tx, una) == HeadOf(f.tx, una)
            && p.sn == W32(iss + off)
            && 0 < |p.payload| <= TCP_MSS && off + |p.payload| <= HeadOf(f.tx, una)
            && p.payload == written[off..off + |p.payload|]
            && NextIs(g.tx, f.tx, |p.payload|)
  {
    hide W32, Holds, RingRead, RxWf, Window;
    var len := Min(Available(f.tx), TCP_MSS);
    var off := una + f.tx.sent;
    SeqGap(iss, off, off + len);
    ModAdd(off, len, |f.tx.ring|);
    ModSmall(f.tx.nextPos, |f.tx.ring|);
    ReadHolds(f.tx.ring, written, una, |written|, off, len);
  }

  predicate NextIs(g: Tx, tx: Tx, n: int) { g.sent == tx.sent + n && g.ring == tx.ring }

  /** A new head given by its ring position. */
  lemma NewHeadHolds(tx: Tx, iss: u32, una: int, written: seq<byte>, h: int)
    requires TxHolds(tx, iss, una, written)
    requires HeadOf(tx, una) <= h <= |written|
    ensures HeadOk(tx, h % |tx.ring|)
    ensures TxHolds(tx.(head := h % |tx.ring|), iss, una, written)
    ensures HeadOf(tx.(head := h % |tx.ring|), una) == h
  {
    ModDistance(una + tx.sent, h, |tx.ring|);
  }

  /** The application appends to the send ring. */
  lemma AppendHolds(tx: Tx, iss: u32, una: int, written: seq<byte>, data: seq<byte>)
    requires TxHolds(tx, iss, una, written)
    requires |written| + |data| < una + |tx.ring|
    ensures var ring := RingWrite(tx.ring, |written| % |tx.ring|, data);
            && TxHolds(tx.(ring := ring), iss, una, written + data)
            && HeadOf(tx.(ring := ring), una) == HeadOf(tx, una)
  {
    hide W32, Holds, RingWrite;
    var all := written + data;
    var n := |written|;
    assert all[n..n + |data|] == data;
    HoldsMore(tx.ring, written, data, una, n);
    WriteHolds(tx.ring, all, una, n, n, |data|);
    HoldsJoin(RingWrite(tx.ring, n % |tx.ring|, data), all, una, n, n, n + |data|);
  }

  lemma HoldsMore(ring: seq<byte>, stream: seq<byte>, data: seq<byte>, lo: int, hi: int)
    requires Holds(ring, stream, lo, hi)
    ensures Holds(ring, stream + data, lo, hi)
  {
    var all := stream + data;
    forall k {:trigger all[k]} | lo <= k < hi
      ensures ring[k % |ring|] == all[k]
    {
      assert all[k] == stream[k];
    }
  }

  /** A duplicate acknowledgement: for the first unacknowledged byte, and without payload. */
  predicate Duplicate(p: Segment, iss: u32, una: int) {
    p.isAck && p.ack == W32(iss + una) && p.payload == []
  }

  /** One more duplicate acknowledgement; only the third in a row goes back. */
  lemma DuplicateCounts(f: Flow, p: Segment, ce: bool, iss: u32, una: int, written: seq<byte>)
    requires FlowWf(f) && TxHolds(f.tx, iss, una, written)
    requires Duplicate(p, iss, una) && f.dupacks < 3
    ensures Trimmable(f.rx, p.sn, 0)
    ensures var g := Packet(f, p, ce).flow;
            && FlowWf(g) && TxHolds(g.tx, iss, una, written)
            && HeadOf(g.tx, una) == HeadOf(f.tx, una)
            && (if f.dupacks < 2 then
                  && g.dupacks == f.dupacks + 1 && g.tx.sent == f.tx.sent && g.rate == f.rate && g.drops == f.drops
                else
                  && g.dupacks == 0 && g.tx.sent == 0 && g.drops == Add32(f.drops, 1)
                  && g.rate == (if f.drops == 0 then f.rate / 2 else f.rate))
  {
    hide W32, Holds, ValidRxAck, RxStep, Rewind, Acked, Available, TxHolds;
    GenuineAck(f.tx, iss, una, written, una);
    AckedHolds(f.tx, iss, una, written, 0);
    AckedSent(f.tx, 0);
    RewindHolds(Acked(f.tx, 0), iss, una, written);
    RewindSent(Acked(f.tx, 0));
    var t := AckStep(f, p).flow.tx;
    TxHoldsWindow(t, iss, una, written, p.wnd);
  }

  lemma AckedSent(tx: Tx, b: u32)
    requires TxWf(tx) && b <= tx.sent
    ensures Acked(tx, b).sent == tx.sent - b
  {
  }

  lemma RewindSent(tx: Tx)
    requires TxWf(tx)
    ensures Rewind(tx).sent == 0
  {
  }

  lemma TxHoldsWindow(tx: Tx, iss: u32, una: int, written: seq<byte>, wnd: u16)
    requires TxHolds(tx, iss, una, written)
    ensures TxHolds(tx.(remoteAvail := wnd), iss, una, written)
    ensures HeadOf(tx.(remoteAvail := wnd), una) == HeadOf(tx, una)
  {
  }

  /** Three duplicate acknowledgements in a row after one that was not: the first two change neither what is in
      flight nor the rate; the third resends from the first unacknowledged byte. */
  lemma ThirdDuplicateRewinds(f: Flow, p: Segment, q: Segment, r: Segment, ce: bool,
                              iss: u32, una: int, written: seq<byte>)
    requires FlowWf(f) && TxHolds(f.tx, iss, una, written) && f.dupacks == 0
    requires Duplicate(p, iss, una) && Duplicate(q, iss, una) && Duplicate(r, iss, una)
    ensures Trimmable(f.rx, p.sn, 0)
    ensures var f1 := Packet(f, p, ce).flow;
            && FlowWf(f1) && Trimmable(f1.rx, q.sn, 0)
            && var f2 := Packet(f1, q, ce).flow;
            && FlowWf(f2) && Trimmable(f2.rx, r.sn, 0)
            && var f3 := Packet(f2, r, ce).flow;
            && f2.tx.sent == f.tx.sent && f2.rate == f.rate
            && f3.tx.sent == 0 && f3.dupacks == 0
            && f3.tx.nextSeq == W32(iss + una) && f3.tx.nextPos == una % |f3.tx.ring|
            && HeadOf(f3.tx, una) == HeadOf(f.tx, una)
            && f3.drops == Add32(f.drops, 1)
            && f3.rate == (if f.drops == 0 then f.rate / 2 else f.rate)
  {
    hide Holds, Packet, Trimmable, RxWf, TxWf;
    DuplicateCounts(f, p, ce, iss, una, written);
    var f1 := Packet(f, p, ce).flow;
    DuplicateCounts(f1, q, ce, iss, una, written);
    var f2 := Packet(f1, q, ce).flow;
    DuplicateCounts(f2, r, ce, iss, una, written);
  }
}
