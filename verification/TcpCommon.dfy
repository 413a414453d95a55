/** Sequence number checks of the fast path. */
module TcpCommon {
  import opened Word

  datatype Trim = Drop | Keep(start: u16, end: u16)

  /** Which bytes of a segment fit the unused receive buffer, in the four wrap cases of the code. */
  function TrimRxbuf(nextSeq: u32, avail: u32, pktSeq: u32, pktBytes: u16): Trim {
    var pa, pb := pktSeq, Add32(pktSeq, pktBytes);
    var sa, sb := nextSeq, Add32(nextSeq, avail);
    if pa <= pb && sa <= sb then
      if pb < sa || pa > sb then Drop
      else Keep(W16(if pa < sa then Sub32(sa, pa) else 0),
                W16(if pb > sb then Sub32(pb, sb) else 0))
    else if pa <= pb && sa > sb then
      if pa > sb && pb < sa then Drop
      else Keep(W16(if pa > sb && pa < sa then Sub32(sa, pa) else 0),
                W16(if pb >= sb && pb < sa then Sub32(pb, sb) else 0))
    else if pa > pb && sa <= sb then
      if pa > sb && pb < sa then Drop
      else Keep(W16(if sa <= pb || sa > pa then Sub32(sa, pa) else 0),
                W16(if pb > sb || sa >= pa then Sub32(pb, sb) else 0))
    else
      Keep(W16(if pa < sa then Sub32(sa, pa) else 0),
           W16(if pb > sb then Sub32(pb, sb) else 0))
  }

  /** The wrap case in which the code forgets to cut the end of the segment. */
  predicate TrimCorner(nextSeq: u32, avail: u32, pktSeq: u32, pktBytes: u16) {
    && pktSeq + pktBytes >= TWO32
    && nextSeq + avail < TWO32
    && nextSeq < pktSeq <= nextSeq + avail
  }

  /** Distance of byte `i` of a segment from the start of the window, going forward. */
  function SeqDist(nextSeq: u32, pktSeq: u32, i: int): u32 { W32(pktSeq + i - nextSeq) }

  /** The segment and the window, both with their end points, have a sequence number in common. */
  ghost predicate Touches(nextSeq: u32, avail: u32, pktSeq: u32, pktBytes: u16) {
    exists i :: 0 <= i <= pktBytes && SeqDist(nextSeq, pktSeq, i) <= avail
  }

  /** The trim is the circular intersection: a segment is kept if and only if it touches the window,
      and then a byte survives if and only if its sequence number lies in the window. */
  ghost predicate TrimIsIntersection(nextSeq: u32, avail: u32, pktSeq: u32, pktBytes: u16) {
    var r := TrimRxbuf(nextSeq, avail, pktSeq, pktBytes);
    && (r.Keep? <==> Touches(nextSeq, avail, pktSeq, pktBytes))
    && (r.Keep? ==>
          && r.start + r.end <= pktBytes
          && forall i :: 0 <= i < pktBytes ==>
               (r.start <= i < pktBytes - r.end <==> SeqDist(nextSeq, pktSeq, i) < avail))
  }

  /** The trim by the signed distance `d` of the segment from the start of the window. */
  function TrimAt(avail: int, d: int, n: int): Trim
    requires 0 <= n < TWO16 && 0 <= avail
  {
    if d < -n || d > avail then Drop
    else Keep(Max(0, -d), Max(0, d + n - avail))
  }

  lemma TrimByDistance(nextSeq: u32, avail: u32, pktSeq: u32, n: u16, d: int)
    requires avail + n < TWO32
    requires avail - TWO32 < d < TWO32 - n && W32(nextSeq + d) == pktSeq
    requires !TrimCorner(nextSeq, avail, pktSeq, n)
    ensures TrimRxbuf(nextSeq, avail, pktSeq, n) == TrimAt(avail, d, n)
  {
    hide W32;
    SeqTurn(nextSeq, pktSeq, d);
  }

  lemma SeqTurn(nextSeq: u32, pktSeq: u32, d: int)
    requires -TWO32 < d < TWO32 && W32(nextSeq + d) == pktSeq
    ensures pktSeq == nextSeq + d || pktSeq == nextSeq + d - TWO32 || pktSeq == nextSeq + d + TWO32
  {
  }

  /** The distances of a segment's bytes, going forward, from that of its first. */
  lemma SeqDistFrom(nextSeq: u32, pktSeq: u32, d: int, i: int)
    requires W32(nextSeq + d) == pktSeq && -TWO32 <= d + i < TWO32
    ensures SeqDist(nextSeq, pktSeq, i) == if d + i < 0 then d + i + TWO32 else d + i
  {
  }

  lemma CornerNoIntersection(nextSeq: u32, avail: u32, pktSeq: u32, pktBytes: u16)
    requires avail + pktBytes < TWO32 && TrimCorner(nextSeq, avail, pktSeq, pktBytes)
    ensures !TrimIsIntersection(nextSeq, avail, pktSeq, pktBytes)
  {
    // The byte just past the window survives.
    var i := nextSeq + avail - pktSeq;
    assert SeqDist(nextSeq, pktSeq, i) == avail;
    assert TrimRxbuf(nextSeq, avail, pktSeq, pktBytes) == Keep(0, 0);
  }

  lemma TrimAtIntersection(nextSeq: u32, avail: u32, pktSeq: u32, n: u16, d: int)
    requires avail + n < TWO32 && W32(nextSeq + d) == pktSeq && avail - TWO32 < d && d + n < TWO32
    requires TrimRxbuf(nextSeq, avail, pktSeq, n) == TrimAt(avail, d, n)
    ensures TrimIsIntersection(nextSeq, avail, pktSeq, n)
  {
    hide W32, TrimRxbuf, SeqDist;
    forall i {:trigger SeqDist(nextSeq, pktSeq, i)} | 0 <= i <= n
      ensures SeqDist(nextSeq, pktSeq, i) == if d + i < 0 then d + i + TWO32 else d + i
    {
      SeqDistFrom(nextSeq, pktSeq, d, i);
    }
    if 0 <= d + n && d <= avail {
      assert SeqDist(nextSeq, pktSeq, Max(0, -d)) <= avail;
    }
  }

  /** For every window and every segment length the trim is the circular intersection
      exactly outside the corner. */
  lemma TrimExactOutsideCorner(nextSeq: u32, avail: u32, pktSeq: u32, pktBytes: u16)
    requires avail + pktBytes < TWO32
    ensures TrimIsIntersection(nextSeq, avail, pktSeq, pktBytes)
       <==> !TrimCorner(nextSeq, avail, pktSeq, pktBytes)
  {
    hide TrimIsIntersection, TrimRxbuf, TrimAt;
    if TrimCorner(nextSeq, avail, pktSeq, pktBytes) {
      CornerNoIntersection(nextSeq, avail, pktSeq, pktBytes);
    } else {
      var m := SeqDist(nextSeq, pktSeq, 0);
      var d := if m + pktBytes < TWO32 then m else m - TWO32;
      TrimByDistance(nextSeq, avail, pktSeq, pktBytes, d);
      TrimAtIntersection(nextSeq, avail, pktSeq, pktBytes, d);
    }
  }

  /** One input in the corner: two bytes of room, four bytes kept. */
  lemma TrimCornerCounterexample()
    ensures TrimRxbuf(0xFFFF_FFFC, 2, 0xFFFF_FFFE, 4) == Keep(0, 0)
    ensures !TrimIsIntersection(0xFFFF_FFFC, 2, 0xFFFF_FFFE, 4)
  {
    assert SeqDist(0xFFFF_FFFC, 0xFFFF_FFFE, 2) == 4;
  }

  /** Bytes between the send position and the head of the send buffer. */
  function BufAvail(nextPos: u32, head: u32, len: u32): (r: int)
    requires nextPos < len && head < len
    ensures 0 <= r < len
  {
    if nextPos <= head then head - nextPos else len - nextPos + head
  }

  /** How far a valid acknowledgement moves the first unacknowledged byte, or None for an invalid one.
      The upper end is the buffered head, not the last byte sent: future acknowledgements are allowed. */
  function ValidRxAck(nextSeq: u32, sent: u32, nextPos: u32, head: u32, len: u32, ack: u32): Option<u32>
    requires nextPos < len && head < len
  {
    var a := Sub32(nextSeq, sent);
    var b := Add32(nextSeq, BufAvail(nextPos, head, len));
    if a <= b then
      if ack < a || ack > b then None else Some(Sub32(ack, a))
    else
      if a > ack && ack > b then None else Some(Sub32(ack, a))
  }

  /** Accepted are exactly the acknowledgements in the circular interval from the first
      unacknowledged byte to the buffered head. */
  lemma RxAckExact(nextSeq: u32, sent: u32, nextPos: u32, head: u32, len: u32, ack: u32)
    requires nextPos < len && head < len && sent + BufAvail(nextPos, head, len) < TWO32
    ensures var d := SeqDist(Sub32(nextSeq, sent), ack, 0);
            ValidRxAck(nextSeq, sent, nextPos, head, len, ack)
              == if d <= sent + BufAvail(nextPos, head, len) then Some(d) else None
  {
  }

  /** Bytes that may be sent now: unsent bytes, capped by the peer's window.
      The window subtraction wraps around. */
  function TxAvail(nextPos: u32, head: u32, len: u32, remoteAvail: u32, sent: u32): (r: u32)
    requires nextPos < len && head < len
  {
    Min(BufAvail(nextPos, head, len), Sub32(remoteAvail, sent))
  }
}
