/** The object send ring of a connection: headers and payloads in a circular buffer. */
module ObjSend {
  import opened Word
  import opened Ring
  import opened FlowOps
  import opened ObjOps

  /** Overwriting held bytes keeps all others. */
  lemma SpliceHolds(ring: seq<byte>, stream: seq<byte>, lo: int, at: int, data: seq<byte>)
    requires Holds(ring, stream, lo, |stream|) && |stream| <= lo + |ring|
    requires lo <= at && at + |data| <= |stream|
    ensures Holds(RingWrite(ring, at % |ring|, data), Splice(stream, at, data), lo, |stream|)
  {
    var r, t := RingWrite(ring, at % |ring|, data), Splice(stream, at, data);
    forall k {:trigger t[k]} | lo <= k < |stream|
      ensures r[k % |ring|] == t[k]
    {
      if k >= at {
        WriteAt(ring, at, data, k);
      } else {
        WriteAt(ring, at, data, k + |ring|);
        ModAdd(k, |ring|, |ring|);
      }
    }
  }

  /** The ring holds its own contents as a continuation of the stream. */
  lemma ExtendHolds(ring: seq<byte>, stream: seq<byte>, lo: int, more: seq<byte>)
    requires Holds(ring, stream, lo, |stream|) && |more| <= |ring|
    requires more == RingRead(ring, |stream| % |ring|, |more|)
    ensures Holds(ring, stream + more, lo, |stream| + |more|)
  {
    var t := stream + more;
    forall k {:trigger t[k]} | lo <= k < |t|
      ensures ring[k % |ring|] == t[k]
    {
      if k < |stream| {
        assert t[k] == stream[k];
      } else {
        ModAdd(|stream|, k - |stream|, |ring|);
      }
    }
  }

  lemma ReadParts(ring: seq<byte>, a: int, m: int, n: int)
    requires 0 < |ring| && 0 <= a && 0 <= m && 0 <= n && m + n <= |ring|
    ensures RingRead(ring, a % |ring|, m + n)
         == RingRead(ring, a % |ring|, m) + RingRead(ring, (a + m) % |ring|, n)
  {
    hide RingRead;
    ModAdd(a, m, |ring|);
    var p, len := a % |ring|, |ring|;
    ReadPartsAt(ring, p, m, n, if p + m < len then p + m else p + m - len);
  }

  lemma ReadPartsAt(ring: seq<byte>, p: int, m: int, n: int, q: int)
    requires 0 <= p < |ring| && 0 <= m && 0 <= n && m + n <= |ring|
    requires q == if p + m < |ring| then p + m else p + m - |ring|
    ensures RingRead(ring, p, m + n) == RingRead(ring, p, m) + RingRead(ring, q, n)
  {
    hide RingRead;
    var a, b, c := RingRead(ring, p, m), RingRead(ring, q, n), RingRead(ring, p, m + n);
    forall i | 0 <= i < m + n
      ensures c[i] == if i < m then a[i] else b[i - m]
    {
      ReadAt(ring, p, m + n, i);
      if i < m {
        ReadAt(ring, p, m, i);
      } else {
        ReadAt(ring, q, n, i - m);
      }
    }
    assert c == a + b;
  }

  lemma ReadAt(ring: seq<byte>, p: int, n: int, i: int)
    requires 0 <= p < |ring| && 0 <= i < n <= |ring|
    ensures RingRead(ring, p, n)[i] == ring[if p + i < |ring| then p + i else p + i - |ring|]
  {
  }

  /** Frames of the same size one of which differs from the other in the status only. */
  lemma HeaderSplice(objs: seq<Obj>, i: int, s: Status)
    requires AllWf(objs) && 0 <= i < |objs|
    ensures AllWf(SetStatus(objs, i, s)) && Off(objs, i) + HDR <= |Stream(objs)|
    ensures Stream(SetStatus(objs, i, s))
         == Splice(Stream(objs), Off(objs, i), Header(objs[i].dstlen, objs[i].len, Magic(s)))
  {
    hide Frame, Header, Splice, Off;
    var o := objs[i].(status := s);
    FrameAt(objs, i);
    StreamUpdate(objs, i, o);
    FrameParts(objs[i]);
    FrameParts(o);
    SpliceHead(Stream(objs), Off(objs, i), Header(o.dstlen, o.len, Magic(objs[i].status)),
               Header(o.dstlen, o.len, Magic(s)), o.payload);
  }

  lemma FrameParts(o: Obj)
    requires ObjWf(o)
    ensures Frame(o) == Header(o.dstlen, o.len, Magic(o.status)) + o.payload
  {
  }

  lemma SpliceHead(st: seq<byte>, at: nat, was: seq<byte>, h: seq<byte>, payload: seq<byte>)
    requires |was| == |h| && at + |h + payload| <= |st| && st[at..at + |h + payload|] == was + payload
    ensures Splice(st, at, h + payload) == Splice(st, at, h)
  {
    var mid := st[at..at + |h + payload|];
    assert st[at + |h|..at + |h + payload|] == mid[|h|..] == payload;
    assert st[at + |h|..] == st[at + |h|..at + |h + payload|] + st[at + |h + payload|..];
  }

  ghost predicate HeaderOf(h: seq<byte>, o: Obj) {
    |h| == HDR && LenOf(h) == o.len && DstlenOf(h) == o.dstlen
  }

  ghost predicate RestUnsent(objs: seq<Obj>, j: int) {
    forall i {:trigger objs[i]} :: 0 <= j < i < |objs| ==> !objs[i].status.Sent?
  }

  lemma RestOfOrdered(objs: seq<Obj>, k: int)
    requires Ordered(objs, k)
    ensures RestUnsent(objs, k)
  {
  }

  lemma RestAfter(objs: seq<Obj>, j: int, s: Status)
    requires RestUnsent(objs, j) && 0 <= j < |objs|
    ensures RestUnsent(SetStatus(objs, j, s), j + 1)
    ensures j + 1 < |objs| ==> !SetStatus(objs, j, s)[j + 1].status.Sent?
  {
  }

  class ObjConnection {
    const txbLen: u32
    const txb: array<byte>
    var txbHead: u32
    var txbHeadAlloc: u32
    var txbTail: u32
    /** All objects allocated so far, how many of them are exposed, and the offset of the oldest byte kept. */
    ghost var objs: seq<Obj>
    ghost var sent: int
    ghost var tailOff: int

    /** The ring holds the frames from the tail on. */
    ghost predicate Mem()
      reads this, txb
    {
      && 0 < txbLen == txb.Length
      && AllWf(objs) && 0 <= tailOff
      && Holds(txb[..], Stream(objs), tailOff, |Stream(objs)|)
      && |Stream(objs)| - tailOff < txbLen
      && txbTail == tailOff % txbLen && txbHeadAlloc == |Stream(objs)| % txbLen
    }

    ghost predicate Valid()
      reads this, txb
    {
      && Mem() && Ordered(objs, sent)
      && tailOff <= Off(objs, sent) && txbHead == Off(objs, sent) % txbLen
    }

    constructor (ring: array<byte>)
      requires 0 < ring.Length < TWO32
      ensures Valid() && objs == [] && sent == 0 && txb == ring
    {
      txbLen := ring.Length;
      txb := ring;
      txbHead := 0;
      txbHeadAlloc := 0;
      txbTail := 0;
      objs := [];
      sent := 0;
      tailOff := 0;
    }

    /** One byte of the ring always stays free. */
    method AllocBytes() returns (n: u32)
      requires Mem() && tailOff <= |Stream(objs)|
      ensures n == txbLen - 1 - (|Stream(objs)| - tailOff)
    {
      ModDistance(tailOff, |Stream(objs)|, txbLen);
      if txbTail <= txbHeadAlloc {
        n := txbLen - txbHeadAlloc + txbTail - 1;
      } else {
        n := txbTail - txbHeadAlloc - 1;
      }
    }

    /** Allocate an object at the end. Its header says that it is not complete; its payload are two pieces of
        the ring, here its position and what they hold. */
    method TxAlloc(dstlen: int, len: nat) returns (ok: bool, pos: u32)
      requires Valid() && 0 <= dstlen < 256 && HDR + dstlen + len < TWO32
      modifies this`objs, this`txbHeadAlloc, txb
      ensures Valid()
      ensures ok <==> HDR + dstlen + len < txbLen - (|Stream(old(objs))| - tailOff)
      ensures !ok ==> objs == old(objs) && txb[..] == old(txb[..])
      ensures ok ==>
                && |objs| == |old(objs)| + 1 && objs[..|old(objs)|] == old(objs)
                && pos == Off(objs, |old(objs)|) % txbLen
                && var o := objs[|old(objs)|]; o.dstlen == dstlen && o.len == len && o.status.Open?
    {
      hide W32, Header, Holds, RingWrite, RingRead, Ordered, Off, Stream, Frame, LenOf, MagicOf, DstlenOf;
      Bounds();
      var total := W32(HDR + dstlen + len);
      TotalIsFrameExactly(dstlen, len);
      var avail := AllocBytes();
      if avail < total {
        return false, 0;
      }
      pos := txbHeadAlloc;
      WriteHeader(pos, Header(dstlen, len, Magic(Open)));
      ghost var body := RingRead(txb[..], (|Stream(objs)| + HDR) % txbLen, total - HDR);
      ghost var o := Obj(dstlen, len, body, Open);
      AppendFacts(old(txb[..]), txb[..], objs, tailOff, o);
      txbHeadAlloc := Advance(txbHeadAlloc, total, txbLen);
      AllocPosition(|Stream(objs)|, total, txbLen);
      AppendOrdered(objs, sent, o);
      objs := objs + [o];
      ok := true;
    }

    method WriteHeader(pos: u32, h: seq<byte>)
      requires 0 < txbLen == txb.Length && pos < txbLen && |h| == HDR <= txbLen
      modifies txb
      ensures txb[..] == RingWrite(old(txb[..]), pos, h)
    {
      WriteRing(txb, pos, h);
    }

    lemma Bounds()
      requires Valid()
      ensures tailOff <= Off(objs, sent) <= |Stream(objs)|
    {
      StreamPrefix(objs, sent);
    }

    /** The bytes from tail to head, those the network may read, are whole frames of exposed objects in the
        order of allocation, less what was acknowledged. */
    lemma ExposedBytes()
      requires Valid()
      ensures Off(objs, sent) - tailOff <= txbLen && tailOff <= |Stream(objs[..sent])|
      ensures RingRead(txb[..], txbTail, Off(objs, sent) - tailOff) == Stream(objs[..sent])[tailOff..]
    {
      StreamPrefix(objs, sent);
      ReadHolds(txb[..], Stream(objs), tailOff, |Stream(objs)|, tailOff, Off(objs, sent) - tailOff);
    }

    /** The owner of object `k` writes part of its payload, at most up to the end of the ring. */
    method Fill(ghost k: int, ghost at: int, pos: u32, data: seq<byte>)
      requires Valid() && 0 <= k < |objs| && objs[k].status.Open?
      requires 0 <= at && at + |data| <= |objs[k].payload|
      requires pos == (Off(objs, k) + HDR + at) % txbLen && pos + |data| <= txbLen
      modifies this`objs, txb
      ensures Valid()
      ensures objs == old(objs)[k := old(objs)[k].(payload := Splice(old(objs)[k].payload, at, data))]
    {
      hide Holds, RingWrite, Ordered;
      ghost var o := objs[k].(payload := Splice(objs[k].payload, at, data));
      FillFacts(txb[..], objs, sent, tailOff, k, at, data);
      DmaWrite(txb, pos, data);
      RingWriteFlat(old(txb[..]), pos, data);
      objs := objs[k := o];
    }

    /** Write the status of object `k`, whose header was read, into its header. */
    method SetMagic(ghost k: int, pos: u32, hdr: seq<byte>, status: Status)
      requires Mem() && 0 <= k < |objs| && tailOff <= Off(objs, k) && pos == Off(objs, k) % txbLen
      requires |hdr| == HDR && LenOf(hdr) == objs[k].len && DstlenOf(hdr) == objs[k].dstlen
      modifies this`objs, txb
      ensures Mem() && objs == SetStatus(old(objs), k, status)
    {
      hide Holds, RingWrite, Header, Off, Splice;
      HeaderSplice(objs, k, status);
      ghost var st := Stream(objs);
      ghost var h := Header(objs[k].dstlen, objs[k].len, Magic(status));
      WriteHeader(pos, Header(DstlenOf(hdr), LenOf(hdr), Magic(status)));
      SpliceHolds(old(txb[..]), st, tailOff, Off(objs, k), h);
      objs := SetStatus(objs, k, status);
    }

    method ReadHeader(ghost k: int, pos: u32) returns (hdr: seq<byte>)
      requires Mem() && 0 <= k < |objs| && tailOff <= Off(objs, k) && pos == Off(objs, k) % txbLen
      ensures |hdr| == HDR && LenOf(hdr) == objs[k].len && DstlenOf(hdr) == objs[k].dstlen
      ensures MagicOf(hdr) == Magic(objs[k].status)
    {
      hide Holds, Header, LenOf, DstlenOf, MagicOf, RingRead;
      FrameAt(objs, k);
      ReadHolds(txb[..], Stream(objs), tailOff, |Stream(objs)|, Off(objs, k), HDR);
      HeaderInFrame(Stream(objs), Off(objs, k), objs[k]);
      HeaderRoundTrip(objs[k].dstlen, objs[k].len, Magic(objs[k].status));
      hdr := ReadRing(txb, pos, HDR);
    }

    /** Object `k` is complete. If it is the first not yet exposed, it is exposed together with the completed
        ones after it; otherwise it is only flagged. */
    method TxSend(ghost k: int, pos: u32)
      requires Valid() && 0 <= k < |objs| && objs[k].status.Open? && pos == Off(objs, k) % txbLen
      modifies this`objs, this`sent, this`txbHead, txb
      ensures Valid()
      ensures (objs, sent) == Complete(old(objs), old(sent), k)
      ensures |Stream(objs)| == |Stream(old(objs))|
    {
      hide Holds, Ordered, Off, Expose, Header, MagicOf, LenOf, DstlenOf;
      Positions(k);
      var hdr := ReadHeader(k, pos);
      if pos == txbHead {
        Scan(k, pos, hdr);
      } else {
        SetMagic(k, pos, hdr, Done);
        FlagFacts(old(objs), sent, k);
      }
    }

    /** Object `k` is the first not exposed if and only if it lies at the head. */
    lemma Positions(k: int)
      requires Valid() && 0 <= k < |objs| && objs[k].status.Open?
      ensures tailOff <= Off(objs, k)
      ensures k == sent <==> Off(objs, k) % txbLen == txbHead
    {
      hide Holds, Off;
      StreamPrefix(objs, k + 1);
      OffNext(objs, k);
      OffOrder(objs, sent, k);
      if Off(objs, k) % txbLen == txbHead {
        ModInjective(Off(objs, sent), Off(objs, k), txbLen);
      }
    }

    method Scan(ghost k: int, start: u32, first: seq<byte>)
      requires Valid() && 0 <= k == sent < |objs| && start == Off(objs, k) % txbLen
      requires HeaderOf(first, objs[k])
      modifies this`objs, this`sent, this`txbHead, txb
      ensures Valid() && (objs, sent) == Expose(old(objs), k)
      ensures |Stream(objs)| == |Stream(old(objs))|
    {
      hide Holds, Ordered, Off, HeaderOf, Expose, Stream, RestUnsent;
      RestOfOrdered(objs, k);
      ghost var j := k;
      var pos, hdr, more := start, first, true;
      while more
        invariant Mem() && k <= j <= |objs| == |old(objs)| && tailOff <= Off(objs, j) && pos == Off(objs, j) % txbLen
        invariant |Stream(objs)| == |Stream(old(objs))| && RestUnsent(objs, j)
        invariant more ==> j < |objs| && Expose(objs, j) == Expose(old(objs), k) && HeaderOf(hdr, objs[j])
        invariant !more ==> (objs, j) == Expose(old(objs), k)
        decreases |objs| - j, more
      {
        pos, hdr, more := ScanOne(j, pos, hdr);
        j := j + 1;
      }
      ExposedValid(old(objs), k);
      txbHead := pos;
      sent := j;
    }

    /** Expose object `j`, and read the header of the next one, if any. */
    method ScanOne(ghost j: int, at: u32, header: seq<byte>) returns (pos: u32, hdr: seq<byte>, more: bool)
      requires Mem() && 0 <= j < |objs| && tailOff <= Off(objs, j) && at == Off(objs, j) % txbLen
      requires HeaderOf(header, objs[j]) && RestUnsent(objs, j)
      modifies this`objs, txb
      ensures Mem() && |objs| == |old(objs)| && |Stream(objs)| == |Stream(old(objs))| && RestUnsent(objs, j + 1)
      ensures tailOff <= Off(objs, j + 1) && pos == Off(objs, j + 1) % txbLen
      ensures more ==> j + 1 < |objs| && Expose(objs, j + 1) == Expose(old(objs), j) && HeaderOf(hdr, objs[j + 1])
      ensures !more ==> (objs, j + 1) == Expose(old(objs), j)
    {
      hide Holds, Ordered, Off, Header, MagicOf, LenOf, DstlenOf, Expose, Stream, SetStatus;
      ghost var before := objs;
      SetMagic(j, at, header, Sent);
      SameSize(before, j);
      NextFacts(before, objs, j, tailOff, txbLen);
      pos := Advance(at, HDR + DstlenOf(header) + LenOf(header), txbLen);
      hdr := header;
      if pos == txbHeadAlloc {
        more := false;
      } else {
        hdr := ReadHeader(j + 1, pos);
        RestAfter(before, j, Sent);
        FlagTells(objs[j + 1].status, MagicOf(hdr));
        more := MagicOf(hdr) % 2 == 1;
      }
      RestAfter(before, j, Sent);
    }

    /** Bytes acknowledged by the peer leave the ring; only exposed bytes can be. */
    method TxDone(n: u32)
      requires Valid() && n <= Off(objs, sent) - tailOff
      modifies this`txbTail, this`tailOff
      ensures Valid() && tailOff == old(tailOff) + n
    {
      hide Ordered, Off;
      Bounds();
      AllocPosition(tailOff, n, txbLen);
      txbTail := Advance(txbTail, n, txbLen);
      tailOff := tailOff + n;
    }
  }

  // ------------------------------------------------------------ facts used above

  lemma AllocPosition(a: int, n: int, len: int)
    requires 0 < len && 0 <= n <= len && 0 <= a
    ensures Advance(a % len, n, len) == (a + n) % len
  {
    ModAdd(a, n, len);
    ModAdd(a % len, n, len);
    ModSmall(a % len, len);
  }

  lemma AppendFacts(was: seq<byte>, ring: seq<byte>, objs: seq<Obj>, lo: int, o: Obj)
    requires AllWf(objs) && ObjWf(o) && 0 <= lo <= |Stream(objs)|
    requires Holds(was, Stream(objs), lo, |Stream(objs)|) && |Stream(objs)| + |Frame(o)| <= lo + |was|
    requires ring == RingWrite(was, |Stream(objs)| % |was|, Header(o.dstlen, o.len, Magic(o.status)))
    requires o.payload == RingRead(ring, (|Stream(objs)| + HDR) % |was|, |o.payload|)
    ensures AllWf(objs + [o]) && Stream(objs + [o]) == Stream(objs) + Frame(o)
    ensures Holds(ring, Stream(objs + [o]), lo, |Stream(objs + [o])|)
    ensures Off(objs + [o], |objs|) == |Stream(objs)| && (objs + [o])[..|objs|] == objs
  {
    hide RingWrite, RingRead, Header, Holds;
    var st, h := Stream(objs), Header(o.dstlen, o.len, Magic(o.status));
    assert (objs + [o])[..|objs|] == objs;
    StreamEnd(objs, o);
    HoldsWrite(was, st, lo, h);
    RoundTrip(was, |st| % |was|, h);
    ReadParts(ring, |st|, HDR, |o.payload|);
    ExtendHolds(ring, st, lo, Frame(o));
  }

  lemma StreamEnd(objs: seq<Obj>, o: Obj)
    requires AllWf(objs) && ObjWf(o)
    ensures AllWf(objs + [o]) && Stream(objs + [o]) == Stream(objs) + Frame(o)
  {
    hide Frame;
    assert (objs + [o])[..|objs|] == objs;
  }

  lemma HoldsWrite(ring: seq<byte>, st: seq<byte>, lo: int, data: seq<byte>)
    requires Holds(ring, st, lo, |st|) && lo <= |st| && |st| + |data| <= lo + |ring|
    ensures Holds(RingWrite(ring, |st| % |ring|, data), st, lo, |st|)
    ensures |RingWrite(ring, |st| % |ring|, data)| == |ring|
  {
    WriteHolds(ring, st + data, lo, |st|, |st|, |data|);
    assert (st + data)[|st|..|st| + |data|] == data;
    var r := RingWrite(ring, |st| % |ring|, data);
    forall k {:trigger st[k]} | lo <= k < |st|
      ensures r[k % |ring|] == st[k]
    {
      assert (st + data)[k] == st[k];
    }
  }

  lemma AppendOrdered(objs: seq<Obj>, sent: int, o: Obj)
    requires AllWf(objs) && ObjWf(o) && Ordered(objs, sent) && o.status.Open?
    ensures AllWf(objs + [o]) && Ordered(objs + [o], sent) && Off(objs + [o], sent) == Off(objs, sent)
  {
    assert (objs + [o])[..sent] == objs[..sent];
  }

  lemma RingWriteFlat(ring: seq<byte>, pos: int, data: seq<byte>)
    requires 0 <= pos < |ring| && pos + |data| <= |ring|
    ensures RingWrite(ring, pos, data) == ring[..pos] + data + ring[pos + |data|..]
  {
  }

  /** Another payload of the same length changes neither shape nor order. */
  lemma UpdateKeeps(objs: seq<Obj>, sent: int, k: int, o: Obj)
    requires AllWf(objs) && Ordered(objs, sent) && 0 <= k < |objs|
    requires o == objs[k].(payload := o.payload) && |o.payload| == |objs[k].payload|
    ensures AllWf(objs[k := o]) && Ordered(objs[k := o], sent) && ObjWf(objs[k]) && ObjWf(o)
    ensures 0 <= sent <= |objs| && |Frame(o)| == |Frame(objs[k])|
    ensures objs[k].status.Open? ==> sent <= k
  {
  }

  lemma FillFacts(ring: seq<byte>, objs: seq<Obj>, sent: int, lo: int, k: int, at: int, data: seq<byte>)
    requires AllWf(objs) && Ordered(objs, sent) && 0 <= k < |objs| && objs[k].status.Open?
    requires 0 <= at && at + |data| <= |objs[k].payload|
    requires Holds(ring, Stream(objs), lo, |Stream(objs)|) && |Stream(objs)| <= lo + |ring|
    requires lo <= Off(objs, sent) && |data| <= |ring|
    ensures var o := objs[k].(payload := Splice(objs[k].payload, at, data));
            && AllWf(objs[k := o]) && Ordered(objs[k := o], sent)
            && Holds(RingWrite(ring, (Off(objs, k) + HDR + at) % |ring|, data),
                     Stream(objs[k := o]), lo, |Stream(objs[k := o])|)
            && |Stream(objs[k := o])| == |Stream(objs)| && Off(objs[k := o], sent) == Off(objs, sent)
  {
    hide Holds, Splice, Off, AllWf, Ordered, RingWrite, Frame;
    var o := objs[k].(payload := Splice(objs[k].payload, at, data));
    UpdateKeeps(objs, sent, k, o);
    StreamUpdate(objs, k, o);
    OffUpdate(objs, k, o, sent);
    FrameAt(objs, k);
    OffOrder(objs, sent, k);
    SplicePayload(Stream(objs), Off(objs, k), objs[k], at, data);
    SpliceHolds(ring, Stream(objs), lo, Off(objs, k) + HDR + at, data);
  }

  /** Replacing part of the payload of a frame inside the stream. */
  lemma SplicePayload(st: seq<byte>, off: int, o: Obj, at: int, data: seq<byte>)
    requires ObjWf(o) && 0 <= at && at + |data| <= |o.payload|
    requires 0 <= off && off + |Frame(o)| <= |st| && st[off..off + |Frame(o)|] == Frame(o)
    ensures Splice(st, off, Frame(o.(payload := Splice(o.payload, at, data)))) == Splice(st, off + HDR + at, data)
  {
    hide Header;
    var p := Splice(o.payload, at, data);
    var f, g := Frame(o), Frame(o.(payload := p));
    var l, r := Splice(st, off, g), Splice(st, off + HDR + at, data);
    forall i | 0 <= i < |st|
      ensures l[i] == r[i]
    {
      if off <= i < off + |f| {
        assert st[i] == f[i - off];
      }
    }
  }

  lemma HeaderInFrame(st: seq<byte>, off: int, o: Obj)
    requires ObjWf(o) && 0 <= off && off + |Frame(o)| <= |st| && st[off..off + |Frame(o)|] == Frame(o)
    ensures st[off..off + HDR] == Header(o.dstlen, o.len, Magic(o.status))
  {
    hide Header;
    assert st[off..off + HDR] == st[off..off + |Frame(o)|][..HDR];
  }

  lemma SameSize(objs: seq<Obj>, k: int)
    requires AllWf(objs) && 0 <= k < |objs|
    ensures forall s :: AllWf(SetStatus(objs, k, s)) && |Stream(SetStatus(objs, k, s))| == |Stream(objs)|
  {
    hide Off, Header, Splice;
    forall s
      ensures AllWf(SetStatus(objs, k, s)) && |Stream(SetStatus(objs, k, s))| == |Stream(objs)|
    {
      HeaderSplice(objs, k, s);
    }
  }

  lemma FlagFacts(objs: seq<Obj>, sent: int, k: int)
    requires AllWf(objs) && Ordered(objs, sent) && 0 <= k < |objs| && k != sent && objs[k].status.Open?
    ensures var r := SetStatus(objs, k, Done);
            && AllWf(r) && Ordered(r, sent) && Off(r, sent) == Off(objs, sent)
            && |Stream(r)| == |Stream(objs)| && Complete(objs, sent, k) == (r, sent)
  {
    hide Off;
    OffUpdate(objs, k, objs[k].(status := Done), sent);
    SameSize(objs, k);
  }

  /** The position after object `j` is that of the next one, or the end of the allocated part. */
  lemma NextFacts(before: seq<Obj>, objs: seq<Obj>, j: int, lo: int, len: int)
    requires AllWf(before) && 0 <= j < |before| && objs == SetStatus(before, j, Sent) && AllWf(objs)
    requires 0 < len && lo <= Off(before, j) && |Stream(objs)| - lo < len
    ensures var n := HDR + before[j].dstlen + before[j].len;
            && 0 <= n <= len && Off(before, j) == Off(objs, j)
            && Advance(Off(before, j) % len, n, len) == Off(objs, j + 1) % len
            && lo <= Off(objs, j + 1)
            && (Off(objs, j + 1) % len == |Stream(objs)| % len <==> j + 1 == |objs|)
    ensures j + 1 < |objs| && objs[j + 1].status.Done? ==> Expose(before, j) == Expose(objs, j + 1)
    ensures j + 1 == |objs| || !objs[j + 1].status.Done? ==> Expose(before, j) == (objs, j + 1)
  {
    hide Off, Stream;
    OffUpdate(before, j, objs[j], j);
    OffNext(objs, j);
    StreamPrefix(objs, j + 1);
    AllocPosition(Off(objs, j), HDR + before[j].dstlen + before[j].len, len);
    if j + 1 < |objs| {
      OffNext(objs, j + 1);
      StreamPrefix(objs, j + 2);
      if Off(objs, j + 1) % len == |Stream(objs)| % len {
        ModInjective(Off(objs, j + 1), |Stream(objs)|, len);
      }
    } else {
      WholeStream(objs);
    }
  }

  lemma WholeStream(objs: seq<Obj>)
    requires AllWf(objs)
    ensures Off(objs, |objs|) == |Stream(objs)|
  {
    assert objs[..|objs|] == objs;
  }

  lemma FlagTells(s: Status, magic: u16)
    requires magic == Magic(s)
    ensures !s.Sent? ==> (magic % 2 == 1 <==> s.Done?)
  {
  }

  lemma ExposedValid(objs: seq<Obj>, k: int)
    requires AllWf(objs) && Ordered(objs, k) && k < |objs|
    ensures var (r, sent) := Expose(objs, k);
            Ordered(r, sent)
  {
    ExposeOrdered(objs, k);
  }
}
