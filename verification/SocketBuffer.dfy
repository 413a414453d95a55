/** The unread bytes of a socket: at most two pieces of the circular receive buffer. */
module SocketBuffer {
  import opened Word
  import opened Ring

  /** Positions in the ring; -1 is the null pointer. */
  datatype Pieces = Pieces(buf1: int, len1: nat, buf2: int, len2: nat)

  const NULL: int := -1
  const NOTHING: Pieces := Pieces(NULL, 0, NULL, 0)

  /** `len` bytes have arrived at `buf`. Nothing stands for the abort on a third piece. */
  function OnReceived(p: Pieces, buf: int, len: nat): Option<Pieces> {
    if p.len1 == 0 then Some(p.(buf1 := buf, len1 := len, len2 := 0))
    else if p.len2 == 0 && buf == p.buf1 + p.len1 then Some(p.(len1 := p.len1 + len))
    else if buf == p.buf2 + p.len2 then Some(p.(len2 := p.len2 + len))
    else if p.len2 != 0 then None
    else Some(p.(buf2 := buf, len2 := len))
  }

  /** The two ranges copied by a read of up to `len` bytes, and the pieces left. */
  function Take(p: Pieces, len: nat): (r: (Pieces, (int, nat), (int, nat))) {
    var whole := p.len1 <= len;
    var q := if whole then Pieces(p.buf2, p.len2, NULL, 0) else p;
    var off := if whole then p.len1 else 0;
    var n := Min(len - off, q.len1);
    (q.(buf1 := q.buf1 + n, len1 := q.len1 - n), (p.buf1, off), (q.buf1, n))
  }

  // ------------------------------------------------------------ where the pieces are

  /** The pieces are the offsets from `rd` to `wr`, at most one turn of a ring of `n` bytes; the second one
      begins where the ring does. */
  ghost predicate Shape(p: Pieces, rd: int, wr: int, n: int) {
    && 0 < n && 0 <= rd <= wr <= rd + n
    && p.len1 + p.len2 == wr - rd
    && (p.len1 == 0 ==> p.len2 == 0)
    && (p.len1 > 0 ==> p.buf1 == rd % n && p.buf1 + p.len1 <= n)
    && (if p.len2 > 0 then p.buf2 == 0 && p.buf1 + p.len1 == n else p.buf2 == NULL)
  }

  /** A third piece cannot arise. */
  lemma ReceivedShape(p: Pieces, rd: int, wr: int, n: int, len: nat)
    requires Shape(p, rd, wr, n) && wr + len <= rd + n && wr % n + len <= n && len > 0
    ensures OnReceived(p, wr % n, len).Some?
    ensures Shape(OnReceived(p, wr % n, len).value, rd, wr + len, n)
  {
    ModAdd(rd, wr - rd, n);
  }

  lemma TakeShape(p: Pieces, rd: int, wr: int, n: int, len: nat)
    requires Shape(p, rd, wr, n)
    ensures var (q, a, b) := Take(p, len);
            && Shape(q, rd + a.1 + b.1, wr, n) && a.1 + b.1 == Min(len, wr - rd)
            && (a.1 > 0 ==> a.0 == rd % n && a.0 + a.1 <= n)
            && (b.1 > 0 ==> b.0 == (rd + a.1) % n && b.0 + b.1 <= n)
  {
    var (q, a, b) := Take(p, len);
    ModAdd(rd, a.1, n);
    ModAdd(rd, a.1 + b.1, n);
    if a.1 == n {
      ModAdd(rd, n, n);
    }
  }

  /** The bytes of a range of the ring. */
  function Bytes(ring: seq<byte>, range: (int, nat)): seq<byte>
    requires range.1 > 0 ==> 0 <= range.0 && range.0 + range.1 <= |ring|
  {
    if range.1 == 0 then [] else ring[range.0..range.0 + range.1]
  }

  lemma NoBytes(ring: seq<byte>, range: (int, nat))
    requires range.1 > 0 ==> 0 <= range.0 && range.0 + range.1 <= |ring|
    ensures range.1 == 0 ==> Bytes(ring, range) == []
  {
  }

  /** The two cases of a read: the first piece is used up, or not. */
  lemma TakeIs(p: Pieces, len: nat)
    ensures var n := if p.len1 <= len then Min(p.len2, len - p.len1) else len;
            Take(p, len) ==
              if p.len1 <= len then
                (Pieces(p.buf2 + n, p.len2 - n, NULL, 0), (p.buf1, p.len1), (p.buf2, n))
              else (p.(buf1 := p.buf1 + n, len1 := p.len1 - n), (p.buf1, 0), (p.buf1, n))
  {
  }

  lemma BytesHold(ring: seq<byte>, stream: seq<byte>, rd: int, wr: int, at: int, range: (int, nat))
    requires Holds(ring, stream, rd, wr) && rd <= at && at + range.1 <= wr
    requires range.1 > 0 ==> range.0 == at % |ring| && range.0 + range.1 <= |ring|
    ensures Bytes(ring, range) == stream[at..at + range.1]
  {
    if range.1 > 0 {
      ReadHolds(ring, stream, rd, wr, at, range.1);
    }
  }

  /** The two pieces together are the unread bytes in order. */
  lemma PiecesAreUnread(ring: seq<byte>, stream: seq<byte>, p: Pieces, rd: int, wr: int)
    requires Holds(ring, stream, rd, wr) && Shape(p, rd, wr, |ring|)
    ensures Bytes(ring, (p.buf1, p.len1)) + Bytes(ring, (p.buf2, p.len2)) == stream[rd..wr]
  {
    ModAdd(rd, p.len1, |ring|);
    BytesHold(ring, stream, rd, wr, rd, (p.buf1, p.len1));
    BytesHold(ring, stream, rd, wr, rd + p.len1, (p.buf2, p.len2));
  }

  /** A read returns the next unread bytes. */
  lemma TakeReads(ring: seq<byte>, stream: seq<byte>, p: Pieces, rd: int, wr: int, len: nat)
    requires Holds(ring, stream, rd, wr) && Shape(p, rd, wr, |ring|)
    ensures var (q, a, b) := Take(p, len);
            && (a.1 > 0 ==> 0 <= a.0 && a.0 + a.1 <= |ring|) && (b.1 > 0 ==> 0 <= b.0 && b.0 + b.1 <= |ring|)
            && Bytes(ring, a) + Bytes(ring, b) == stream[rd..rd + Min(len, wr - rd)]
            && Shape(q, rd + Min(len, wr - rd), wr, |ring|)
  {
    hide Take, Shape, Holds, Bytes;
    var (q, a, b) := Take(p, len);
    TakeShape(p, rd, wr, |ring|, len);
    ShapeBounds(p, rd, wr, |ring|);
    HoldsBounds(ring, stream, rd, wr);
    BytesHold(ring, stream, rd, wr, rd, a);
    BytesHold(ring, stream, rd, wr, rd + a.1, b);
    SliceJoin(stream, rd, rd + a.1, rd + a.1 + b.1);
  }

  lemma ShapeBounds(p: Pieces, rd: int, wr: int, n: int)
    requires Shape(p, rd, wr, n)
    ensures 0 < n && 0 <= rd <= wr <= rd + n
  {
  }

  // ------------------------------------------------------------ runs

  datatype Op = Receive(data: seq<byte>) | Read(len: nat)

  /** `stream` is what has arrived, `got` what was read. */
  datatype State = State(ring: seq<byte>, p: Pieces, stream: seq<byte>, got: seq<byte>)

  /** New bytes are one piece of the ring, and fit beside the unread ones. */
  ghost predicate Enabled(s: State, op: Op) {
    && 0 < |s.ring|
    && match op
       case Receive(data) =>
         && 0 < |data| <= |s.ring| - (|s.stream| - |s.got|)
         && |s.stream| % |s.ring| + |data| <= |s.ring|
       case Read(_) => true
  }

  /** One step; none if the code aborts, or reads outside the ring. */
  ghost function Do(s: State, op: Op): Option<State>
    requires Enabled(s, op)
  {
    match op
    case Receive(data) =>
      var pos := |s.stream| % |s.ring|;
      if |data| > |s.ring| || OnReceived(s.p, pos, |data|).None? then None
      else
        Some(s.(ring := RingWrite(s.ring, pos, data), stream := s.stream + data,
                p := OnReceived(s.p, pos, |data|).value))
    case Read(len) =>
      var (q, a, b) := Take(s.p, len);
      if (a.1 > 0 && (a.0 < 0 || a.0 + a.1 > |s.ring|)) || (b.1 > 0 && (b.0 < 0 || b.0 + b.1 > |s.ring|)) then None
      else Some(s.(p := q, got := s.got + Bytes(s.ring, a) + Bytes(s.ring, b)))
  }

  ghost predicate Legal(s: State, ops: seq<Op>)
    decreases |ops|
  {
    ops == [] || (Enabled(s, ops[0]) && (Do(s, ops[0]).Some? ==> Legal(Do(s, ops[0]).value, ops[1..])))
  }

  ghost function Exec(s: State, ops: seq<Op>): Option<State>
    requires Legal(s, ops)
    decreases |ops|
  {
    if ops == [] then Some(s)
    else match Do(s, ops[0]) case None => None case Some(t) => Exec(t, ops[1..])
  }

  ghost predicate Inv(s: State) {
    && |s.got| <= |s.stream| && s.got == s.stream[..|s.got|]
    && Shape(s.p, |s.got|, |s.stream|, |s.ring|)
    && Holds(s.ring, s.stream, |s.got|, |s.stream|)
  }

  lemma StepInv(s: State, op: Op)
    requires Inv(s) && Enabled(s, op)
    ensures Do(s, op).Some? && Inv(Do(s, op).value)
  {
    hide Shape, Holds, OnReceived, Take;
    var rd, wr := |s.got|, |s.stream|;
    match op
    case Receive(data) =>
      ReceivedShape(s.p, rd, wr, |s.ring|, |data|);
      ShapeBounds(s.p, rd, wr, |s.ring|);
      AppendHolds(s.ring, s.stream, rd, data);
    case Read(len) =>
      TakeReads(s.ring, s.stream, s.p, rd, wr, len);
      TakeShape(s.p, rd, wr, |s.ring|, len);
      ShapeBounds(s.p, rd, wr, |s.ring|);
      KeepHolds(s.ring, s.stream, rd, rd + Min(len, wr - rd), wr);
      var (q, a, b) := Take(s.p, len);
      PrefixMore(s.stream, rd, Bytes(s.ring, a), Bytes(s.ring, b));
  }

  lemma PrefixMore(stream: seq<byte>, rd: int, a: seq<byte>, b: seq<byte>)
    requires 0 <= rd && rd + |a + b| <= |stream| && a + b == stream[rd..rd + |a + b|]
    ensures stream[..rd] + a + b == stream[..rd + |a| + |b|]
  {
    assert stream[..rd] + a + b == stream[..rd] + (a + b);
  }

  lemma AppendHolds(ring: seq<byte>, stream: seq<byte>, rd: int, data: seq<byte>)
    requires Holds(ring, stream, rd, |stream|) && rd <= |stream| && |stream| + |data| <= rd + |ring|
    ensures Holds(RingWrite(ring, |stream| % |ring|, data), stream + data, rd, |stream| + |data|)
  {
    hide Holds, RingWrite;
    var all, n := stream + data, |stream|;
    SameHolds(ring, stream, all, rd, n);
    assert all[n..n + |data|] == data;
    WriteHolds(ring, all, rd, n, n, |data|);
    JoinHolds(RingWrite(ring, n % |ring|, data), all, rd, n, n + |data|);
  }

  lemma SameHolds(ring: seq<byte>, s: seq<byte>, t: seq<byte>, lo: int, hi: int)
    requires Holds(ring, s, lo, hi) && |s| <= |t| && forall k :: 0 <= k < |s| ==> s[k] == t[k]
    ensures Holds(ring, t, lo, hi)
  {
  }

  lemma JoinHolds(ring: seq<byte>, s: seq<byte>, lo: int, mid: int, hi: int)
    requires Holds(ring, s, lo, mid) && Holds(ring, s, mid, hi)
    ensures Holds(ring, s, lo, hi)
  {
  }

  lemma KeepHolds(ring: seq<byte>, stream: seq<byte>, lo: int, mid: int, hi: int)
    requires Holds(ring, stream, lo, hi) && lo <= mid
    ensures Holds(ring, stream, mid, hi)
  {
  }

  lemma {:induction false} RunInv(s: State, ops: seq<Op>)
    requires Inv(s) && Legal(s, ops)
    ensures Exec(s, ops).Some? && Inv(Exec(s, ops).value)
    decreases |ops|
  {
    hide Inv, Enabled, Do;
    if ops != [] {
      StepInv(s, ops[0]);
      RunInv(Do(s, ops[0]).value, ops[1..]);
    }
  }

  /** In every run the abort for a third piece is not reached, what was read is a prefix of what arrived, and
      the two pieces are the rest of it. */
  lemma ReadsWithoutGap(ring: seq<byte>, ops: seq<Op>)
    requires 0 < |ring| && Legal(State(ring, NOTHING, [], []), ops)
    ensures var r := Exec(State(ring, NOTHING, [], []), ops);
            && r.Some?
            && var s := r.value;
               && s.got <= s.stream
               && Shape(s.p, |s.got|, |s.stream|, |s.ring|)
               && Bytes(s.ring, (s.p.buf1, s.p.len1)) + Bytes(s.ring, (s.p.buf2, s.p.len2)) == s.stream[|s.got|..]
  {
    var s0 := State(ring, NOTHING, [], []);
    RunInv(s0, ops);
    var s := Exec(s0, ops).value;
    PiecesAreUnread(s.ring, s.stream, s.p, |s.got|, |s.stream|);
  }

  // ------------------------------------------------------------ the code

  class SocketConnection {
    const rxb: array<byte>
    var rxBuf1: int
    var rxLen1: nat
    var rxBuf2: int
    var rxLen2: nat

    function View(): Pieces
      reads this
    {
      Pieces(rxBuf1, rxLen1, rxBuf2, rxLen2)
    }

    constructor (ring: array<byte>)
      ensures View() == NOTHING && rxb == ring
    {
      rxb := ring;
      rxBuf1, rxLen1, rxBuf2, rxLen2 := NULL, 0, NULL, 0;
    }

    /** Bytes have arrived; in the last branch the program aborts if there are two pieces already. */
    method EvConnReceived(buf: int, len: nat, ghost rd: int, ghost wr: int)
      requires Shape(View(), rd, wr, rxb.Length) && 0 < len
      requires buf == wr % rxb.Length && buf + len <= rxb.Length && wr + len <= rd + rxb.Length
      modifies this
      ensures OnReceived(old(View()), buf, len) == Some(View())
      ensures Shape(View(), rd, wr + len, rxb.Length)
    {
      ReceivedShape(View(), rd, wr, rxb.Length, len);
      if rxLen1 == 0 {
        rxLen1 := len;
        rxBuf1 := buf;
        rxLen2 := 0;
      } else if rxLen2 == 0 && buf == rxBuf1 + rxLen1 {
        rxLen1 := rxLen1 + len;
      } else if buf == rxBuf2 + rxLen2 {
        rxLen2 := rxLen2 + len;
      } else {
        assert rxLen2 == 0;
        rxLen2 := len;
        rxBuf2 := buf;
      }
    }

    /** Copy `len` bytes out of the ring. */
    method Piece(buf: int, len: nat) returns (data: seq<byte>)
      requires len > 0 ==> 0 <= buf && buf + len <= rxb.Length
      ensures data == Bytes(rxb[..], (buf, len))
    {
      data := [];
      if len > 0 {
        data := rxb[buf..buf + len];
      }
    }

    /** Copy up to `len` unread bytes out. */
    method RecvSimple(len: nat, ghost stream: seq<byte>, ghost rd: int, ghost wr: int) returns (out: seq<byte>)
      requires Shape(View(), rd, wr, rxb.Length) && Holds(rxb[..], stream, rd, wr)
      modifies this
      ensures out == stream[rd..rd + Min(len, wr - rd)]
      ensures View() == Take(old(View()), len).0 && Shape(View(), rd + |out|, wr, rxb.Length)
    {
      hide Holds, Shape, Bytes, Take;
      ShapeBounds(View(), rd, wr, rxb.Length);
      HoldsBounds(rxb[..], stream, rd, wr);
      TakeReads(rxb[..], stream, View(), rd, wr, len);
      ghost var (q, a, b) := Take(View(), len);
      TakeIs(View(), len);
      out := [];
      var off := 0;
      if rxLen1 <= len {
        out := Piece(rxBuf1, rxLen1);
        off := rxLen1;
        rxBuf1 := rxBuf2;
        rxLen1 := rxLen2;
        rxBuf2 := NULL;
        rxLen2 := 0;
      }
      NoBytes(rxb[..], a);
      assert out == Bytes(rxb[..], a);
      var n := Min(rxLen1, len - off);
      var more := Piece(rxBuf1, n);
      out := out + more;
      rxBuf1 := rxBuf1 + n;
      rxLen1 := rxLen1 - n;
    }

    /** Copy unread bytes out to several buffers of the given sizes: each but the last used is filled. */
    method RecvMsg(iov: seq<nat>, ghost stream: seq<byte>, ghost rd: int, ghost wr: int) returns (out: seq<seq<byte>>)
      requires Shape(View(), rd, wr, rxb.Length) && Holds(rxb[..], stream, rd, wr)
      modifies this
      ensures Filled(out, iov, stream, rd, wr) && |Flat(out)| == Min(Total(iov), wr - rd)
      ensures Shape(View(), rd + |Flat(out)|, wr, rxb.Length)
    {
      hide Take, Holds, Shape, Filled, Flat, Total;
      ShapeBounds(View(), rd, wr, rxb.Length);
      HoldsBounds(rxb[..], stream, rd, wr);
      out := [];
      var i := 0;
      FilledNone(iov, stream, rd, wr);
      while i < |iov| && rxLen1 > 0
        invariant 0 <= i == |out| <= |iov| && 0 <= rd <= wr <= |stream|
        invariant Filled(out, iov, stream, rd, wr)
        invariant Shape(View(), rd + |Flat(out)|, wr, rxb.Length)
      {
        ShapeBounds(View(), rd + |Flat(out)|, wr, rxb.Length);
        KeepHolds(rxb[..], stream, rd, rd + |Flat(out)|, wr);
        var part := RecvSimple(iov[i], stream, rd + |Flat(out)|, wr);
        FilledNext(out, part, iov, stream, rd, wr);
        out := out + [part];
        i := i + 1;
      }
      Drained(View(), rd + |Flat(out)|, wr, rxb.Length);
      FilledAll(out, iov, stream, rd, wr);
    }
  }

  /** The buffers were filled one after the other with the next unread bytes. */
  ghost predicate Filled(out: seq<seq<byte>>, iov: seq<nat>, stream: seq<byte>, rd: int, wr: int) {
    && |out| <= |iov| && 0 <= rd <= wr <= |stream|
    && |Flat(out)| == Min(Total(iov[..|out|]), wr - rd) && Flat(out) == stream[rd..rd + |Flat(out)|]
    && forall i {:trigger out[i]} :: 0 <= i < |out| ==> |out[i]| == Min(iov[i], wr - rd - |Flat(out[..i])|)
  }

  lemma FilledNone(iov: seq<nat>, stream: seq<byte>, rd: int, wr: int)
    requires 0 <= rd <= wr <= |stream|
    ensures Filled([], iov, stream, rd, wr) && Flat([]) == []
  {
  }

  lemma FilledNext(out: seq<seq<byte>>, part: seq<byte>, iov: seq<nat>, stream: seq<byte>, rd: int, wr: int)
    requires Filled(out, iov, stream, rd, wr) && |out| < |iov|
    requires var at := rd + |Flat(out)|;
             && at <= wr && part == stream[at..at + Min(iov[|out|], wr - at)]
    ensures Filled(out + [part], iov, stream, rd, wr) && |Flat(out + [part])| == |Flat(out)| + |part|
  {
    hide Total, Flat;
    var more := out + [part];
    FlatNext(out, part);
    TotalNext(iov, |out|);
    var at := rd + |Flat(out)|;
    SliceJoin(stream, rd, at, at + |part|);
    forall i {:trigger more[i]} | 0 <= i < |more|
      ensures |more[i]| == Min(iov[i], wr - rd - |Flat(more[..i])|)
    {
      if i < |out| {
        assert more[i] == out[i] && more[..i] == out[..i];
      } else {
        assert more[..i] == out;
      }
    }
  }

  lemma FlatNext(out: seq<seq<byte>>, part: seq<byte>)
    ensures Flat(out + [part]) == Flat(out) + part
  {
    assert (out + [part])[..|out|] == out;
  }

  lemma SliceJoin(s: seq<byte>, a: int, b: int, c: int)
    requires 0 <= a <= b <= c <= |s|
    ensures s[a..b] + s[b..c] == s[a..c]
  {
  }

  lemma FilledAll(out: seq<seq<byte>>, iov: seq<nat>, stream: seq<byte>, rd: int, wr: int)
    requires Filled(out, iov, stream, rd, wr)
    requires |out| == |iov| || |Flat(out)| == wr - rd
    ensures |Flat(out)| == Min(Total(iov), wr - rd)
  {
    hide Flat, Total;
    TotalMore(iov, |out|);
  }

  lemma Drained(p: Pieces, rd: int, wr: int, n: int)
    requires Shape(p, rd, wr, n)
    ensures p.len1 == 0 ==> rd == wr
  {
  }

  lemma HoldsBounds(ring: seq<byte>, stream: seq<byte>, rd: int, wr: int)
    requires Holds(ring, stream, rd, wr)
    ensures 0 <= rd && wr <= |stream|
  {
  }

  function Flat(parts: seq<seq<byte>>): seq<byte> {
    if parts == [] then [] else Flat(parts[..|parts| - 1]) + parts[|parts| - 1]
  }

  function Total(iov: seq<nat>): nat {
    if iov == [] then 0 else Total(iov[..|iov| - 1]) + iov[|iov| - 1]
  }

  lemma TotalNext(iov: seq<nat>, i: nat)
    requires i < |iov|
    ensures Total(iov[..i + 1]) == Total(iov[..i]) + iov[i]
  {
    assert iov[..i + 1][..i] == iov[..i];
  }

  lemma {:induction false} TotalMore(iov: seq<nat>, i: nat)
    requires i <= |iov|
    ensures Total(iov[..i]) <= Total(iov) && (i == |iov| ==> Total(iov[..i]) == Total(iov))
    decreases |iov| - i
  {
    if i < |iov| {
      TotalNext(iov, i);
      TotalMore(iov, i + 1);
    } else {
      assert iov[..i] == iov;
    }
  }
}
