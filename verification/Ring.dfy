/** Circular byte buffers: the one- or two-piece copies of the data path. */
module Ring {
  import opened Word

  /** The ring after writing `data` at `pos`, in two pieces if it wraps around. */
  function RingWrite(ring: seq<byte>, pos: int, data: seq<byte>): (r: seq<byte>)
    requires 0 <= pos < |ring| && |data| <= |ring|
    ensures |r| == |ring|
  {
    if pos + |data| <= |ring| then
      ring[..pos] + data + ring[pos + |data|..]
    else
      var part := |ring| - pos;
      data[part..] + ring[|data| - part..pos] + data[..part]
  }

  /** The `len` bytes starting at `pos`, in two pieces if they wrap around. */
  function RingRead(ring: seq<byte>, pos: int, len: int): (r: seq<byte>)
    requires 0 <= pos < |ring| && 0 <= len <= |ring|
    ensures |r| == len
  {
    if pos + len <= |ring| then ring[pos..pos + len]
    else ring[pos..] + ring[..pos + len - |ring|]
  }

  /** The ring holds bytes `lo` up to `hi` of the stream, each at its offset modulo the ring length. */
  ghost predicate Holds(ring: seq<byte>, stream: seq<byte>, lo: int, hi: int) {
    && 0 < |ring|
    && 0 <= lo
    && hi <= |stream|
    && forall k {:trigger stream[k]} :: lo <= k < hi ==> ring[k % |ring|] == stream[k]
  }

  /** What a position holds after a write, by its distance from the write position. */
  lemma WriteAt(ring: seq<byte>, a: int, data: seq<byte>, k: int)
    requires 0 < |ring| && |data| <= |ring| && a <= k < a + |ring|
    ensures RingWrite(ring, a % |ring|, data)[k % |ring|]
         == if k < a + |data| then data[k - a] else ring[k % |ring|]
  {
    hide RingWrite;
    ModAdd(a, k - a, |ring|);
    var p, d := a % |ring|, k - a;
    WritePlace(ring, p, data, if p + d < |ring| then p + d else p + d - |ring|);
  }

  lemma WritePlace(ring: seq<byte>, p: int, data: seq<byte>, q: int)
    requires 0 <= p < |ring| && |data| <= |ring| && 0 <= q < |ring|
    ensures var d := if q >= p then q - p else q - p + |ring|;
            RingWrite(ring, p, data)[q] == if d < |data| then data[d] else ring[q]
  {
  }

  /** Writing stream bytes beyond the held range extends it; held bytes survive as long as
      everything fits into one turn of the ring. */
  lemma WriteHolds(ring: seq<byte>, stream: seq<byte>, lo: int, hi: int, a: int, n: int)
    requires Holds(ring, stream, lo, hi)
    requires 0 <= n && lo <= a && a + n <= lo + |ring| && a + n <= |stream| && hi <= lo + |ring|
    ensures Holds(RingWrite(ring, a % |ring|, stream[a..a + n]), stream, lo, hi)
    ensures Holds(RingWrite(ring, a % |ring|, stream[a..a + n]), stream, a, a + n)
  {
    hide RingWrite;
    var data := stream[a..a + n];
    var r := RingWrite(ring, a % |ring|, data);
    forall k | (lo <= k < hi) || (a <= k < a + n)
      ensures r[k % |ring|] == stream[k]
    {
      if k >= a {
        WriteAt(ring, a, data, k);
      } else {
        WriteAt(ring, a, data, k + |ring|);
        ModAdd(k, |ring|, |ring|);
      }
    }
  }

  /** Reading inside the held range gives the stream. */
  lemma ReadHolds(ring: seq<byte>, stream: seq<byte>, lo: int, hi: int, a: int, n: int)
    requires Holds(ring, stream, lo, hi)
    requires lo <= a && 0 <= n && a + n <= hi && n <= |ring|
    ensures RingRead(ring, a % |ring|, n) == stream[a..a + n]
  {
    var r := RingRead(ring, a % |ring|, n);
    forall i | 0 <= i < n
      ensures r[i] == stream[a + i]
    {
      ModAdd(a, i, |ring|);
      assert stream[a + i] == ring[(a + i) % |ring|];
    }
  }

  /** What is written is what is read back. */
  lemma RoundTrip(ring: seq<byte>, pos: int, data: seq<byte>)
    requires 0 <= pos < |ring| && |data| <= |ring|
    ensures RingRead(RingWrite(ring, pos, data), pos, |data|) == data
  {
    var w := RingWrite(ring, pos, data);
    if pos + |data| > |ring| {
      assert w[pos..] == data[..|ring| - pos];
      assert w[..pos + |data| - |ring|] == data[|ring| - pos..];
    }
  }

  /** Memory after a contiguous copy. */
  function Copy(ring: seq<byte>, at: int, src: seq<byte>): (r: seq<byte>)
    requires 0 <= at && at + |src| <= |ring|
    ensures |r| == |ring|
  {
    ring[..at] + src + ring[at + |src|..]
  }

  /** Two copies, up to the end of the ring and from its beginning, make a circular write. */
  lemma CopyTwice(ring: seq<byte>, pos: int, src: seq<byte>)
    requires 0 <= pos < |ring| < pos + |src| && |src| <= |ring|
    ensures var part := |ring| - pos;
            RingWrite(ring, pos, src) == Copy(Copy(ring, pos, src[..part]), 0, src[part..])
  {
    var part := |ring| - pos;
    var one := Copy(ring, pos, src[..part]);
    assert one == ring[..pos] + src[..part];
    assert one[|src| - part..] == ring[|src| - part..pos] + src[..part];
  }

  lemma CopyNext(ring: seq<byte>, at: int, src: seq<byte>, i: int)
    requires 0 <= at && at + |src| <= |ring| && 0 <= i < |src|
    ensures Copy(ring, at, src[..i + 1]) == Copy(ring, at, src[..i])[at + i := src[i]]
  {
  }

  /** A contiguous copy into memory. */
  method DmaWrite(ring: array<byte>, at: int, src: seq<byte>)
    requires 0 <= at && at + |src| <= ring.Length
    modifies ring
    ensures ring[..] == Copy(old(ring[..]), at, src)
  {
    hide Copy;
    CopyNone(ring[..], at);
    for i := 0 to |src|
      invariant ring[..] == Copy(old(ring[..]), at, src[..i])
    {
      CopyNext(old(ring[..]), at, src, i);
      ring[at + i] := src[i];
    }
    assert src[..|src|] == src;
  }

  lemma CopyNone(ring: seq<byte>, at: int)
    requires 0 <= at <= |ring|
    ensures Copy(ring, at, []) == ring
  {
  }

  /** Write into a ring, split at its end. */
  method WriteRing(ring: array<byte>, pos: int, src: seq<byte>)
    requires 0 <= pos < ring.Length && |src| <= ring.Length
    modifies ring
    ensures ring[..] == RingWrite(old(ring[..]), pos, src)
  {
    if pos + |src| <= ring.Length {
      DmaWrite(ring, pos, src);
    } else {
      var part := ring.Length - pos;
      CopyTwice(ring[..], pos, src);
      DmaWrite(ring, pos, src[..part]);
      DmaWrite(ring, 0, src[part..]);
    }
  }

  /** Read from a ring, split at its end. */
  method ReadRing(ring: array<byte>, pos: int, len: int) returns (dst: seq<byte>)
    requires 0 <= pos < ring.Length && 0 <= len <= ring.Length
    ensures dst == RingRead(ring[..], pos, len)
  {
    if pos + len <= ring.Length {
      dst := ring[pos..pos + len];
    } else {
      var part := ring.Length - pos;
      dst := ring[pos..] + ring[..len - part];
    }
  }
}
