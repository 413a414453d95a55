/** Framed objects in a shared send ring: threads allocate in one order and complete in any other, and the
    network sees them in the order of allocation. */
module ObjOps {
  import opened Word

  const HDR: int := 8
  const OBJ_MAGIC: int := 0xb805
  const FLAG_DONE: int := 1

  /** `Open` while its owner fills it, `Done` when it waits for an earlier one, `Sent` once exposed. */
  datatype Status = Open | Done | Sent

  /** The payload is the destination followed by the data. */
  datatype Obj = Obj(dstlen: int, len: u32, payload: seq<byte>, status: Status)

  ghost predicate ObjWf(o: Obj) {
    0 <= o.dstlen < 256 && |o.payload| == o.dstlen + o.len
  }

  // ------------------------------------------------------------ frames

  function Magic(s: Status): u16 {
    match s
    case Open => 0
    case Done => FLAG_DONE
    case Sent => OBJ_MAGIC
  }

  /** The eight bytes of an object header; length and magic number have their high byte first. */
  function Header(dstlen: int, len: u32, magic: u16): (h: seq<byte>)
    requires 0 <= dstlen < 256
    ensures |h| == HDR
  {
    [(len / 0x100_0000) as byte, (len / 0x1_0000 % 0x100) as byte, (len / 0x100 % 0x100) as byte,
     (len % 0x100) as byte, (magic / 0x100) as byte, (magic % 0x100) as byte, 0, dstlen as byte]
  }

  function LenOf(h: seq<byte>): (r: u32)
    requires |h| == HDR
  {
    h[0] as int * 0x100_0000 + h[1] as int * 0x1_0000 + h[2] as int * 0x100 + h[3] as int
  }

  function MagicOf(h: seq<byte>): (r: u16)
    requires |h| == HDR
  {
    h[4] as int * 0x100 + h[5] as int
  }

  function DstlenOf(h: seq<byte>): int
    requires |h| == HDR
  {
    h[7] as int
  }

  lemma HeaderRoundTrip(dstlen: int, len: u32, magic: u16)
    requires 0 <= dstlen < 256
    ensures var h := Header(dstlen, len, magic);
            LenOf(h) == len && MagicOf(h) == magic && DstlenOf(h) == dstlen
  {
    assert len / 0x1_0000 == len / 0x100_0000 * 0x100 + len / 0x1_0000 % 0x100;
    assert len / 0x100 == len / 0x1_0000 * 0x100 + len / 0x100 % 0x100;
  }

  function Frame(o: Obj): (f: seq<byte>)
    requires ObjWf(o)
    ensures |f| == HDR + o.dstlen + o.len
  {
    Header(o.dstlen, o.len, Magic(o.status)) + o.payload
  }

  ghost predicate AllWf(objs: seq<Obj>) { forall i :: 0 <= i < |objs| ==> ObjWf(objs[i]) }

  /** The frames one after the other. */
  function Stream(objs: seq<Obj>): (s: seq<byte>)
    requires AllWf(objs)
  {
    if objs == [] then []
    else
      var n := |objs| - 1;
      Stream(objs[..n]) + Frame(objs[n])
  }

  /** Where object `i` begins. */
  function Off(objs: seq<Obj>, i: int): nat
    requires AllWf(objs) && 0 <= i <= |objs|
  {
    |Stream(objs[..i])|
  }

  /** Replacing bytes of a stream. */
  function Splice(s: seq<byte>, at: int, data: seq<byte>): (r: seq<byte>)
    requires 0 <= at && at + |data| <= |s|
    ensures |r| == |s|
  {
    s[..at] + data + s[at + |data|..]
  }

  lemma {:induction false} OffNext(objs: seq<Obj>, i: int)
    requires AllWf(objs) && 0 <= i < |objs|
    ensures Off(objs, i + 1) == Off(objs, i) + HDR + objs[i].dstlen + objs[i].len
  {
    assert objs[..i + 1][..i] == objs[..i];
  }

  lemma {:induction false} OffOrder(objs: seq<Obj>, i: int, j: int)
    requires AllWf(objs) && 0 <= i <= j <= |objs|
    ensures Off(objs, i) + (j - i) * HDR <= Off(objs, j)
    decreases j - i
  {
    if i < j {
      OffOrder(objs, i, j - 1);
      OffNext(objs, j - 1);
    }
  }

  /** What the stream holds at object `i`. */
  lemma {:induction false} FrameAt(objs: seq<Obj>, i: int)
    requires AllWf(objs) && 0 <= i < |objs|
    ensures Off(objs, i) + |Frame(objs[i])| <= |Stream(objs)|
    ensures Stream(objs)[Off(objs, i)..Off(objs, i) + |Frame(objs[i])|] == Frame(objs[i])
    decreases |objs|
  {
    hide Frame;
    var n := |objs| - 1;
    if i == n {
      assert objs[..n + 1] == objs;
    } else {
      FrameAt(objs[..n], i);
      assert objs[..n][..i] == objs[..i];
      var a, b := Off(objs, i), Off(objs, i) + |Frame(objs[i])|;
      assert Stream(objs)[a..b] == Stream(objs[..n])[a..b];
    }
  }

  /** The stream up to object `i` is that of the objects before it. */
  lemma {:induction false} StreamPrefix(objs: seq<Obj>, i: int)
    requires AllWf(objs) && 0 <= i <= |objs|
    ensures Off(objs, i) <= |Stream(objs)| && Stream(objs)[..Off(objs, i)] == Stream(objs[..i])
    decreases |objs|
  {
    if i == |objs| {
      assert objs[..i] == objs;
    } else {
      var n := |objs| - 1;
      StreamPrefix(objs[..n], i);
      assert objs[..n][..i] == objs[..i];
      assert Stream(objs)[..Off(objs, i)] == Stream(objs[..n])[..Off(objs, i)];
    }
  }

  /** Replacing an object by one of the same size replaces its frame. */
  lemma {:induction false} StreamUpdate(objs: seq<Obj>, i: int, o: Obj)
    requires AllWf(objs) && 0 <= i < |objs| && ObjWf(o)
    requires o.dstlen == objs[i].dstlen && o.len == objs[i].len
    ensures AllWf(objs[i := o])
    ensures Off(objs, i) + |Frame(o)| <= |Stream(objs)|
    ensures Stream(objs[i := o]) == Splice(Stream(objs), Off(objs, i), Frame(o))
    decreases |objs|
  {
    hide Frame, Splice;
    var n, u := |objs| - 1, objs[i := o];
    if i == n {
      assert u[..n] == objs[..n];
      SpliceEnd(Stream(objs[..n]), Frame(objs[n]), Frame(o));
    } else {
      StreamUpdate(objs[..n], i, o);
      assert u[..n] == objs[..n][i := o];
      assert objs[..n][..i] == objs[..i];
      SpliceAppend(Stream(objs[..n]), Off(objs, i), Frame(o), Frame(objs[n]));
    }
  }

  lemma SpliceAppend(s: seq<byte>, at: int, data: seq<byte>, tail: seq<byte>)
    requires 0 <= at && at + |data| <= |s|
    ensures Splice(s, at, data) + tail == Splice(s + tail, at, data)
  {
  }

  lemma SpliceEnd(s: seq<byte>, was: seq<byte>, data: seq<byte>)
    requires |was| == |data|
    ensures Splice(s + was, |s|, data) == s + data
  {
  }

  lemma {:induction false} OffUpdate(objs: seq<Obj>, i: int, o: Obj, j: int)
    requires AllWf(objs) && 0 <= i < |objs| && ObjWf(o) && 0 <= j <= |objs|
    requires o.dstlen == objs[i].dstlen && o.len == objs[i].len
    ensures AllWf(objs[i := o]) && Off(objs[i := o], j) == Off(objs, j)
    decreases j
  {
    if j > 0 {
      OffUpdate(objs, i, o, j - 1);
      OffNext(objs, j - 1);
      OffNext(objs[i := o], j - 1);
    } else {
      assert objs[..0] == [] == objs[i := o][..0];
    }
  }

  // ------------------------------------------------------------ order

  /** The first `sent` objects are exposed, and the next one is not complete. */
  ghost predicate Ordered(objs: seq<Obj>, sent: int) {
    && 0 <= sent <= |objs|
    && (forall i {:trigger objs[i]} :: 0 <= i < |objs| ==> (objs[i].status.Sent? <==> i < sent))
    && (sent < |objs| ==> objs[sent].status.Open?)
  }

  function SetStatus(objs: seq<Obj>, k: int, s: Status): (r: seq<Obj>)
    requires 0 <= k < |objs|
    ensures |r| == |objs|
  {
    objs[k := objs[k].(status := s)]
  }

  /** Expose object `k` and the completed ones that follow it. */
  function Expose(objs: seq<Obj>, k: int): (r: (seq<Obj>, int))
    requires 0 <= k < |objs|
    ensures |r.0| == |objs| && k < r.1 <= |objs|
    decreases |objs| - k
  {
    var o := SetStatus(objs, k, Sent);
    if k + 1 < |objs| && objs[k + 1].status.Done? then Expose(o, k + 1) else (o, k + 1)
  }

  /** Object `k` is complete. */
  function Complete(objs: seq<Obj>, sent: int, k: int): (r: (seq<Obj>, int))
    requires 0 <= k < |objs|
  {
    if k == sent then Expose(objs, k) else (SetStatus(objs, k, Done), sent)
  }

  lemma {:induction false} ExposeOrdered(objs: seq<Obj>, k: int)
    requires 0 <= k < |objs| && !objs[k].status.Sent?
    requires forall i {:trigger objs[i]} :: 0 <= i < |objs| && i != k ==> (objs[i].status.Sent? <==> i < k)
    ensures Ordered(Expose(objs, k).0, Expose(objs, k).1)
    ensures forall i {:trigger Expose(objs, k).0[i]} :: 0 <= i < |objs| ==>
              Expose(objs, k).0[i] == if k <= i < Expose(objs, k).1 then objs[i].(status := Sent) else objs[i]
    ensures forall i {:trigger objs[i]} :: k < i < Expose(objs, k).1 ==> objs[i].status.Done?
    decreases |objs| - k
  {
    var o := SetStatus(objs, k, Sent);
    if k + 1 < |objs| && objs[k + 1].status.Done? {
      ExposeOrdered(o, k + 1);
      forall i {:trigger objs[i]} | k + 1 < i < Expose(objs, k).1
        ensures objs[i].status.Done?
      {
        assert o[i].status.Done?;
      }
    }
  }

  // ------------------------------------------------------------ runs

  /** Threads allocate an object, fill it, and complete it. */
  datatype Op = Alloc(obj: Obj) | Fill(k: int, payload: seq<byte>) | Send(k: int)

  datatype State = State(objs: seq<Obj>, sent: int)

  /** Each object is filled and completed by its owner, completed once, and not touched after that. */
  ghost predicate Enabled(s: State, op: Op) {
    match op
    case Alloc(o) => ObjWf(o) && o.status == Open
    case Fill(k, payload) =>
      0 <= k < |s.objs| && s.objs[k].status == Open && |payload| == |s.objs[k].payload|
    case Send(k) => 0 <= k < |s.objs| && s.objs[k].status == Open
  }

  ghost function Do(s: State, op: Op): State
    requires Enabled(s, op)
  {
    match op
    case Alloc(o) => s.(objs := s.objs + [o])
    case Fill(k, payload) => s.(objs := s.objs[k := s.objs[k].(payload := payload)])
    case Send(k) =>
      var (objs, sent) := Complete(s.objs, s.sent, k);
      State(objs, sent)
  }

  ghost predicate Legal(s: State, ops: seq<Op>)
    decreases |ops|
  {
    ops == [] || (Enabled(s, ops[0]) && Legal(Do(s, ops[0]), ops[1..]))
  }

  ghost function Exec(s: State, ops: seq<Op>): State
    requires Legal(s, ops)
    decreases |ops|
  {
    if ops == [] then s else Exec(Do(s, ops[0]), ops[1..])
  }

  ghost predicate Inv(s: State) { AllWf(s.objs) && Ordered(s.objs, s.sent) }

  /** From `s` to `t` only the end of the list of exposed objects grows. */
  ghost predicate Extends(s: State, t: State) {
    && 0 <= s.sent <= t.sent <= |t.objs| && s.sent <= |s.objs| <= |t.objs|
    && t.objs[..s.sent] == s.objs[..s.sent]
  }

  lemma StepInv(s: State, op: Op)
    requires Inv(s) && Enabled(s, op)
    ensures Inv(Do(s, op)) && Extends(s, Do(s, op))
  {
    if op.Send? && op.k == s.sent {
      ExposeOrdered(s.objs, op.k);
      var t := Do(s, op);
      forall i | 0 <= i < |t.objs|
        ensures ObjWf(t.objs[i])
      {
        assert ObjWf(s.objs[i]);
      }
    }
  }

  lemma {:induction false} RunInv(s: State, ops: seq<Op>)
    requires Inv(s) && Legal(s, ops)
    ensures Inv(Exec(s, ops)) && Extends(s, Exec(s, ops))
    decreases |ops|
  {
    if ops != [] {
      StepInv(s, ops[0]);
      var t := Do(s, ops[0]);
      RunInv(t, ops[1..]);
      var u := Exec(s, ops);
      assert u.objs[..s.sent] == u.objs[..t.sent][..s.sent];
    }
  }

  const EMPTY: State := State([], 0)

  /** The objects completed so far. */
  ghost function Completed(ops: seq<Op>): set<int>
    decreases |ops|
  {
    if ops == [] then {}
    else
      var last := ops[|ops| - 1];
      Completed(ops[..|ops| - 1]) + if last.Send? then {last.k} else {}
  }

  /** The objects in the order of allocation, each with what was filled in last. */
  ghost function Payloads(ops: seq<Op>): seq<seq<byte>>
    decreases |ops|
  {
    if ops == [] then []
    else
      var before := Payloads(ops[..|ops| - 1]);
      match ops[|ops| - 1]
      case Alloc(o) => before + [o.payload]
      case Fill(k, payload) => if 0 <= k < |before| then before[k := payload] else before
      case Send(k) => before
  }

  lemma {:induction false} ExecSplit(s: State, ops: seq<Op>, n: int)
    requires Legal(s, ops) && 0 <= n <= |ops|
    ensures Legal(s, ops[..n]) && Legal(Exec(s, ops[..n]), ops[n..])
    ensures Exec(s, ops) == Exec(Exec(s, ops[..n]), ops[n..])
    decreases |ops|
  {
    if n > 0 {
      ExecSplit(Do(s, ops[0]), ops[1..], n - 1);
      assert ops[..n][1..] == ops[1..][..n - 1] && ops[1..][n - 1..] == ops[n..];
    } else {
      assert ops[..0] == [] && ops[0..] == ops;
    }
  }

  /** The state of each object tells whether it was completed; its payload is what its owner filled in. */
  lemma {:induction false} StatusIsCompleted(ops: seq<Op>)
    requires Legal(EMPTY, ops)
    ensures var s := Exec(EMPTY, ops);
            && Completed(ops) == (set i | 0 <= i < |s.objs| && !s.objs[i].status.Open?)
            && |Payloads(ops)| == |s.objs|
            && forall i :: 0 <= i < |s.objs| ==> s.objs[i].payload == Payloads(ops)[i]
    decreases |ops|
  {
    hide Do, Inv;
    if ops != [] {
      var n := |ops| - 1;
      ExecSplit(EMPTY, ops, n);
      StatusIsCompleted(ops[..n]);
      RunInv(EMPTY, ops[..n]);
      var s := Exec(EMPTY, ops[..n]);
      assert ops[n..] == [ops[n]] && ops[n..][1..] == [];
      StepStatus(s, ops[n]);
    }
  }

  lemma StepStatus(s: State, op: Op)
    requires Inv(s) && Enabled(s, op)
    ensures var t := Do(s, op);
            && |t.objs| == |s.objs| + (if op.Alloc? then 1 else 0)
            && (forall i {:trigger t.objs[i]} :: 0 <= i < |s.objs| ==>
                  && (t.objs[i].status.Open? <==> s.objs[i].status.Open? && op != Send(i))
                  && t.objs[i].payload == (if op.Fill? && op.k == i then op.payload else s.objs[i].payload))
            && (op.Alloc? ==> t.objs[|s.objs|] == op.obj)
  {
    if op.Send? && op.k == s.sent {
      ExposeOrdered(s.objs, op.k);
    }
  }

  /** The network sees the longest prefix, in the order of allocation, of which every object is complete. */
  lemma LongestCompletedPrefix(ops: seq<Op>)
    requires Legal(EMPTY, ops)
    ensures var s := Exec(EMPTY, ops);
            && 0 <= s.sent <= |s.objs|
            && (forall i :: 0 <= i < s.sent ==> i in Completed(ops))
            && (s.sent < |s.objs| ==> s.sent !in Completed(ops))
  {
    RunInv(EMPTY, ops);
    StatusIsCompleted(ops);
  }

  /** What is exposed are whole frames with the payloads of their owners; later operations only add to it, so
      each object is exposed once, in the order of allocation. */
  lemma ExposedOnceInOrder(ops: seq<Op>, more: seq<Op>)
    requires Legal(EMPTY, ops + more)
    ensures Legal(EMPTY, ops)
    ensures var s, t := Exec(EMPTY, ops), Exec(EMPTY, ops + more);
            && 0 <= s.sent <= t.sent && s.sent <= |s.objs| <= |t.objs|
            && |Payloads(ops)| == |s.objs| && |Payloads(ops + more)| == |t.objs|
            && s.objs[..s.sent] == t.objs[..s.sent]
            && forall i :: 0 <= i < s.sent ==>
                 s.objs[i].status.Sent? && s.objs[i].payload == Payloads(ops)[i] == Payloads(ops + more)[i]
  {
    var all := ops + more;
    ExecSplit(EMPTY, all, |ops|);
    assert all[..|ops|] == ops && all[|ops|..] == more;
    RunInv(EMPTY, ops);
    RunInv(Exec(EMPTY, ops), more);
    StatusIsCompleted(ops);
    StatusIsCompleted(all);
    var s, t := Exec(EMPTY, ops), Exec(EMPTY, all);
    forall i | 0 <= i < s.sent
      ensures s.objs[i].status.Sent? && s.objs[i].payload == Payloads(ops)[i] == Payloads(all)[i]
    {
      assert s.objs[i] == s.objs[..s.sent][i] == t.objs[..s.sent][i] == t.objs[i];
    }
  }

  /** `len` is wider than 32 bits. The owner is handed ranges for `dstlen + len` bytes behind the header, whatever was
      reserved; the two agree exactly if everything fits into 32 bits, and then the header has the length as well. */
  lemma TotalIsFrameExactly(dstlen: int, len: nat)
    requires 0 <= dstlen < 256
    ensures W32(HDR + dstlen + len) == HDR + dstlen + len <==> HDR + dstlen + len < TWO32
    ensures HDR + dstlen + len < TWO32 ==> LenOf(Header(dstlen, W32(len), 0)) == len
  {
    hide Header, LenOf;
    HeaderRoundTrip(dstlen, W32(len), 0);
  }

  /** The frame the header describes, which is what the scan steps over, is what was reserved exactly if the length
      in the header, cut to 32 bits, fits. */
  lemma HeaderIsTotalExactly(dstlen: int, len: nat)
    requires 0 <= dstlen < 256
    ensures W32(HDR + dstlen + len) == HDR + dstlen + LenOf(Header(dstlen, W32(len), 0))
       <==> HDR + dstlen + W32(len) < TWO32
  {
    hide Header, LenOf;
    HeaderRoundTrip(dstlen, W32(len), 0);
    assert W32(HDR + dstlen + len) == W32(HDR + dstlen + W32(len));
  }

  /** An object of 2^32 - 8 bytes: nothing is reserved for it, while its header describes a frame of 2^32 bytes. */
  lemma LongObjectReservesNothing()
    ensures var len := 0xFFFF_FFF8;
            W32(HDR + 0 + len) == 0 && HDR + 0 + LenOf(Header(0, len, 0)) == TWO32
  {
    HeaderRoundTrip(0, 0xFFFF_FFF8, 0);
  }

  /** An object of 2^32 + 5 bytes: header and reservation agree on a frame of 13 bytes. */
  lemma LongerObjectIsCut()
    ensures var len := 0x1_0000_0005;
            W32(HDR + 0 + len) == 13 == HDR + 0 + LenOf(Header(0, W32(len), 0)) < len
  {
    HeaderRoundTrip(0, 5, 0);
  }
}
