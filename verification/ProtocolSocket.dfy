/** From the peer's writes to what a socket returns: the library's receive events over runs of the protocol. */
module ProtocolSocket {
  import opened Word
  import opened Ring
  import opened FlowOps
  import opened ConnOps
  import opened StreamHalves
  import opened Protocol
  import opened ProtocolInv
  import opened ProtocolRuns
  import S = SocketBuffer

  // ------------------------------------------------------------ receive events

  /** The ranges of the receive ring that the library reports as received. */
  function Events(e: Endpoint, act: Action): seq<(int, int)>
    requires EndpointWf(e) && Ready(e, act)
  {
    match act
    case Notify(i) => if e.conn.open then Pieces(e.conn, e.notifs[i].rx) else []
    case Confirm => if e.conn.rxHead > 0 then [(0, e.conn.rxHead)] else []
    case _ => []
  }

  predicate InRing(ring: seq<byte>, ps: seq<(int, int)>) {
    forall p :: p in ps ==> 0 <= p.0 && 0 < p.1 && p.0 + p.1 <= |ring|
  }

  /** The bytes of these ranges, one after the other. */
  function RangeBytes(ring: seq<byte>, ps: seq<(int, int)>): seq<byte>
    requires InRing(ring, ps)
  {
    if ps == [] then [] else ring[ps[0].0..ps[0].0 + ps[0].1] + RangeBytes(ring, ps[1..])
  }

  /** The ranges are those of the stream offsets from `lo` to `hi`, none of them wrapping around the ring. */
  ghost predicate Cover(ps: seq<(int, int)>, lo: int, hi: int, len: int)
    requires 0 < len
  {
    if ps == [] then lo == hi
    else
      && ps[0].0 == lo % len && 0 < ps[0].1 && ps[0].0 + ps[0].1 <= len
      && Cover(ps[1..], lo + ps[0].1, hi, len)
  }

  lemma PiecesCover(c: Conn, rx: u32, off: int)
    requires ConnWf(c) && c.open && rx <= c.rxLen && 0 <= off && c.rxHead == off % c.rxLen
    ensures Cover(Pieces(c, rx), off, off + rx, c.rxLen)
  {
    var ps := Pieces(c, rx);
    if c.rxHead + rx > c.rxLen {
      var first := c.rxLen - c.rxHead;
      ModAdd(off, first, c.rxLen);
      assert ps[1..] == [(0, rx - first)] && ps[1..][1..] == [];
      assert Cover(ps[1..], off + first, off + rx, c.rxLen);
    } else if rx > 0 {
      assert ps[1..] == [];
    }
  }

  lemma {:induction false} CoverBytes(ring: seq<byte>, stream: seq<byte>, ps: seq<(int, int)>, lo: int, hi: int)
    requires 0 < |ring| && Cover(ps, lo, hi, |ring|) && Holds(ring, stream, lo, hi)
    ensures InRing(ring, ps) && lo <= hi
    ensures RangeBytes(ring, ps) == stream[lo..hi]
  {
    CoverGrows(ps, lo, hi, |ring|);
    if ps != [] {
      var mid := lo + ps[0].1;
      CoverGrows(ps[1..], mid, hi, |ring|);
      S.KeepHolds(ring, stream, lo, mid, hi);
      CoverBytes(ring, stream, ps[1..], mid, hi);
      ReadHolds(ring, stream, lo, hi, lo, ps[0].1);
      S.BytesHold(ring, stream, lo, hi, lo, (ps[0].0, ps[0].1));
      S.SliceJoin(stream, lo, mid, hi);
      assert ps == [ps[0]] + ps[1..];
    }
  }

  lemma {:induction false} CoverGrows(ps: seq<(int, int)>, lo: int, hi: int, len: int)
    requires 0 < len && Cover(ps, lo, hi, len)
    ensures lo <= hi
  {
    if ps != [] {
      CoverGrows(ps[1..], lo + ps[0].1, hi, len);
    }
  }

  /** The events of an action are the bytes it announces, and the ring has room for them beside what is not freed. */
  lemma EventsCover(e: Endpoint, irs: u32, stream: seq<byte>, inbox: set<Flight>, act: Action)
    requires Inv(e, irs, stream) && Enabled(e, inbox, act) && Ready(e, act)
    ensures var ps := Events(e, act);
            var shown := if e.conn.open then e.delivered else 0;
            && 0 <= shown
            && if act.Notify? && e.conn.open then
                 && shown + e.notifs[act.i].rx <= e.rcv <= |e.handed| + |e.flow.rx.ring|
                 && Cover(ps, shown, shown + e.notifs[act.i].rx, |e.flow.rx.ring|)
               else if act.Confirm? then
                 && e.delivered <= e.rcv <= |e.handed| + |e.flow.rx.ring|
                 && Cover(ps, 0, e.delivered, |e.flow.rx.ring|)
               else ps == []
  {
    hide W32, Holds, TxInv, BumpInv, TxHolds, RxHolds, RxWf, TxWf, Cover;
    InvFreed(e, irs, stream);
    match act
    case Notify(i) =>
      SumRemove(e.notifs, i);
      if e.conn.open {
        PiecesCover(e.conn, e.notifs[i].rx, e.delivered);
      }
    case Confirm =>
      OneCovers(e.delivered, e.conn.rxLen);
    case _ =>
  }

  lemma OneCovers(n: int, len: int)
    requires 0 <= n < len
    ensures Cover(if n > 0 then [(0, n)] else [], 0, n, len)
  {
    if n > 0 {
      assert [(0, n)][1..] == [];
    }
  }

  /** In every run, when the library takes a notification or the confirmation: the bytes it reports are those of the
      peer's stream that it newly knows of. */
  lemma EventsCarryStream(run: seq<System>, acts: seq<(bool, Action)>, k: nat)
    requires IsRun(run, acts) && k < |acts| && acts[k].0 && run[k + 1].a.conn.open
    ensures var e, act := run[k].a, acts[k].1;
            var shown := if e.conn.open then e.delivered else 0;
            && EndpointWf(e) && Ready(e, act)
            && 0 <= shown <= run[k + 1].a.delivered <= |run[k].b.written|
            && InRing(e.flow.rx.ring, Events(e, act))
            && RangeBytes(e.flow.rx.ring, Events(e, act)) == run[k].b.written[shown..run[k + 1].a.delivered]
  {
    hide W32, Holds, TxInv, RxInv, BumpInv, Genuine, Init, Enabled, Ready, Aborts, Do, Events, Cover, RangeBytes;
    RunInv(run, acts, k);
    var s, act := run[k], acts[k].1;
    assert Follows(s, acts[k], run[k + 1]);
    StepInv(s, true, act);
    SystemParts(s);
    EventsAre(s.a, s.b.iss, Offered(s.b), s.toA, act);
    InvHead(s.b, s.a.iss, Offered(s.a));
  }

  lemma EventsAre(e: Endpoint, irs: u32, stream: seq<byte>, inbox: set<Flight>, act: Action)
    requires Inv(e, irs, stream) && Enabled(e, inbox, act) && Ready(e, act)
    requires Do(e, inbox, act).0.conn.open
    ensures var shown := if e.conn.open then e.delivered else 0;
            var now := Do(e, inbox, act).0.delivered;
            && 0 <= shown <= now <= |stream|
            && InRing(e.flow.rx.ring, Events(e, act))
            && RangeBytes(e.flow.rx.ring, Events(e, act)) == stream[shown..now]
  {
    hide W32, Holds, TxInv, BumpInv, TxHolds, RxHolds, RxWf, TxWf, Cover, Events, RangeBytes, RxInv, Trimmable, Do;
    EventsCover(e, irs, stream, inbox, act);
    DoDelivers(e, inbox, act);
    InvFreed(e, irs, stream);
    InvOrder(e, irs, stream);
    var shown := if e.conn.open then e.delivered else 0;
    var now := Do(e, inbox, act).0.delivered;
    NoneCover(shown, |e.flow.rx.ring|);
    S.KeepHolds(e.flow.rx.ring, stream, FreedOff(e), shown, e.rcv);
    CutHolds(e.flow.rx.ring, stream, shown, now, e.rcv);
    CoverBytes(e.flow.rx.ring, stream, Events(e, act), shown, now);
  }

  lemma NoneCover(at: int, len: int)
    requires 0 < len
    ensures Cover([], at, at, len)
  {
  }

  lemma CutHolds(ring: seq<byte>, stream: seq<byte>, lo: int, mid: int, hi: int)
    requires Holds(ring, stream, lo, hi) && lo <= mid <= hi
    ensures Holds(ring, stream, lo, mid)
  {
  }

  lemma InvOrder(e: Endpoint, irs: u32, stream: seq<byte>)
    requires Inv(e, irs, stream)
    ensures FreedOff(e) <= |e.handed| <= e.delivered <= e.rcv
    ensures !e.conn.open ==> e.handed == []
  {
  }

  /** What an action does to the offsets the application sees. */
  lemma DoDelivers(e: Endpoint, inbox: set<Flight>, act: Action)
    requires EndpointWf(e) && Enabled(e, inbox, act) && Ready(e, act)
    ensures var n := Do(e, inbox, act).0;
            && n.delivered == e.delivered + (if act.Notify? then e.notifs[act.i].rx else 0)
            && (act.Read? ==> |n.handed| <= |e.handed| + act.n)
            && (!act.Read? ==> n.handed == e.handed)
            && n.conn.open == (e.conn.open || act.Confirm?)
            && (act.Read? ==> n.flow == e.flow)
  {
    hide Packet, Transmit, Retransmit, Bump, W32, Trimmable, ApplyOk, BumpIsNew, InReach, RingRead, RingWrite,
      RxWf, TxWf;
  }

  // ------------------------------------------------------------ a socket on top

  /** The unread pieces of a socket, and all it has returned so far. */
  datatype Socket = Socket(p: S.Pieces, got: seq<byte>)

  const FRESH: Socket := Socket(S.NOTHING, [])

  /** The socket takes the receive events one by one; none if it aborts. */
  function OnEvents(p: S.Pieces, ps: seq<(int, int)>): Option<S.Pieces>
    decreases |ps|
  {
    if ps == [] then Some(p)
    else if ps[0].1 < 0 then None
    else match S.OnReceived(p, ps[0].0, ps[0].1)
      case None => None
      case Some(q) => OnEvents(q, ps[1..])
  }

  /** A socket frees what a read returned, as much as was there, whether or not the library accepts it. */
  predicate MayFree(s: Socket, act: Action) { act.Read? ==> act.n <= s.p.len1 + s.p.len2 }

  /** What an action of its endpoint does to the socket; none if it aborts or reads outside the ring. */
  ghost function SocketNext(e: Endpoint, act: Action, s: Socket): Option<Socket>
    requires EndpointWf(e) && Ready(e, act)
  {
    match act
    case Read(n) =>
      (match S.Do(S.State(e.flow.rx.ring, s.p, [], s.got), S.Read(n))
       case None => None
       case Some(r) => Some(Socket(r.p, r.got)))
    case _ =>
      (match OnEvents(s.p, Events(e, act))
       case None => None
       case Some(q) => Some(s.(p := q)))
  }

  /** The socket has returned a prefix of what was announced, at least what was freed, and its pieces are the rest. */
  ghost predicate SocketInv(e: Endpoint, stream: seq<byte>, s: Socket) {
    if e.conn.open then
      && |e.handed| <= |s.got| <= e.delivered <= |stream|
      && s.got == stream[..|s.got|]
      && S.Shape(s.p, |s.got|, e.delivered, |e.flow.rx.ring|)
    else
      s == FRESH
  }

  lemma {:induction false} EventsShape(p: S.Pieces, ps: seq<(int, int)>, rd: int, lo: int, hi: int, len: int)
    requires 0 < len && S.Shape(p, rd, lo, len) && Cover(ps, lo, hi, len) && hi <= rd + len
    ensures OnEvents(p, ps).Some? && S.Shape(OnEvents(p, ps).value, rd, hi, len)
    decreases |ps|
  {
    hide S.OnReceived, S.Shape;
    if ps != [] {
      var mid := lo + ps[0].1;
      CoverGrows(ps[1..], mid, hi, len);
      S.ReceivedShape(p, rd, lo, len, ps[0].1);
      EventsShape(S.OnReceived(p, ps[0].0, ps[0].1).value, ps[1..], rd, mid, hi, len);
    }
  }

  lemma NoEvents(p: S.Pieces)
    ensures OnEvents(p, []) == Some(p)
  {
  }

  lemma StreamSocket(e: Endpoint, stream: seq<byte>, more: seq<byte>, s: Socket)
    requires SocketInv(e, stream, s) && stream <= more
    ensures SocketInv(e, more, s)
  {
    hide S.Shape;
  }

  /** A read of a socket returns the next bytes of the stream. */
  lemma ReadStep(e: Endpoint, irs: u32, stream: seq<byte>, n: nat, s: Socket)
    requires Inv(e, irs, stream) && e.conn.open && SocketInv(e, stream, s) && n <= s.p.len1 + s.p.len2
    ensures var r := S.Do(S.State(e.flow.rx.ring, s.p, [], s.got), S.Read(n));
            && r.Some? && |r.value.got| == |s.got| + n <= e.delivered
            && r.value.got == stream[..|s.got| + n]
            && S.Shape(r.value.p, |s.got| + n, e.delivered, |e.flow.rx.ring|)
  {
    hide W32, Holds, TxInv, RxInv, BumpInv, TxHolds, RxHolds, RxWf, TxWf, S.Take, S.Shape;
    var ring := e.flow.rx.ring;
    InvFreed(e, irs, stream);
    InvOrder(e, irs, stream);
    var rd, wr := |s.got|, e.delivered;
    S.KeepHolds(ring, stream, FreedOff(e), rd, e.rcv);
    CutHolds(ring, stream, rd, wr, e.rcv);
    S.TakeReads(ring, stream, s.p, rd, wr, n);
    ShapeUnread(s.p, rd, wr, |ring|);
    var (q, a, b) := S.Take(s.p, n);
    S.PrefixMore(stream, rd, S.Bytes(ring, a), S.Bytes(ring, b));
  }

  lemma ShapeUnread(p: S.Pieces, rd: int, wr: int, n: int)
    requires S.Shape(p, rd, wr, n)
    ensures p.len1 + p.len2 == wr - rd
  {
  }

  lemma FreshShape(len: int)
    requires 0 < len
    ensures S.Shape(S.NOTHING, 0, 0, len)
  {
  }

  lemma SocketStep(e: Endpoint, irs: u32, stream: seq<byte>, inbox: set<Flight>, act: Action, s: Socket)
    requires Inv(e, irs, stream) && Enabled(e, inbox, act) && Ready(e, act)
    requires SocketInv(e, stream, s) && MayFree(s, act)
    ensures var n := Do(e, inbox, act).0;
            |n.flow.rx.ring| == |e.flow.rx.ring| ==>
              SocketNext(e, act, s).Some? && SocketInv(n, stream, SocketNext(e, act, s).value)
  {
    hide W32, Holds, TxInv, RxInv, BumpInv, TxHolds, RxHolds, RxWf, TxWf, S.Shape, S.Do, Do, Events, OnEvents, Cover,
      Trimmable;
    DoDelivers(e, inbox, act);
    InvFreed(e, irs, stream);
    InvOrder(e, irs, stream);
    var n := Do(e, inbox, act).0;
    if act.Read? {
      ReadStep(e, irs, stream, act.n, s);
    } else {
      EventsCover(e, irs, stream, inbox, act);
      var shown := if e.conn.open then e.delivered else 0;
      var len := |e.flow.rx.ring|;
      NoEvents(s.p);
      FreshShape(len);
      if act.Confirm? || (act.Notify? && e.conn.open) {
        EventsShape(s.p, Events(e, act), |s.got|, shown, n.delivered, len);
      }
    }
  }

  // ------------------------------------------------------------ runs

  ghost predicate SocketFollows(e: Endpoint, act: (bool, Action), s: Socket, t: Socket) {
    if act.0 then
      && MayFree(s, act.1)
      && (EndpointWf(e) && Ready(e, act.1) && SocketNext(e, act.1, s).Some? ==> Some(t) == SocketNext(e, act.1, s))
    else t == s
  }

  /** A run of the system with a socket on its left endpoint. That it does not abort is proved, not assumed. */
  ghost predicate IsSocketRun(run: seq<System>, acts: seq<(bool, Action)>, socks: seq<Socket>) {
    && IsRun(run, acts) && |socks| == |run| && socks[0] == FRESH
    && forall i :: 0 <= i < |acts| ==> SocketFollows(run[i].a, acts[i], socks[i], socks[i + 1])
  }

  lemma {:induction false} SocketRunInv(run: seq<System>, acts: seq<(bool, Action)>, socks: seq<Socket>, k: nat)
    requires IsSocketRun(run, acts, socks) && k < |run|
    ensures SystemInv(run[k]) && SocketInv(run[k].a, Offered(run[k].b), socks[k])
    ensures k < |acts| && acts[k].0 ==>
              && EndpointWf(run[k].a) && Ready(run[k].a, acts[k].1)
              && SocketNext(run[k].a, acts[k].1, socks[k]).Some?
  {
    hide W32, TxInv, Inv, Genuine, Init, Enabled, Aborts, Ready, Do, Grown, SocketInv, SocketNext, MayFree, EndpointWf;
    RunInv(run, acts, k);
    if k == 0 {
      InitSocket(run[0]);
    } else {
      SocketRunInv(run, acts, socks, k - 1);
      SocketRunStep(run[k - 1], acts[k - 1], run[k], socks[k - 1], socks[k]);
    }
    if k < |acts| {
      assert Follows(run[k], acts[k], run[k + 1]);
      assert SocketFollows(run[k].a, acts[k], socks[k], socks[k + 1]);
      SocketGoesOn(run[k], acts[k], socks[k]);
    }
  }

  lemma InitSocket(s: System)
    requires Init(s) && SystemInv(s)
    ensures SocketInv(s.a, Offered(s.b), FRESH)
  {
  }

  lemma SocketGoesOn(s: System, act: (bool, Action), x: Socket)
    requires SystemInv(s) && CanStart(s, act.0, act.1) && SocketInv(s.a, Offered(s.b), x)
    requires act.0 ==> MayFree(x, act.1)
    ensures CanStep(s, act.0, act.1) && SystemInv(Step(s, act.0, act.1))
    ensures act.0 ==>
              && EndpointWf(s.a) && Ready(s.a, act.1)
              && SocketNext(s.a, act.1, x).Some?
              && SocketInv(Step(s, true, act.1).a, Offered(s.b), SocketNext(s.a, act.1, x).value)
    ensures var n := Step(s, act.0, act.1);
            Offered(s.b) <= Offered(n.b) && (!act.0 ==> n.a == s.a) && (act.0 ==> n.b == s.b)
  {
    hide W32, TxInv, Inv, Genuine, Enabled, Aborts, Ready, Do, SocketInv, SocketNext, MayFree, EndpointWf;
    StepInv(s, act.0, act.1);
    SystemParts(s);
    var n := Step(s, act.0, act.1);
    if act.0 {
      SocketStep(s.a, s.b.iss, Offered(s.b), s.toA, act.1, x);
    }
  }

  lemma SocketRunStep(s: System, act: (bool, Action), n: System, x: Socket, y: Socket)
    requires SystemInv(s) && Follows(s, act, n) && SocketInv(s.a, Offered(s.b), x)
    requires SocketFollows(s.a, act, x, y)
    ensures SystemInv(n) && SocketInv(n.a, Offered(n.b), y)
  {
    hide W32, TxInv, Inv, Genuine, Enabled, Aborts, Ready, Do, SocketInv, SocketNext, MayFree, EndpointWf;
    SocketGoesOn(s, act, x);
    StreamSocket(n.a, Offered(s.b), Offered(n.b), y);
  }

  /** End to end, in every run: no receive event or read makes the socket abort, what its reads have returned is a
      prefix of what the peer's application wrote and covers all that was freed, and its pieces are, in order, the
      rest of what the library was told of. That holds of a full ring as well, which the library cannot free. */
  lemma SocketReadsStream(run: seq<System>, acts: seq<(bool, Action)>, socks: seq<Socket>, k: nat)
    requires IsSocketRun(run, acts, socks) && k < |run|
    ensures var e, x, written := run[k].a, socks[k], run[k].b.written;
            && EndpointWf(e)
            && (k < |acts| && acts[k].0 ==> Ready(e, acts[k].1) && SocketNext(e, acts[k].1, x).Some?)
            && e.handed <= x.got <= written
            && (e.conn.open ==>
                  && |x.got| <= e.delivered <= |written|
                  && S.Shape(x.p, |x.got|, e.delivered, |e.flow.rx.ring|)
                  && S.Bytes(e.flow.rx.ring, (x.p.buf1, x.p.len1)) + S.Bytes(e.flow.rx.ring, (x.p.buf2, x.p.len2))
                     == written[|x.got|..e.delivered])
  {
    hide W32, Holds, TxInv, RxInv, BumpInv, Genuine, Init, Follows, RxWf, TxWf, S.Shape, S.Bytes, SocketNext;
    SocketRunInv(run, acts, socks, k);
    var s, x := run[k], socks[k];
    var e, stream := s.a, Offered(s.b);
    SystemParts(s);
    InvFreed(e, s.b.iss, stream);
    InvOrder(e, s.b.iss, stream);
    HandedStream(e, s.b.iss, stream);
    InvHead(s.b, s.a.iss, Offered(s.a));
    if e.conn.open {
      var ring := e.flow.rx.ring;
      S.KeepHolds(ring, stream, FreedOff(e), |x.got|, e.rcv);
      CutHolds(ring, stream, |x.got|, e.delivered, e.rcv);
      S.PiecesAreUnread(ring, stream, x.p, |x.got|, e.delivered);
    }
  }

  lemma HandedStream(e: Endpoint, irs: u32, stream: seq<byte>)
    requires Inv(e, irs, stream)
    ensures e.handed <= stream && (!e.conn.open ==> e.handed == [])
  {
  }
}
