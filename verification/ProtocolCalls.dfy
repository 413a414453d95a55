/** What the application's calls do, in every state of every run and in stream offsets. */
module ProtocolCalls {
  import opened Word
  import opened Ring
  import opened FlowOps
  import opened ConnOps
  import opened StreamHalves
  import opened Protocol
  import opened ProtocolInv
  import opened ProtocolRuns
  import opened ProtocolReplies

  /** A call of the left endpoint that sends nothing. */
  lemma CallStep(run: seq<System>, acts: seq<(bool, Action)>, k: nat)
    requires IsRun(run, acts) && k < |acts| && acts[k].0
    requires acts[k].1.Write? || acts[k].1.Push? || acts[k].1.Read? || acts[k].1.Tell?
    ensures var s, act := run[k], acts[k].1;
            && EndpointWf(s.a) && TxInv(s.a) && EndpointWf(s.b) && TxInv(s.b)
            && Inv(s.a, s.b.iss, Offered(s.b)) && s.a.conn.open
            && EndpointWf(run[k + 1].a) && TxInv(run[k + 1].a)
            && Inv(run[k + 1].a, s.b.iss, Offered(s.b))
            && run[k + 1] == System(
                 match act
                 case Write(data, contiguous) => AfterWrite(s.a, data, contiguous)
                 case Push(n) => AfterPush(s.a, n)
                 case Read(n) => AfterRead(s.a, n)
                 case _ => AfterTell(s.a), s.b, s.toA, s.toB)
  {
    hide Init, SystemInv, Inv, TxInv, Offered, AfterWrite, AfterPush, AfterRead, AfterTell;
    LeftStep(run, acts, k);
    SystemParts(run[k]);
    SystemParts(run[k + 1]);
  }

  /** How much of what the application offers is taken: all that fits beside the bytes the application does not know
      to be acknowledged, less one byte, and in one piece only what fits before the end of the ring. */
  function Fits(e: Endpoint, n: nat, contiguous: bool): int
    requires 0 < |e.flow.tx.ring|
  {
    var room := Min(n, e.tail + |e.flow.tx.ring| - 1 - |e.written|);
    if contiguous then Min(room, |e.flow.tx.ring| - |e.written| % |e.flow.tx.ring|) else room
  }

  lemma FitsIs(e: Endpoint, irs: u32, stream: seq<byte>, n: nat, contiguous: bool)
    requires Inv(e, irs, stream)
    ensures 0 < |e.flow.tx.ring| && AllocLen(e.conn, n, contiguous) == Fits(e, n, contiguous)
  {
    hide W32, Holds, TxHolds, RxHolds, RxWf, RxInv, BumpInv, AllocBytes;
    AllocBytesIs(e, irs, stream);
  }

  /** Writing appends that much to the stream, and changes neither what is handed over nor what may be sent. */
  lemma WriteTakes(run: seq<System>, acts: seq<(bool, Action)>, k: nat)
    requires IsRun(run, acts) && k < |acts| && acts[k].0 && acts[k].1.Write?
    ensures var e, n, data := run[k].a, run[k + 1].a, acts[k].1.data;
            && 0 < |e.flow.tx.ring|
            && var m := Fits(e, |data|, acts[k].1.contiguous);
               && 0 <= m <= |data| && n.written == e.written + data[..m]
               && n.flow == e.flow.(tx := e.flow.tx.(ring := n.flow.tx.ring))
               && n == e.(flow := n.flow, conn := n.conn, written := n.written)
  {
    hide Init, SystemInv, Inv, TxInv, EndpointWf, RingWrite, Offered, AllocLen, Fits, TxAlloc;
    CallStep(run, acts, k);
    var s, act := run[k], acts[k].1;
    FitsIs(s.a, s.b.iss, Offered(s.b), |act.data|, act.contiguous);
  }

  /** Handing bytes over succeeds if and only if that many are written and not handed over. */
  lemma PushTakes(run: seq<System>, acts: seq<(bool, Action)>, k: nat)
    requires IsRun(run, acts) && k < |acts| && acts[k].0 && acts[k].1.Push?
    ensures var e, n, m := run[k].a, run[k + 1].a, acts[k].1.n;
            && n.sentOff == (if e.sentOff + m <= |e.written| then e.sentOff + m else e.sentOff)
            && n == e.(conn := n.conn, sentOff := n.sentOff)
  {
    hide Init, SystemInv, W32, Holds, TxHolds, RxHolds, RxWf, RxInv, BumpInv, Offered, Advance;
    CallStep(run, acts, k);
    var s := run[k];
    InvHead(s.a, s.b.iss, Offered(s.b));
    ModDistance(s.a.sentOff, |s.a.written|, s.a.conn.txLen);
  }

  /** Reading succeeds if and only if that many bytes are announced and not read, where a full ring counts as
      nothing; then the application gets the next bytes of what the peer has written. */
  lemma ReadTakes(run: seq<System>, acts: seq<(bool, Action)>, k: nat)
    requires IsRun(run, acts) && k < |acts| && acts[k].0 && acts[k].1.Read?
    ensures var e, n, m := run[k].a, run[k + 1].a, acts[k].1.n;
            var unread := e.delivered - |e.handed|;
            var ok := m == 0 || (m <= unread && unread < |e.flow.rx.ring|);
            && (ok ==> |e.handed| + m <= |run[k].b.written|)
            && n.handed == (if ok then e.handed + run[k].b.written[|e.handed|..|e.handed| + m] else e.handed)
            && n == e.(conn := n.conn, handed := n.handed)
  {
    hide Init, SystemInv, W32, Holds, TxHolds, RxHolds, RxWf, TxInv, BumpInv, RecvdBytes, RingRead, Advance, HeadOff;
    CallStep(run, acts, k);
    HandedIsPrefix(run, acts, k + 1);
    var s, m := run[k], acts[k].1.n;
    var n := run[k + 1].a;
    RecvdIs(s.a, s.b.iss, Offered(s.b));
    if n.handed != s.a.handed {
      assert n.handed == s.b.written[..|n.handed|];
    }
  }

  /** Telling the fast path issues one more bump: the next number, and the ring positions of what is handed over and
      of what is read. */
  lemma TellIssues(run: seq<System>, acts: seq<(bool, Action)>, k: nat)
    requires IsRun(run, acts) && k < |acts| && acts[k].0 && acts[k].1.Tell?
    ensures var e, n := run[k].a, run[k + 1].a;
            && 0 < |e.flow.rx.ring| && 0 < |e.flow.tx.ring|
            && var m := BumpMsg(W32(|e.bumps|), |e.handed| % |e.flow.rx.ring|, e.sentOff % |e.flow.tx.ring|);
               && n.bumps == e.bumps + [BumpRec(m, e.sentOff, |e.handed|)]
               && n.pending == e.pending + {|e.bumps|}
               && n == e.(conn := n.conn, bumps := n.bumps, pending := n.pending)
  {
    hide Init, SystemInv, W32, Holds, TxHolds, RxHolds, RxWf, TxWf, Offered;
    CallStep(run, acts, k);
  }

  /** Taking a notification announces exactly what it counts: received bytes become readable, acknowledged ones make
      room for as many to write. So the send buffer, if it was full, has room again exactly when the library says so. */
  lemma NotifyAnnounces(run: seq<System>, acts: seq<(bool, Action)>, k: nat)
    requires IsRun(run, acts) && k < |acts| && acts[k].0 && acts[k].1.Notify?
    ensures var e, n, i := run[k].a, run[k + 1].a, acts[k].1.i;
            && 0 <= i < |e.notifs| && n.notifs == Remove(e.notifs, i)
            && EndpointWf(e) && EndpointWf(n)
            && n.delivered == e.delivered + e.notifs[i].rx && n.tail == e.tail + e.notifs[i].tx
            && AllocBytes(n.conn) == AllocBytes(e.conn) + e.notifs[i].tx
            && run[k + 1] == System(n, run[k].b, run[k].toA, run[k].toB)
  {
    hide Init, SystemInv, Inv, TxInv, W32, Offered, AllocBytes, ConnUpdate;
    LeftStep(run, acts, k);
    SystemParts(run[k]);
    SystemParts(run[k + 1]);
    var s, i := run[k], acts[k].1.i;
    AllocBytesIs(s.a, s.b.iss, Offered(s.b));
    AllocBytesIs(run[k + 1].a, s.b.iss, Offered(s.b));
  }
}
