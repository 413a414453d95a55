/** What holds in every run of the two-endpoint protocol. */
module ProtocolRuns {
  import opened Word
  import opened Ring
  import opened FlowOps
  import opened StreamHalves
  import opened Protocol
  import opened ProtocolInv

  ghost predicate SystemInv(s: System) {
    && EndpointWf(s.a) && TxInv(s.a) && EndpointWf(s.b) && TxInv(s.b)
    && Inv(s.a, s.b.iss, Offered(s.b)) && Inv(s.b, s.a.iss, Offered(s.a))
    && s.a.una <= s.b.rcv && s.b.una <= s.a.rcv
    && (forall fl :: fl in s.toB ==> Genuine(fl, s.a, s.b.iss))
    && (forall fl :: fl in s.toA ==> Genuine(fl, s.b, s.a.iss))
  }

  lemma {:induction false} InitInv(s: System)
    requires Init(s)
    ensures SystemInv(s)
  {
    InitEndpointInv(s.a, s.b.iss);
    InitEndpointInv(s.b, s.a.iss);
  }

  lemma InitEndpointInv(e: Endpoint, irs: u32)
    requires InitEndpoint(e, irs)
    ensures EndpointWf(e) && TxInv(e) && Offered(e) == [] && Inv(e, irs, [])
  {
  }

  /** Any single action of an endpoint keeps its invariant. */
  lemma DoGood(e: Endpoint, irs: u32, stream: seq<byte>, inbox: set<Flight>, act: Action)
    requires Inv(e, irs, stream) && Enabled(e, inbox, act)
    requires act.Receive? ==> Arrives(e, irs, stream, act.fl)
    requires !Aborts(e, act)
    ensures Ready(e, act)
    ensures var (n, out) := Do(e, inbox, act);
            && Good(e, n, out, irs, stream)
            && n.una <= (if act.Receive? then Max(e.una, act.fl.ackOff) else e.una)
  {
    match act
    case Receive(fl, ce, lost) => ReceiveGood(e, irs, stream, fl, ce, lost);
    case Send => SendGood(e, irs, stream);
    case Timeout => TimeoutGood(e, irs, stream);
    case Apply(i) => ApplyGood(e, irs, stream, i);
    case Notify(i) => NotifyGood(e, irs, stream, i);
    case Confirm => ConfirmGood(e, irs, stream);
    case Write(data, contiguous) => WriteGood(e, irs, stream, data, contiguous);
    case Push(n) => PushGood(e, irs, stream, n);
    case Read(n) => ReadGood(e, irs, stream, n);
    case Tell => TellGood(e, irs, stream);
  }

  /** A longer stream on offer changes nothing for the receiver. */
  lemma StreamGrows(e: Endpoint, irs: u32, stream: seq<byte>, more: seq<byte>)
    requires Inv(e, irs, stream) && stream <= more
    ensures Inv(e, irs, more)
  {
  }

  lemma FlightStays(fl: Flight, s: Endpoint, n: Endpoint, irs: u32)
    requires EndpointWf(s) && TxInv(s) && EndpointWf(n) && TxInv(n)
    requires Genuine(fl, s, irs) && Grown(s, n)
    ensures Genuine(fl, n, irs)
  {
  }

  lemma SegmentArrives(s: System, act: Action)
    requires SystemInv(s) && act.Receive? && Enabled(s.a, s.toA, act)
    ensures Arrives(s.a, s.b.iss, Offered(s.b), act.fl)
    ensures act.fl.ackOff <= s.b.rcv
  {
    hide W32, Holds, RxWf, TxHolds, RxHolds;
    assert Genuine(act.fl, s.b, s.a.iss);
    InvHead(s.b, s.a.iss, Offered(s.a));
    InvHead(s.a, s.b.iss, Offered(s.b));
    InvFreed(s.b, s.a.iss, Offered(s.a));
  }

  lemma LeftStepInv(s: System, act: Action)
    requires SystemInv(s) && CanStart(s, true, act)
    ensures CanStep(s, true, act) && SystemInv(Step(s, true, act))
    ensures Grown(s.a, Step(s, true, act).a)
  {
    hide Inv, TxInv, EndpointWf, Genuine, Enabled, Do, Arrives;
    SystemParts(s);
    if act.Receive? {
      SegmentArrives(s, act);
    }
    DoGood(s.a, s.b.iss, Offered(s.b), s.toA, act);
    var (n, out) := Do(s.a, s.toA, act);
    GrownParts(s.a, n, s.b.iss, Offered(s.b));
    StreamGrows(s.b, s.a.iss, Offered(s.a), Offered(n));
    forall fl | fl in s.toB + out
      ensures Genuine(fl, n, s.b.iss)
    {
      if fl in s.toB {
        FlightStays(fl, s.a, n, s.b.iss);
      }
    }
    assert Step(s, true, act) == System(n, s.b, s.toA, s.toB + out);
  }

  lemma SystemParts(s: System)
    requires SystemInv(s)
    ensures EndpointWf(s.a) && TxInv(s.a) && EndpointWf(s.b) && TxInv(s.b)
    ensures Inv(s.a, s.b.iss, Offered(s.b)) && Inv(s.b, s.a.iss, Offered(s.a))
  {
  }

  lemma GrownParts(e: Endpoint, n: Endpoint, irs: u32, stream: seq<byte>)
    requires EndpointWf(e) && TxInv(e) && Inv(n, irs, stream) && Grown(e, n)
    ensures EndpointWf(n) && TxInv(n) && n.iss == e.iss
    ensures Offered(e) <= Offered(n) && e.rcv <= n.rcv
  {
  }

  lemma SwapInv(s: System)
    requires SystemInv(s)
    ensures SystemInv(Swap(s))
  {
  }

  /** One step of either endpoint that does not abort: everything else the code takes for granted holds, the
      invariant is kept, and nothing achieved is taken back. */
  lemma StepInv(s: System, left: bool, act: Action)
    requires SystemInv(s) && CanStart(s, left, act)
    ensures CanStep(s, left, act) && SystemInv(Step(s, left, act))
    ensures Grown(s.a, Step(s, left, act).a) && Grown(s.b, Step(s, left, act).b)
  {
    if left {
      LeftStepInv(s, act);
    } else {
      SwapInv(s);
      LeftStepInv(Swap(s), act);
      SwapInv(Step(Swap(s), true, act));
    }
  }

  /** The invariant holds in every state of every run. */
  lemma {:induction false} RunInv(run: seq<System>, acts: seq<(bool, Action)>, k: nat)
    requires IsRun(run, acts) && k < |run|
    ensures SystemInv(run[k])
  {
    if k == 0 {
      InitInv(run[0]);
    } else {
      RunInv(run, acts, k - 1);
      assert Follows(run[k - 1], acts[k - 1], run[k]);
      StepInv(run[k - 1], acts[k - 1].0, acts[k - 1].1);
    }
  }

  // ------------------------------------------------------------ main results

  /** Each application reads and frees a prefix of what the other has written. */
  lemma HandedIsPrefix(run: seq<System>, acts: seq<(bool, Action)>, k: nat)
    requires IsRun(run, acts) && k < |run|
    ensures run[k].b.handed <= run[k].a.written
    ensures run[k].a.handed <= run[k].b.written
  {
    RunInv(run, acts, k);
  }

  /** Received bytes that have not been freed sit in the receive ring as the peer wrote them, and so do the
      bytes of the out-of-order interval; whatever the application knows of is among them. */
  lemma UnreadIntact(run: seq<System>, acts: seq<(bool, Action)>, k: nat)
    requires IsRun(run, acts) && k < |run|
    ensures var r, s := run[k].b, run[k].a;
            && |r.handed| <= r.delivered <= r.rcv <= |r.handed| + |r.flow.rx.ring|
            && Holds(r.flow.rx.ring, s.written, |r.handed|, r.rcv)
            && var o := r.rcv + OooDist(r.flow.rx);
               r.flow.rx.oooLen != 0 ==>
                 && r.rcv < o && o + r.flow.rx.oooLen <= |r.handed| + |r.flow.rx.ring|
                 && Holds(r.flow.rx.ring, s.written, o, o + r.flow.rx.oooLen)
  {
    RunInv(run, acts, k);
  }

  /** A byte written is in order at the receiver, or still in the send ring; its place in the send ring
      is reused only after the receiver has it in order. */
  lemma SenderRetains(run: seq<System>, acts: seq<(bool, Action)>, k: nat)
    requires IsRun(run, acts) && k < |run|
    ensures var s, r := run[k].a, run[k].b;
            && s.tail <= s.una <= r.rcv <= |s.written| < s.tail + |s.flow.tx.ring|
            && Holds(s.flow.tx.ring, s.written, s.una, |s.written|)
  {
    RunInv(run, acts, k);
  }

  /** The next sequence number and the next ring position name the same stream offset, between the first
      unacknowledged byte and the end of what may be sent. */
  lemma SenderAligned(run: seq<System>, acts: seq<(bool, Action)>, k: nat)
    requires IsRun(run, acts) && k < |run|
    ensures var s := run[k].a;
            && EndpointWf(s)
            && s.flow.tx.nextSeq == W32(s.iss + NextOff(s))
            && s.flow.tx.nextPos == NextOff(s) % |s.flow.tx.ring|
            && s.una <= NextOff(s) <= HeadOff(s) <= |s.written|
  {
    RunInv(run, acts, k);
  }

  /** Every segment ever in the network carries the stream bytes at its sequence number. */
  lemma SegmentsCarryStream(run: seq<System>, acts: seq<(bool, Action)>, k: nat, fl: Flight)
    requires IsRun(run, acts) && k < |run| && fl in run[k].toB
    ensures var s := run[k].a;
            && 0 <= fl.off && fl.off + |fl.seg.payload| <= |s.written|
            && fl.seg.sn == W32(s.iss + fl.off)
            && fl.seg.payload == s.written[fl.off..fl.off + |fl.seg.payload|]
  {
    RunInv(run, acts, k);
    assert Genuine(fl, run[k].a, run[k].b.iss);
  }

  /** An acknowledgement number in the network never claims a byte the receiver does not have in order. */
  lemma AcknowledgementsTrue(run: seq<System>, acts: seq<(bool, Action)>, k: nat, fl: Flight)
    requires IsRun(run, acts) && k < |run| && fl in run[k].toA
    ensures fl.seg.ack == W32(run[k].a.iss + fl.ackOff) && fl.ackOff <= run[k].b.rcv
  {
    RunInv(run, acts, k);
    assert Genuine(fl, run[k].b, run[k].a.iss);
  }

  lemma GrownTrans(e: Endpoint, m: Endpoint, n: Endpoint)
    requires EndpointWf(e) && TxInv(e) && EndpointWf(m) && TxInv(m) && EndpointWf(n) && TxInv(n)
    requires Grown(e, m) && Grown(m, n)
    ensures Grown(e, n)
  {
  }

  lemma GrownSelf(e: Endpoint)
    requires EndpointWf(e) && TxInv(e)
    ensures Grown(e, e)
  {
  }

  lemma GrownHead(e: Endpoint, n: Endpoint)
    requires EndpointWf(e) && TxInv(e) && EndpointWf(n) && TxInv(n) && Grown(e, n)
    ensures HeadOff(e) <= HeadOff(n)
  {
  }

  /** Over a whole run no offset regresses: neither the head of the bytes to send, nor the right edge of the
      receive window, nor what is acknowledged, received, announced or read. */
  lemma {:induction false} NothingRegresses(run: seq<System>, acts: seq<(bool, Action)>, j: nat, k: nat)
    requires IsRun(run, acts) && j <= k < |run|
    ensures SystemInv(run[j]) && SystemInv(run[k])
    ensures Grown(run[j].a, run[k].a) && Grown(run[j].b, run[k].b)
    ensures HeadOff(run[j].a) <= HeadOff(run[k].a)
    decreases k
  {
    hide W32, Holds, EndpointWf, TxInv, Inv, Genuine, Init, Enabled, Do, Grown;
    RunInv(run, acts, j);
    RunInv(run, acts, k);
    if j == k {
      GrownSelf(run[j].a);
      GrownSelf(run[j].b);
    } else {
      NothingRegresses(run, acts, j, k - 1);
      assert Follows(run[k - 1], acts[k - 1], run[k]);
      StepInv(run[k - 1], acts[k - 1].0, acts[k - 1].1);
      GrownTrans(run[j].a, run[k - 1].a, run[k].a);
      GrownTrans(run[j].b, run[k - 1].b, run[k].b);
    }
    GrownHead(run[j].a, run[k].a);
  }

  /** In every run the assertion on confirmation fails if and only if as many bytes were announced before it as
      the receive ring holds. */
  lemma ConfirmAbortsExactly(run: seq<System>, acts: seq<(bool, Action)>, k: nat)
    requires IsRun(run, acts) && k < |run| && !run[k].a.conn.open
    ensures EndpointWf(run[k].a) && Enabled(run[k].a, run[k].toA, Confirm)
    ensures !Ready(run[k].a, Confirm) <==> run[k].a.delivered >= |run[k].a.flow.rx.ring|
  {
    RunInv(run, acts, k);
  }

  // ------------------------------------------------------------ bumps

  /** An applied bump makes the window account for exactly what the application has read
      if and only if less than a whole ring was freed since the last one. */
  lemma AccountingAt(e: Endpoint, irs: u32, stream: seq<byte>, i: int)
    requires Inv(e, irs, stream) && i in e.pending && e.last < i < |e.bumps| && InReach(i, e.last)
    ensures ApplyOk(e, i)
    ensures var n := AfterApply(e, i).0;
            && n.last == i && n.rcv == e.rcv
            && n.flow.tx.head == e.bumps[i].head % e.conn.txLen
            && (n.flow.rx.avail + (e.rcv - e.bumps[i].read) == |n.flow.rx.ring|
                <==> e.bumps[i].read - FreedOff(e) < |e.flow.rx.ring|)
  {
    hide W32, Holds, BumpIsNew, TxHolds, Available, HeadOk, TailOk;
    ApplyReady(e, irs, stream, i);
    InvHolds(e, irs, stream);
    BumpPositions(e, irs, stream, i);
    FreedIs(e.flow.rx, irs, e.rcv, stream, e.bumps[i].read);
  }

  /** Whenever the fast path takes a bump, in any run: it is applied if and only if it is newer than the last
      one applied; a stale one changes nothing; an applied one sets the head, and the window then accounts
      exactly for what was read if and only if less than a whole ring was freed. */
  lemma BumpTaken(run: seq<System>, acts: seq<(bool, Action)>, k: nat)
    requires IsRun(run, acts) && k < |acts| && acts[k].0 && acts[k].1.Apply?
    ensures var e, n, i := run[k].a, run[k + 1].a, acts[k].1.i;
            && EndpointWf(e) && 0 <= i < |e.bumps|
            && (if i < e.last then
                  n == e.(pending := e.pending - {i})
                else
                  && e.last < i == n.last && n.rcv == e.rcv
                  && n.flow.tx.head == e.bumps[i].head % e.conn.txLen
                  && (n.flow.rx.avail + (e.rcv - e.bumps[i].read) == |n.flow.rx.ring|
                      <==> e.bumps[i].read - FreedOff(e) < |e.flow.rx.ring|))
  {
    hide W32, Holds, TxInv, Init, Genuine, BumpIsNew, Do;
    RunInv(run, acts, k);
    assert Follows(run[k], acts[k], run[k + 1]);
    var e, i := run[k].a, acts[k].1.i;
    SystemParts(run[k]);
    PendingNotLast(e, run[k].b.iss, Offered(run[k].b));
    StepInv(run[k], true, acts[k].1);
    ApplyReady(e, run[k].b.iss, Offered(run[k].b), i);
    DoApply(e, run[k].toA, i);
    if i > e.last {
      AccountingAt(e, run[k].b.iss, Offered(run[k].b), i);
    }
  }

  lemma DoApply(e: Endpoint, inbox: set<Flight>, i: int)
    requires EndpointWf(e) && Enabled(e, inbox, Apply(i)) && Ready(e, Apply(i))
    ensures Do(e, inbox, Apply(i)) == AfterApply(e, i)
  {
  }

  lemma PendingNotLast(e: Endpoint, irs: u32, stream: seq<byte>)
    requires Inv(e, irs, stream)
    ensures e.last !in e.pending
  {
  }

  lemma BumpPositions(e: Endpoint, irs: u32, stream: seq<byte>, i: int)
    requires Inv(e, irs, stream) && 0 <= i < |e.bumps|
    ensures e.bumps[i].wire.rxTail == e.bumps[i].read % |e.flow.rx.ring|
    ensures e.bumps[i].wire.txHead == e.bumps[i].head % |e.flow.tx.ring|
    ensures e.bumps[i].read <= |e.handed| <= e.rcv
    ensures i > e.last ==> FreedOff(e) <= e.bumps[i].read
  {
    hide W32, Holds, TxHolds, RxHolds;
    assert BumpRecOk(e, i);
  }
}
