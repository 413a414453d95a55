/** A full receive ring looks empty: when the receive window of a connection stays closed for good. */
module ProtocolStall {
  import opened Word
  import opened Ring
  import opened FlowOps
  import opened ConnOps
  import opened StreamHalves
  import opened Protocol
  import opened ProtocolInv
  import opened ProtocolRuns

  /** An offset that the ring positions cannot tell from the one up to which the ring is known to be free. */
  ghost predicate LooksFree(e: Endpoint, off: int) {
    off == FreedOff(e) || off == FreedOff(e) + |e.flow.rx.ring|
  }

  /** The window is closed, the library counts nothing as unread, and what the application has freed, every
      notification and every bump still to come moves positions by nothing or by a whole ring. */
  ghost predicate Stalled(e: Endpoint)
    requires EndpointWf(e)
  {
    && e.conn.open && e.flow.rx.avail == 0 && RecvdBytes(e.conn) == 0
    && LooksFree(e, |e.handed|)
    && (forall i {:trigger e.notifs[i]} :: 0 <= i < |e.notifs| ==>
          e.notifs[i].rx == 0 || e.notifs[i].rx == |e.flow.rx.ring|)
    && forall i {:trigger e.bumps[i]} :: Max(e.last + 1, 0) <= i < |e.bumps| ==> LooksFree(e, e.bumps[i].read)
  }

  // ------------------------------------------------------------ a stall is permanent

  lemma StallStep(e: Endpoint, irs: u32, stream: seq<byte>, inbox: set<Flight>, act: Action)
    requires Inv(e, irs, stream) && Enabled(e, inbox, act) && Ready(e, act)
    requires act.Receive? ==> Arrives(e, irs, stream, act.fl)
    requires Stalled(e)
    ensures var n := Do(e, inbox, act).0;
            && EndpointWf(n) && Stalled(n)
            && n.rcv == e.rcv && n.handed == e.handed
  {
    hide W32, Holds, BumpIsNew, TxHolds, RxHolds, Packet, Trimmable, RxWf, TxWf, RingRead, RingWrite, Transmit,
      Retransmit, ApplyOk, TxInv, RxInv, BumpInv, AllocLen, Stalled, Arrives, AfterApply,
      AfterNotify, AfterReceive, AfterRead, AfterTell;
    StalledShut(e);
    DoGood(e, irs, stream, inbox, act);
    GoodWf(e, Do(e, inbox, act).0, Do(e, inbox, act).1, irs, stream);
    match act
    case Receive(fl, ce, lost) =>
      StallReceive(e, irs, stream, fl, ce, lost);
    case Send =>
      TransmitKeeps(e.flow);
      StallFrame(e, AfterSend(e).0);
    case Timeout =>
      RetransmitKeeps(e.flow);
      StallFrame(e, AfterTimeout(e));
    case Apply(i) =>
      StallApply(e, irs, stream, i);
    case Notify(i) =>
      StallNotify(e, irs, stream, i);
    case Confirm =>
    case Write(data, contiguous) =>
      StallFrame(e, AfterWrite(e, data, contiguous));
    case Push(n) =>
      StallFrame(e, AfterPush(e, n));
    case Read(n) =>
      StallRead(e, n);
    case Tell =>
      StallTell(e);
  }

  lemma GoodWf(e: Endpoint, n: Endpoint, out: set<Flight>, irs: u32, stream: seq<byte>)
    requires Inv(e, irs, stream) && Good(e, n, out, irs, stream)
    ensures EndpointWf(n)
  {
  }

  /** What leaves everything alone that the stall is about keeps it. */
  lemma StallFrame(e: Endpoint, n: Endpoint)
    requires EndpointWf(e) && EndpointWf(n) && Stalled(e)
    requires n.conn.open == e.conn.open && n.conn.rxHead == e.conn.rxHead && n.conn.rxTail == e.conn.rxTail
    requires n.conn.rxLen == e.conn.rxLen
    requires n.flow.rx.avail == e.flow.rx.avail && |n.flow.rx.ring| == |e.flow.rx.ring|
    requires n.rcv == e.rcv && n.handed == e.handed
    requires n.notifs == e.notifs && n.bumps == e.bumps && n.last == e.last
    ensures Stalled(n)
  {
    hide RxWf, TxWf;
  }

  lemma StallReceive(e: Endpoint, irs: u32, stream: seq<byte>, fl: Flight, ce: bool, lost: bool)
    requires Inv(e, irs, stream) && Arrives(e, irs, stream, fl)
    requires Stalled(e)
    ensures var n := AfterReceive(e, fl, ce, lost).0;
            && EndpointWf(n) && Stalled(n)
            && n.rcv == e.rcv && n.handed == e.handed
  {
    hide W32, Holds, TxHolds, RxHolds, Packet, Trimmable, RxWf, TxInv, RxInv, BumpInv, Stalled;
    PacketHolds(e, irs, stream, fl, ce);
    StalledShut(e);
    var n := AfterReceive(e, fl, ce, lost).0;
    StallFrame(e, n.(notifs := e.notifs));
    StallNotifs(e, n);
  }

  /** Notifications of no received bytes change nothing. */
  lemma StallNotifs(e: Endpoint, n: Endpoint)
    requires EndpointWf(e) && EndpointWf(n) && Stalled(e) && Stalled(n.(notifs := e.notifs))
    requires |n.flow.rx.ring| == |e.flow.rx.ring|
    requires n.notifs == e.notifs || (|n.notifs| > 0 && n.notifs[..|n.notifs| - 1] == e.notifs &&
                                      n.notifs[|n.notifs| - 1].rx == 0)
    ensures Stalled(n)
  {
    hide RxWf, TxWf;
    forall k {:trigger n.notifs[k]} | 0 <= k < |n.notifs|
      ensures n.notifs[k].rx == 0 || n.notifs[k].rx == |e.flow.rx.ring|
    {
      if k < |e.notifs| {
        assert n.notifs[k] == e.notifs[k];
      }
    }
  }

  lemma StallRead(e: Endpoint, n: nat)
    requires EndpointWf(e) && Stalled(e)
    ensures EndpointWf(AfterRead(e, n)) && Stalled(AfterRead(e, n))
    ensures AfterRead(e, n).rcv == e.rcv && AfterRead(e, n).handed == e.handed
  {
    hide RxWf, TxWf, RingRead;
    if n == 0 {
      assert RxDone(e.conn, 0) == Some(e.conn);
      assert e.handed + RingRead(e.flow.rx.ring, e.conn.rxTail, 0) == e.handed;
    }
  }

  lemma StallTell(e: Endpoint)
    requires EndpointWf(e) && Stalled(e)
    ensures EndpointWf(AfterTell(e)) && Stalled(AfterTell(e))
    ensures AfterTell(e).rcv == e.rcv && AfterTell(e).handed == e.handed
  {
    hide RxWf, TxWf;
  }

  lemma StallNotify(e: Endpoint, irs: u32, stream: seq<byte>, i: int)
    requires Inv(e, irs, stream) && 0 <= i < |e.notifs| && NotifyOk(e, i)
    requires Stalled(e)
    ensures var n := AfterNotify(e, i);
            EndpointWf(n) && Stalled(n) && n.rcv == e.rcv && n.handed == e.handed
  {
    hide W32, Holds, TxHolds, RxHolds, TxInv, BumpInv;
    ModAdd(e.conn.rxHead, e.notifs[i].rx, e.conn.rxLen);
    ModSmall(e.conn.rxHead, e.conn.rxLen);
    var n := AfterNotify(e, i);
    forall k {:trigger n.notifs[k]} | 0 <= k < |n.notifs|
      ensures n.notifs[k].rx == 0 || n.notifs[k].rx == |e.flow.rx.ring|
    {
      assert n.notifs[k] == e.notifs[if k < i then k else k + 1];
    }
  }

  lemma StallApply(e: Endpoint, irs: u32, stream: seq<byte>, i: int)
    requires Inv(e, irs, stream) && i in e.pending && 0 <= i < |e.bumps| && InReach(i, e.last) && ApplyOk(e, i)
    requires Stalled(e)
    ensures var n := AfterApply(e, i).0;
            && EndpointWf(n) && Stalled(n)
            && n.rcv == e.rcv && n.handed == e.handed
  {
    hide W32, Holds, BumpIsNew, TxHolds, RxHolds, Available, TailOk, HeadOk;
    ApplyReady(e, irs, stream, i);
    BumpPositions(e, irs, stream, i);
    InvHolds(e, irs, stream);
    FreedIs(e.flow.rx, irs, e.rcv, stream, Max(FreedOff(e), e.bumps[i].read));
  }

  lemma RetransmitKeeps(f: Flow)
    requires FlowWf(f)
    ensures Retransmit(f).0.rx == f.rx && Retransmit(f).0.bumpSeq == f.bumpSeq
  {
  }

  /** `run` is a way things may go on from state `s`. */
  ghost predicate Continues(s: System, run: seq<System>, acts: seq<(bool, Action)>) {
    && |run| == |acts| + 1
    && run[0] == s
    && forall i :: 0 <= i < |acts| ==> Follows(run[i], acts[i], run[i + 1])
  }

  /** Whatever happens from a stalled state on, the window stays closed and the application frees nothing. */
  lemma {:induction false} StallStays(s: System, run: seq<System>, acts: seq<(bool, Action)>, k: nat)
    requires SystemInv(s) && EndpointWf(s.a) && Stalled(s.a) && Continues(s, run, acts) && k < |run|
    ensures SystemInv(run[k]) && EndpointWf(run[k].a) && Stalled(run[k].a)
    ensures run[k].a.rcv == s.a.rcv && run[k].a.handed == s.a.handed
  {
    hide W32, Holds, EndpointWf, TxInv, Inv, Genuine, Enabled, Aborts, Do, Arrives, Stalled;
    if k > 0 {
      StallStays(s, run, acts, k - 1);
      var t, act := run[k - 1], acts[k - 1];
      assert Follows(t, act, run[k]);
      StepInv(t, act.0, act.1);
      SystemParts(t);
      if act.0 {
        if act.1.Receive? {
          SegmentArrives(t, act.1);
        }
        StallStep(t.a, t.b.iss, Offered(t.b), t.toA, act.1);
      }
    }
  }

  // ------------------------------------------------------------ anything else can open the window

  /** Things can go on from `s` so that the window opens. */
  ghost predicate CanOpen(s: System) {
    exists run: seq<System>, acts: seq<(bool, Action)> {:trigger Continues(s, run, acts)} ::
      Continues(s, run, acts) && run[|acts|].a.flow.rx.avail > 0
  }

  lemma OpenNow(s: System)
    requires s.a.flow.rx.avail > 0
    ensures CanOpen(s)
  {
    var run := [s];
    assert Continues(s, run, []);
  }

  lemma OpensNext(s: System, act: Action)
    requires CanStart(s, true, act) && CanStep(s, true, act) && CanOpen(Step(s, true, act))
    ensures CanOpen(s)
  {
    hide Enabled, Aborts, Ready, Do, EndpointWf;
    var t := Step(s, true, act);
    var run: seq<System>, acts: seq<(bool, Action)> :|
      Continues(t, run, acts) && run[|acts|].a.flow.rx.avail > 0;
    var longer, more := [s] + run, [(true, act)] + acts;
    forall i | 0 <= i < |more|
      ensures Follows(longer[i], more[i], longer[i + 1])
    {
      if i > 0 {
        assert Follows(run[i - 1], acts[i - 1], run[i]);
      }
    }
    assert Continues(s, longer, more);
    assert longer[|more|] == run[|acts|];
  }

  /** What an application of a bump that is next in sequence does to the window. */
  lemma ApplyNext(e: Endpoint, irs: u32, stream: seq<byte>, i: int)
    requires Inv(e, irs, stream) && i == e.last + 1 < |e.bumps|
    ensures i in e.pending && InReach(i, e.last) && ApplyOk(e, i)
    ensures var n := AfterApply(e, i).0;
            && n.last == i && n.rcv == e.rcv && n.bumps == e.bumps && n.handed == e.handed && n.conn == e.conn
            && |n.flow.rx.ring| == |e.flow.rx.ring|
            && FreedOff(e) <= e.bumps[i].read <= FreedOff(e) + |e.flow.rx.ring| - e.flow.rx.avail
            && n.flow.rx.avail == e.flow.rx.avail +
                 if e.bumps[i].read < FreedOff(e) + |e.flow.rx.ring| then e.bumps[i].read - FreedOff(e) else 0
  {
    hide W32, Holds, BumpIsNew, TxHolds, RxHolds, Available, TailOk, HeadOk;
    ApplyReady(e, irs, stream, i);
    BumpPositions(e, irs, stream, i);
    InvHolds(e, irs, stream);
    FreedIs(e.flow.rx, irs, e.rcv, stream, e.bumps[i].read);
  }

  /** Applying the bumps in sequence up to one that frees something opens the window. */
  lemma {:induction false} ApplyUpTo(s: System, i: int)
    requires SystemInv(s) && EndpointWf(s.a) && s.a.last < i < |s.a.bumps| && !LooksFree(s.a, s.a.bumps[i].read)
    ensures CanOpen(s)
    decreases i - s.a.last
  {
    hide W32, Holds, TxInv, RxInv, BumpInv, Genuine, ApplyOk, InReach, AfterApply, CanOpen, RxWf, TxWf;
    var e, act := s.a, Apply(s.a.last + 1);
    if e.flow.rx.avail > 0 {
      OpenNow(s);
    } else {
      SystemParts(s);
      LastBound(e, s.b.iss, Offered(s.b));
      ApplyNext(e, s.b.iss, Offered(s.b), e.last + 1);
      StepInv(s, true, act);
      DoApply(e, s.toA, e.last + 1);
      var t := Step(s, true, act);
      assert t.a == AfterApply(e, e.last + 1).0;
      if t.a.flow.rx.avail > 0 {
        OpenNow(t);
      } else {
        StepWf(t);
        ApplyUpTo(t, i);
      }
      OpensNext(s, act);
    }
  }

  lemma StepWf(s: System)
    requires SystemInv(s)
    ensures EndpointWf(s.a)
  {
  }

  lemma LastBound(e: Endpoint, irs: u32, stream: seq<byte>)
    requires Inv(e, irs, stream)
    ensures -1 <= e.last < |e.bumps|
  {
  }

  /** A bump for what the application has freed opens the window, if it does not look free already. */
  lemma TellOpens(s: System)
    requires SystemInv(s) && EndpointWf(s.a) && s.a.conn.open && !LooksFree(s.a, |s.a.handed|)
    ensures CanOpen(s)
  {
    hide W32, Holds, TxInv, RxInv, BumpInv, Genuine, CanOpen, RxWf, TxWf;
    SystemParts(s);
    LastBound(s.a, s.b.iss, Offered(s.b));
    StepInv(s, true, Tell);
    var t := Step(s, true, Tell);
    StepWf(t);
    ApplyUpTo(t, |s.a.bumps|);
    OpensNext(s, Tell);
  }

  lemma ShownIs(e: Endpoint, irs: u32, stream: seq<byte>)
    requires Inv(e, irs, stream) && e.conn.open
    ensures var n := e.delivered - |e.handed|;
            0 <= n <= |e.flow.rx.ring| && RecvdBytes(e.conn) == if n < |e.flow.rx.ring| then n else 0
    ensures FreedOff(e) <= |e.handed| && e.delivered + SumRx(e.notifs) <= e.rcv
  {
    hide W32, Holds, TxHolds, RxHolds, TxInv, BumpInv, RecvdBytes;
    RecvdIs(e, irs, stream);
  }

  /** With unread bytes, freeing one of them makes a bump that opens the window, or such a bump is possible now. */
  lemma ReadOpens(s: System)
    requires SystemInv(s) && EndpointWf(s.a) && s.a.conn.open && RecvdBytes(s.a.conn) > 0
    requires s.a.flow.rx.avail == 0
    ensures CanOpen(s)
  {
    hide W32, Holds, TxInv, RxInv, BumpInv, Genuine, CanOpen, RingRead, RxWf, TxWf;
    var e := s.a;
    if !LooksFree(e, |e.handed|) {
      TellOpens(s);
    } else {
      SystemParts(s);
      ShownIs(e, s.b.iss, Offered(s.b));
      StepInv(s, true, Read(1));
      var t := Step(s, true, Read(1));
      ReadFields(e);
      TellOpens(t);
      OpensNext(s, Read(1));
    }
  }

  lemma ReadFields(e: Endpoint)
    requires EndpointWf(e) && e.conn.open && RecvdBytes(e.conn) > 0
    ensures var n := AfterRead(e, 1);
            EndpointWf(n) && n.conn.open && |n.handed| == |e.handed| + 1 && n.flow == e.flow && n.rcv == e.rcv
  {
    hide RingRead, RxWf, TxWf;
  }

  lemma NotifyOpens(s: System, i: int)
    requires SystemInv(s) && EndpointWf(s.a) && s.a.conn.open && RecvdBytes(s.a.conn) == 0
    requires 0 <= i < |s.a.notifs| && 0 < s.a.notifs[i].rx < |s.a.flow.rx.ring|
    requires s.a.flow.rx.avail == 0
    ensures CanOpen(s)
  {
    hide W32, Holds, TxInv, RxInv, BumpInv, Genuine, CanOpen, ConnUpdate, RxWf, TxWf;
    var e, act := s.a, Notify(i);
    SystemParts(s);
    ShownIs(e, s.b.iss, Offered(s.b));
    SumRemove(e.notifs, i);
    InvFreed(e, s.b.iss, Offered(s.b));
    StepInv(s, true, act);
    var t := Step(s, true, act);
    NotifyFields(e, i);
    SystemParts(t);
    ShownIs(t.a, t.b.iss, Offered(t.b));
    ReadOpens(t);
    OpensNext(s, act);
  }

  lemma NotifyFields(e: Endpoint, i: int)
    requires EndpointWf(e) && 0 <= i < |e.notifs| && NotifyOk(e, i) && e.conn.open
    ensures var n := AfterNotify(e, i);
            && n.conn.open && n.handed == e.handed && n.delivered == e.delivered + e.notifs[i].rx
            && n.flow == e.flow && n.rcv == e.rcv
  {
  }

  /** The application's own calls and its bumps open the window of a connection that is not stalled. */
  lemma NotStalledOpens(s: System)
    requires SystemInv(s) && EndpointWf(s.a) && s.a.conn.open && !Stalled(s.a)
    ensures CanOpen(s)
  {
    hide W32, Holds, TxInv, RxInv, BumpInv, Genuine, CanOpen, LooksFree, RxWf, TxWf;
    var e := s.a;
    if e.flow.rx.avail > 0 {
      OpenNow(s);
    } else if RecvdBytes(e.conn) > 0 {
      ReadOpens(s);
    } else if !LooksFree(e, |e.handed|) {
      TellOpens(s);
    } else if i :| 0 <= i < |e.notifs| && e.notifs[i].rx != 0 && e.notifs[i].rx != |e.flow.rx.ring| {
      SystemParts(s);
      ShownIs(e, s.b.iss, Offered(s.b));
      InvFreed(e, s.b.iss, Offered(s.b));
      SumRemove(e.notifs, i);
      NotifyOpens(s, i);
    } else {
      var i :| Max(e.last + 1, 0) <= i < |e.bumps| && !LooksFree(e, e.bumps[i].read);
      ApplyUpTo(s, i);
    }
  }

  lemma StalledShut(e: Endpoint)
    requires EndpointWf(e) && Stalled(e)
    ensures e.conn.open && e.flow.rx.avail == 0
  {
  }

  // ------------------------------------------------------------ runs

  /** At any point of any run, for a confirmed connection: nothing that may happen from there on ever opens the
      receive window, if and only if the connection is stalled. */
  lemma StalledForeverExactly(run: seq<System>, acts: seq<(bool, Action)>, k: nat)
    requires IsRun(run, acts) && k < |run| && run[k].a.conn.open
    ensures EndpointWf(run[k].a)
    ensures Stalled(run[k].a) <==> !CanOpen(run[k])
  {
    hide W32, Holds, TxInv, RxInv, BumpInv, Genuine, Init, Follows, RxWf, TxWf, Stalled;
    RunInv(run, acts, k);
    var s := run[k];
    StepWf(s);
    if Stalled(s.a) {
      forall more: seq<System>, next: seq<(bool, Action)> | Continues(s, more, next)
        ensures more[|next|].a.flow.rx.avail == 0
      {
        StallStays(s, more, next, |next|);
        StalledShut(more[|next|].a);
      }
    } else {
      NotStalledOpens(s);
    }
  }
}
