/** What the library is told: every byte received or acknowledged is announced, waits in a notification, or was in one
    that found no room. */
module ProtocolNotices {
  import opened Word
  import opened FlowOps
  import opened Protocol
  import opened ProtocolInv
  import opened ProtocolRuns

  /** This action of the left endpoint finds no room for its notification. */
  predicate Loses(act: (bool, Action)) { act.0 && act.1.Receive? && act.1.lost }

  /** Bytes received and bytes acknowledged in the steps of a run up to the `k`th whose notification was lost. */
  function LostRx(run: seq<System>, acts: seq<(bool, Action)>, k: nat): int
    requires |run| == |acts| + 1 && k < |run|
  {
    if k == 0 then 0
    else LostRx(run, acts, k - 1) + if Loses(acts[k - 1]) then run[k].a.rcv - run[k - 1].a.rcv else 0
  }

  function LostTx(run: seq<System>, acts: seq<(bool, Action)>, k: nat): int
    requires |run| == |acts| + 1 && k < |run|
  {
    if k == 0 then 0
    else LostTx(run, acts, k - 1) + if Loses(acts[k - 1]) then run[k].a.una - run[k - 1].a.una else 0
  }

  /** One action changes what is unaccounted for by what it loses. */
  lemma DoAccounts(e: Endpoint, inbox: set<Flight>, act: Action)
    requires EndpointWf(e) && Enabled(e, inbox, act) && Ready(e, act)
    ensures var n := Do(e, inbox, act).0;
            var lost := Loses((true, act));
            && n.rcv - n.delivered - SumRx(n.notifs)
               == e.rcv - e.delivered - SumRx(e.notifs) + (if lost then n.rcv - e.rcv else 0)
            && n.una - n.tail - SumTx(n.notifs)
               == e.una - e.tail - SumTx(e.notifs) + (if lost then n.una - e.una else 0)
  {
    hide Packet, Transmit, Retransmit, Bump, W32, RxWf, TxWf, Trimmable, ApplyOk, NotifyOk, BumpIsNew, InReach;
    match act
    case Receive(fl, ce, lost) =>
      SumAppend(e.notifs, Notif(Packet(e.flow, fl.seg, ce).rxBump, Packet(e.flow, fl.seg, ce).txBump));
    case Notify(i) =>
      SumRemove(e.notifs, i);
    case _ =>
  }

  /** In every run: what the fast path has received and what the library was told of differ by exactly what pending
      notifications carry and lost ones carried; likewise what was acknowledged. */
  lemma {:induction false} NothingUnaccounted(run: seq<System>, acts: seq<(bool, Action)>, k: nat)
    requires IsRun(run, acts) && k < |run|
    ensures var e := run[k].a;
            && e.rcv == e.delivered + SumRx(e.notifs) + LostRx(run, acts, k)
            && e.una == e.tail + SumTx(e.notifs) + LostTx(run, acts, k)
  {
    hide W32, Inv, TxInv, Genuine, Enabled, Ready, Aborts, Do, EndpointWf;
    if k > 0 {
      NothingUnaccounted(run, acts, k - 1);
      RunInv(run, acts, k - 1);
      var s, act := run[k - 1], acts[k - 1];
      assert Follows(s, act, run[k]);
      StepInv(s, act.0, act.1);
      if act.0 {
        DoAccounts(s.a, s.toA, act.1);
      }
    }
  }

  lemma {:induction false} NoneLost(run: seq<System>, acts: seq<(bool, Action)>, k: nat)
    requires |run| == |acts| + 1 && k < |run|
    requires forall i :: 0 <= i < k ==> !Loses(acts[i])
    ensures LostRx(run, acts, k) == 0 && LostTx(run, acts, k) == 0
  {
    if k > 0 {
      NoneLost(run, acts, k - 1);
    }
  }

  /** If no notification was lost, then once all are taken the library knows of every byte. */
  lemma AllAnnounced(run: seq<System>, acts: seq<(bool, Action)>, k: nat)
    requires IsRun(run, acts) && k < |run| && run[k].a.notifs == []
    requires forall i :: 0 <= i < k ==> !Loses(acts[i])
    ensures run[k].a.delivered == run[k].a.rcv && run[k].a.tail == run[k].a.una
  {
    NothingUnaccounted(run, acts, k);
    NoneLost(run, acts, k);
  }
}
