/** Whole runs of an epoll instance: nothing ready is missed, and nothing ready starves. */
module EpollRuns {
  import opened Word
  import opened EpollSpec

  datatype Op =
    | Add(sock: int, mask: set<Event>, data: int)
    | Modify(sock: int, mask: set<Event>)
    | Delete(sock: int)
    | SetEvents(sock: int, evts: set<Event>)
    | ClearEvents(sock: int, evts: set<Event>)
    | Wait(max: nat)

  function OrSame(s: State, r: Option<State>): State { if r.None? then s else r.value }

  /** A step, and what it reports; calls that fail change nothing. */
  function Do(s: State, op: Op): (State, seq<Report>) {
    match op
    case Add(sock, mask, data) => (OrSame(s, EpollSpec.Add(s, sock, mask, data)), [])
    case Modify(sock, mask) => (OrSame(s, EpollSpec.Modify(s, sock, mask)), [])
    case Delete(sock) => (OrSame(s, EpollSpec.Delete(s, sock)), [])
    case SetEvents(sock, evts) => (EpollSpec.SetEvents(s, sock, evts), [])
    case ClearEvents(sock, evts) => (EpollSpec.ClearEvents(s, sock, evts), [])
    case Wait(max) => EpollSpec.Wait(s, max)
  }

  function Exec(s: State, ops: seq<Op>): State
    decreases |ops|
  {
    if ops == [] then s else Exec(Do(s, ops[0]).0, ops[1..])
  }

  const EMPTY: State := State(map[], [], [])

  lemma EmptyInv()
    ensures Inv(EMPTY)
  {
  }

  lemma StepInv(s: State, op: Op)
    requires Inv(s)
    ensures Inv(Do(s, op).0)
  {
    hide Inv;
    match op
    case Add(sock, mask, data) => if !Registered(s, sock) { AddInv(s, sock, mask, data); }
    case Modify(sock, mask) => if Registered(s, sock) { ModifyInv(s, sock, mask); }
    case Delete(sock) => if Registered(s, sock) { DeleteInv(s, sock); }
    case SetEvents(sock, evts) => SetInv(s, sock, evts);
    case ClearEvents(sock, evts) => ClearInv(s, sock, evts);
    case Wait(max) => WaitInv(s, max);
  }

  lemma {:induction false} RunInv(s: State, ops: seq<Op>)
    requires Inv(s)
    ensures Inv(Exec(s, ops))
    decreases |ops|
  {
    hide Inv, Do;
    if ops != [] {
      StepInv(s, ops[0]);
      RunInv(Do(s, ops[0]).0, ops[1..]);
    }
  }

  /** In every run each socket has at most one registration, and one whose pending events meet its mask is
      always on the active list. */
  lemma ReadyIsActive(ops: seq<Op>)
    ensures var s := Exec(EMPTY, ops);
            && (forall x {:trigger All(s, x)} :: All(s, x) <= 1)
            && forall r :: r in s.inactive ==> !Ready(s.events, r)
  {
    RunInv(EMPTY, ops);
    UniqueAll(Exec(EMPTY, ops));
  }

  /** In every run one pass reports no socket twice, each with its pending events, and all that are ready if
      there is room. */
  lemma PassIsComplete(ops: seq<Op>, max: nat)
    ensures var s := Exec(EMPTY, ops);
            var reports := EpollSpec.Wait(s, max).1;
            && |reports| <= max
            && (forall i, j :: 0 <= i < j < |reports| ==> reports[i].sock != reports[j].sock)
            && (forall i :: 0 <= i < |reports| ==> Genuine(s, reports[i]))
            && (|reports| < max ==>
                  forall r :: r in s.active + s.inactive && Ready(s.events, r) ==> ReportOf(s.events, r) in reports)
  {
    hide Inv, Genuine, Ready, ReportOf;
    EmptyInv();
    RunInv(EMPTY, ops);
    WaitReports(Exec(EMPTY, ops), max);
  }

  // ------------------------------------------------------------ fairness

  /** Through all of `ops` socket `sock` stays registered and ready, none of the passes reports it, and each
      pass has room for `max` reports. */
  ghost predicate Starves(s: State, ops: seq<Op>, sock: int, max: nat)
    decreases |ops|
  {
    && IsReady(s, sock)
    && (ops != [] ==>
          && (ops[0].Wait? ==> ops[0].max >= max)
          && (forall r :: r in Do(s, ops[0]).1 ==> r.sock != sock)
          && Starves(Do(s, ops[0]).0, ops[1..], sock, max))
  }

  ghost predicate IsReady(s: State, sock: int) {
    Find(s.active, sock) < |s.active| && Ready(s.events, s.active[Find(s.active, sock)])
  }

  function Waits(ops: seq<Op>): nat {
    if ops == [] then 0 else Waits(ops[1..]) + if ops[0].Wait? then 1 else 0
  }

  /** Steps other than a pass never move an active registration back. */
  lemma PositionKept(s: State, op: Op, sock: int)
    requires Inv(s) && !op.Wait? && Find(s.active, sock) < |s.active|
    requires Find(Do(s, op).0.active, sock) < |Do(s, op).0.active|
    ensures Find(Do(s, op).0.active, sock) <= Find(s.active, sock)
  {
    hide Find, Inv, Remask, Without;
    match op
    case Add(x, mask, data) => ActivatePosition(s.(inactive := [Reg(x, mask + {Err}, data)] + s.inactive), x, sock);
    case Modify(x, mask) =>
      var m := mask + {Err};
      FindRemask(s.active, x, m, sock);
      RemaskLength(s.active, x, m);
      ActivatePosition(s.(active := Remask(s.active, x, m), inactive := Remask(s.inactive, x, m)), x, sock);
    case Delete(x) => if x == sock { DeletedGone(s, x); } else { FindWithout(s.active, x, sock); }
    case SetEvents(x, evts) =>
      ActivatePosition(s.(events := s.events[x := Pending(s.events, x) + evts]), x, sock);
    case ClearEvents(x, evts) =>
  }

  lemma ActivatePosition(s: State, x: int, sock: int)
    requires Find(s.active, sock) < |s.active|
    ensures Find(Activate(s, x).active, sock) == Find(s.active, sock)
  {
    hide Find;
    var i := Find(s.inactive, x);
    if i < |s.inactive| {
      FindAppend(s.active, s.inactive[i], sock);
    }
  }

  lemma RemaskLength(regs: seq<Reg>, x: int, m: set<Event>)
    ensures |Remask(regs, x, m)| == |regs|
  {
  }

  lemma DeletedGone(s: State, x: int)
    requires Inv(s)
    ensures Find(Without(s.active, x), x) == |Without(s.active, x)|
  {
    hide Unique;
    UniqueParts(s.active, s.inactive);
    FindGone(s.active, x);
  }

  /** A pass that does not report a ready registration moves it forward by its room. */
  lemma PositionAdvances(s: State, max: nat, sock: int)
    requires Inv(s) && IsReady(s, sock)
    requires forall r :: r in EpollSpec.Wait(s, max).1 ==> r.sock != sock
    ensures max <= Find(s.active, sock)
    ensures Find(EpollSpec.Wait(s, max).0.active, sock) <= Find(s.active, sock) - max
  {
    hide Ready, ReportOf;
    var (t, reports) := EpollSpec.Wait(s, max);
    var n, first := Looked(s.events, s.active, max), FirstReady(s.events, s.active, max);
    var p := Find(s.active, sock);
    assert s.active == s.active + [];
    PassIs(s, s.active, [], max);
    FirstReadyMember(s.events, s.active, max);
    if p < n {
      var i :| 0 <= i < |first| && first[i] == s.active[p];
      assert reports[i] == ReportOf(s.events, first[i]) && reports[i] in reports;
      ReportSock(s.events, first[i]);
      assert false;
    }
    assert t.active[p - n] == s.active[n..][p - n] == s.active[p];
  }

  lemma ReportSock(events: map<int, set<Event>>, r: Reg)
    ensures ReportOf(events, r).sock == r.sock
  {
  }

  /** A registration that stays ready is reported within as many passes as it takes to go through the active
      list: without a report of it there are fewer than its place in the list, divided by the room. */
  lemma {:induction false} StarvingBound(s: State, ops: seq<Op>, sock: int, max: nat)
    requires Inv(s) && Starves(s, ops, sock, max)
    ensures Waits(ops) * max <= Find(s.active, sock) < |s.active|
    decreases |ops|
  {
    hide Inv, Ready, Do, EpollSpec.Wait, Genuine, Find, Waits;
    if ops == [] {
      NoWaits();
    } else {
      var t := Do(s, ops[0]).0;
      StepInv(s, ops[0]);
      StarvingBound(t, ops[1..], sock, max);
      if ops[0].Wait? {
        DoWait(s, ops[0].max);
        PositionAdvances(s, ops[0].max, sock);
        WaitsNext(ops, max);
      } else {
        PositionKept(s, ops[0], sock);
        WaitsSame(ops);
      }
    }
  }

  lemma WaitsSame(ops: seq<Op>)
    requires ops != [] && !ops[0].Wait?
    ensures Waits(ops) == Waits(ops[1..])
  {
  }

  lemma NoWaits()
    ensures Waits([]) == 0
  {
  }

  lemma WaitsNext(ops: seq<Op>, max: nat)
    requires ops != [] && ops[0].Wait?
    ensures Waits(ops) * max == Waits(ops[1..]) * max + max
  {
    var w: int := Waits(ops[1..]);
    assert (w + 1) * max == w * max + max;
  }

  lemma DoWait(s: State, max: nat)
    ensures Do(s, Wait(max)) == EpollSpec.Wait(s, max)
  {
  }

  /** In every run: a ready registration that is not deleted or changed is reported within `|active| / max`
      passes, rounded up. */
  lemma NoStarvation(before: seq<Op>, ops: seq<Op>, sock: int, max: nat)
    requires Starves(Exec(EMPTY, before), ops, sock, max)
    ensures Waits(ops) * max < |Exec(EMPTY, before).active|
  {
    RunInv(EMPTY, before);
    StarvingBound(Exec(EMPTY, before), ops, sock, max);
  }
}
