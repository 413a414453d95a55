/** Whole runs of the timeout manager: timers fire in time, in order, and once. */
module TimeoutRuns {
  import opened Word
  import opened TimeoutSpec

  /** Handlers run between two `Fire` steps and may arm and disarm timers themselves. */
  datatype Op = Arm(id: int, kind: int, us: u32, now: int) | Disarm(id: int) | MoveDue(now: int) | Fire

  /** What became of the timers: those fired, with the time of the last call before; those disarmed; and all
      that were ever armed. */
  datatype World = World(s: State, fired: seq<Timer>, at: seq<int>, disarmed: seq<Timer>, all: seq<Timer>)

  ghost predicate Enabled(w: World, op: Op) {
    match op
    case Arm(id, _, us, now) => us < TWO27 && InTime(w.s, now)
    case Disarm(id) => Armed(w.s, id)
    case MoveDue(now) => InTime(w.s, now)
    case Fire => w.s.due != []
  }

  ghost function Do(w: World, op: Op): World
    requires Enabled(w, op)
  {
    match op
    case Arm(id, kind, us, now) =>
      w.(s := TimeoutSpec.Arm(w.s, id, kind, us, now).value, all := w.all + [Timer(id, kind, now + us, w.s.armed)])
    case Disarm(id) =>
      var (s, t) := TimeoutSpec.Disarm(w.s, id);
      w.(s := s, disarmed := w.disarmed + [t])
    case MoveDue(now) => w.(s := TimeoutSpec.MoveDue(w.s, now))
    case Fire =>
      w.(s := w.s.(due := w.s.due[1..]), fired := w.fired + [w.s.due[0]], at := w.at + [w.s.now])
  }

  ghost predicate Legal(w: World, ops: seq<Op>)
    decreases |ops|
  {
    ops == [] || (Enabled(w, ops[0]) && Legal(Do(w, ops[0]), ops[1..]))
  }

  ghost function Exec(w: World, ops: seq<Op>): World
    requires Legal(w, ops)
    decreases |ops|
  {
    if ops == [] then w else Exec(Do(w, ops[0]), ops[1..])
  }

  function Start(now: int): World { World(State([], [], 0, now), [], [], [], []) }

  /** No timer fired before its deadline, nor after the last call. */
  ghost predicate FiredInTime(fired: seq<Timer>, at: seq<int>, now: int, armed: nat) {
    && |at| == |fired|
    && forall i {:trigger fired[i]} {:trigger at[i]} :: 0 <= i < |fired| ==>
         fired[i].deadline <= at[i] <= now && fired[i].stamp < armed
  }

  /** Fired, due and pending timers together are in order of deadline, and of arming where deadlines agree. */
  ghost predicate OrderInv(w: World) {
    && Inv(w.s)
    && Sorted(w.fired + (w.s.due + w.s.pending))
    && FiredInTime(w.fired, w.at, w.s.now, w.s.armed)
  }

  lemma FiredStay(w: World, u: World)
    requires FiredInTime(w.fired, w.at, w.s.now, w.s.armed)
    requires u.fired == w.fired && u.at == w.at && w.s.now <= u.s.now && w.s.armed <= u.s.armed
    ensures FiredInTime(u.fired, u.at, u.s.now, u.s.armed)
  {
  }

  /** Every timer armed is accounted for. */
  ghost predicate CountInv(w: World) {
    && |w.all| == w.s.armed
    && (forall i {:trigger w.all[i]} :: 0 <= i < |w.all| ==> w.all[i].stamp == i)
    && multiset(w.all) == multiset(w.fired) + multiset(w.s.due) + multiset(w.s.pending) + multiset(w.disarmed)
  }

  lemma WithoutMultiset(ts: seq<Timer>, n: nat)
    requires n < |ts|
    ensures multiset(ts) == multiset(Without(ts, n)) + multiset{ts[n]}
  {
    assert ts == ts[..n] + [ts[n]] + ts[n + 1..];
  }

  lemma InsertMultiset(ts: seq<Timer>, n: nat, t: Timer)
    requires n <= |ts|
    ensures multiset(Insert(ts, n, t)) == multiset(ts) + multiset{t}
  {
    assert ts == ts[..n] + ts[n..];
  }

  lemma MoveDueCounts(s: State, now: int)
    ensures var m := TimeoutSpec.MoveDue(s, now);
            multiset(m.due) + multiset(m.pending) == multiset(s.due) + multiset(s.pending)
  {
    var m := TimeoutSpec.MoveDue(s, now);
    MoveDueJoined(s, now);
    assert multiset(m.due + m.pending) == multiset(m.due) + multiset(m.pending);
    assert multiset(s.due + s.pending) == multiset(s.due) + multiset(s.pending);
  }

  lemma StepCount(w: World, op: Op)
    requires CountInv(w) && Enabled(w, op)
    ensures CountInv(Do(w, op))
  {
    hide InTime, Armed, TimeoutSpec.Arm, TimeoutSpec.MoveDue, TimeoutSpec.Disarm;
    match op
    case Arm(id, kind, us, now) => ArmCount(w, id, kind, us, now);
    case Disarm(id) => DisarmCount(w, id);
    case MoveDue(now) => MoveDueCount(w, now);
    case Fire => assert w.s.due == [w.s.due[0]] + w.s.due[1..];
  }

  lemma MoveDueCount(w: World, now: int)
    requires CountInv(w)
    ensures CountInv(w.(s := TimeoutSpec.MoveDue(w.s, now)))
  {
    var m := TimeoutSpec.MoveDue(w.s, now);
    MoveDueCounts(w.s, now);
    Regroup(multiset(w.fired), multiset(m.due), multiset(m.pending));
    Regroup(multiset(w.fired), multiset(w.s.due), multiset(w.s.pending));
  }

  lemma Regroup(a: multiset<Timer>, b: multiset<Timer>, c: multiset<Timer>)
    ensures a + b + c == a + (b + c)
  {
  }

  lemma ArmCount(w: World, id: int, kind: int, us: u32, now: int)
    requires CountInv(w) && Enabled(w, Arm(id, kind, us, now))
    ensures CountInv(Do(w, Arm(id, kind, us, now)))
  {
    hide TimeoutSpec.MoveDue, InsertAt, Insert, InTime;
    MoveDueCount(w, now);
    var m := TimeoutSpec.MoveDue(w.s, now);
    InsertMultiset(m.pending, InsertAt(m.pending, now, us), Timer(id, kind, now + us, w.s.armed));
  }

  /** Disarming takes away one timer of that name, which was armed, and no other. */
  lemma DisarmTakes(w: World, id: int)
    requires Armed(w.s, id)
    ensures var u := Do(w, Disarm(id));
            && |u.disarmed| == |w.disarmed| + 1 && u.disarmed[..|w.disarmed|] == w.disarmed
            && u == w.(s := w.s.(pending := u.s.pending, due := u.s.due), disarmed := u.disarmed)
            && var t := u.disarmed[|w.disarmed|];
               && t.id == id
               && multiset(w.s.due) + multiset(w.s.pending) == multiset(u.s.due) + multiset(u.s.pending) + multiset{t}
  {
    hide Without;
    var n, m := IndexOf(w.s.pending, id), IndexOf(w.s.due, id);
    if n < |w.s.pending| {
      WithoutMultiset(w.s.pending, n);
    } else {
      WithoutMultiset(w.s.due, m);
    }
  }

  lemma DisarmCount(w: World, id: int)
    requires CountInv(w) && Armed(w.s, id)
    ensures CountInv(Do(w, Disarm(id)))
  {
    hide Armed, TimeoutSpec.Disarm;
    DisarmTakes(w, id);
    var u := Do(w, Disarm(id));
    var t := u.disarmed[|w.disarmed|];
    assert u.disarmed == w.disarmed + [t];
    Regroup(multiset(w.fired), multiset(w.s.due), multiset(w.s.pending));
    Regroup(multiset(w.fired), multiset(u.s.due), multiset(u.s.pending));
  }

  lemma ArmOrder(w: World, id: int, kind: int, us: u32, now: int)
    requires OrderInv(w) && Enabled(w, Arm(id, kind, us, now))
    ensures OrderInv(Do(w, Arm(id, kind, us, now)))
  {
    hide Rel, DueCount, InsertAt, Before, Sorted, Insert, Inv, FiredInTime;
    ArmKeeps(w.s, id, kind, us, now);
    MoveDueSplits(w.s, now);
    var m := TimeoutSpec.MoveDue(w.s, now);
    var t := Timer(id, kind, now + us, w.s.armed);
    var n := InsertAt(m.pending, now, us);
    ArmPlace(w.s, now, us);
    var front := w.fired + m.due;
    assert front + m.pending == w.fired + (m.due + m.pending);
    assert front + Insert(m.pending, n, t) == w.fired + (m.due + Insert(m.pending, n, t));
    FrontFacts(w, m);
    StampsOf(m);
    InsertSorted(front, m.pending, n, t);
    FiredStay(w, Do(w, Arm(id, kind, us, now)));
  }

  lemma FrontFacts(w: World, m: State)
    requires OrderInv(w) && Inv(m) && m.armed == w.s.armed && w.s.now <= m.now
    ensures forall t {:trigger t in w.fired + m.due} :: t in w.fired + m.due ==>
              t.deadline <= m.now && t.stamp < m.armed
  {
    hide Before, Sorted;
    forall t | t in w.fired
      ensures t.deadline <= m.now && t.stamp < m.armed
    {
      var i :| 0 <= i < |w.fired| && w.fired[i] == t;
    }
  }

  lemma StampsOf(s: State)
    requires Inv(s)
    ensures forall t {:trigger t in s.pending} :: t in s.pending ==> t.stamp < s.armed
  {
  }

  lemma DisarmOrder(w: World, id: int)
    requires OrderInv(w) && Armed(w.s, id)
    ensures OrderInv(Do(w, Disarm(id)))
  {
    hide Before, Sorted, Inv, Without, FiredInTime;
    DisarmKeeps(w.s, id);
    var u := Do(w, Disarm(id));
    assert u.fired == w.fired && u.at == w.at && u.s.now == w.s.now && u.s.armed == w.s.armed;
    FiredStay(w, u);
    var n, m := IndexOf(w.s.pending, id), IndexOf(w.s.due, id);
    if n < |w.s.pending| {
      var front := w.fired + w.s.due;
      assert front + w.s.pending + [] == w.fired + (w.s.due + w.s.pending);
      assert front + Without(w.s.pending, n) + [] == w.fired + (w.s.due + Without(w.s.pending, n));
      WithoutSorted(front, w.s.pending, n, []);
    } else {
      assert w.fired + w.s.due + w.s.pending == w.fired + (w.s.due + w.s.pending);
      assert w.fired + Without(w.s.due, m) + w.s.pending == w.fired + (Without(w.s.due, m) + w.s.pending);
      WithoutSorted(w.fired, w.s.due, m, w.s.pending);
    }
  }

  lemma FireOrder(w: World)
    requires OrderInv(w) && w.s.due != []
    ensures OrderInv(Do(w, Fire))
  {
    hide Before, Sorted, Inv, FiredInTime;
    PopKeeps(w.s);
    HeadFires(w.fired, w.s.due, w.s.pending);
    HeadDue(w.s);
    FiredMore(w.fired, w.at, w.s.due[0], w.s.now, w.s.armed);
  }

  lemma HeadFires(fired: seq<Timer>, due: seq<Timer>, pending: seq<Timer>)
    requires due != []
    ensures (fired + [due[0]]) + (due[1..] + pending) == fired + (due + pending)
  {
    assert due == [due[0]] + due[1..];
  }

  lemma FiredMore(fired: seq<Timer>, at: seq<int>, t: Timer, now: int, armed: nat)
    requires FiredInTime(fired, at, now, armed) && t.deadline <= now && t.stamp < armed
    ensures FiredInTime(fired + [t], at + [now], now, armed)
  {
    var f, a := fired + [t], at + [now];
    forall i {:trigger f[i]} | 0 <= i < |f|
      ensures f[i].deadline <= a[i] <= now && f[i].stamp < armed
    {
      if i < |fired| {
        assert f[i] == fired[i] && a[i] == at[i];
      }
    }
  }

  lemma HeadDue(s: State)
    requires Inv(s) && s.due != []
    ensures s.due[0].deadline <= s.now && s.due[0].stamp < s.armed
  {
    assert s.due[0] in s.due;
  }

  lemma StepOrder(w: World, op: Op)
    requires OrderInv(w) && Enabled(w, op)
    ensures OrderInv(Do(w, op))
  {
    hide Sorted, Inv, FiredInTime, TimeoutSpec.MoveDue;
    match op
    case Arm(id, kind, us, now) => ArmOrder(w, id, kind, us, now);
    case Disarm(id) => DisarmOrder(w, id);
    case MoveDue(now) =>
      MoveDueSplits(w.s, now);
      MoveDueClock(w.s, now);
      FiredStay(w, Do(w, op));
    case Fire => FireOrder(w);
  }

  lemma MoveDueClock(s: State, now: int)
    ensures TimeoutSpec.MoveDue(s, now).now == now && TimeoutSpec.MoveDue(s, now).armed == s.armed
  {
  }

  lemma {:induction false} RunInv(w: World, ops: seq<Op>)
    requires OrderInv(w) && CountInv(w) && Legal(w, ops)
    ensures OrderInv(Exec(w, ops)) && CountInv(Exec(w, ops))
    decreases |ops|
  {
    hide OrderInv, CountInv, Enabled, Do;
    if ops != [] {
      StepOrder(w, ops[0]);
      StepCount(w, ops[0]);
      RunInv(Do(w, ops[0]), ops[1..]);
    }
  }

  lemma StartInv(now: int)
    ensures OrderInv(Start(now)) && CountInv(Start(now))
  {
  }

  /** Timers fire in order of deadline, those of one deadline in the order in which they were armed, and none
      before its deadline. */
  lemma FiresInOrderNeverEarly(now: int, ops: seq<Op>)
    requires Legal(Start(now), ops)
    ensures var w := Exec(Start(now), ops);
            && Sorted(w.fired) && |w.at| == |w.fired|
            && forall i :: 0 <= i < |w.fired| ==> w.fired[i].deadline <= w.at[i]
  {
    StartInv(now);
    RunInv(Start(now), ops);
    var w := Exec(Start(now), ops);
    SortedParts(w.fired, w.s.due + w.s.pending);
  }

  /** How often a timer fired, was disarmed, or is still armed. */
  ghost function Fates(w: World, t: Timer): nat {
    multiset(w.fired)[t] + multiset(w.s.due)[t] + multiset(w.s.pending)[t] + multiset(w.disarmed)[t]
  }

  /** Each timer armed is, once, either fired, disarmed, due or pending; a pending one is not past its deadline
      at the time of the last call. */
  lemma FiresOnceUnlessDisarmed(now: int, ops: seq<Op>)
    requires Legal(Start(now), ops)
    ensures var w := Exec(Start(now), ops);
            && (forall t {:trigger Fates(w, t)} :: t in w.all ==> Fates(w, t) == 1)
            && (forall t :: t in w.fired ==> t in w.all)
            && (forall t :: t in w.s.pending ==> w.s.now <= t.deadline)
  {
    hide OrderInv, CountInv, Exec, Do, Fates;
    StartInv(now);
    RunInv(Start(now), ops);
    CountedOnce(Exec(Start(now), ops));
    PendingAhead(Exec(Start(now), ops));
  }

  lemma PendingAhead(w: World)
    requires OrderInv(w)
    ensures forall t :: t in w.s.pending ==> w.s.now <= t.deadline
  {
  }

  lemma CountedOnce(w: World)
    requires CountInv(w)
    ensures forall t {:trigger Fates(w, t)} :: t in w.all ==> Fates(w, t) == 1
    ensures forall t :: t in w.fired ==> t in w.all
  {
    forall t {:trigger Fates(w, t)} | t in w.all
      ensures Fates(w, t) == 1
    {
      Once(w.all, t);
      var sum := multiset(w.fired) + multiset(w.s.due) + multiset(w.s.pending) + multiset(w.disarmed);
      assert sum[t] == Fates(w, t);
    }
    forall t | t in w.fired
      ensures t in w.all
    {
      assert multiset(w.fired)[t] > 0;
      assert multiset(w.all)[t] > 0;
    }
  }

  lemma {:induction false} Once(all: seq<Timer>, t: Timer)
    requires forall i {:trigger all[i]} :: 0 <= i < |all| ==> all[i].stamp == i
    ensures multiset(all)[t] == if t in all then 1 else 0
    decreases |all|
  {
    if all != [] {
      var n := |all| - 1;
      Once(all[..n], t);
      assert all == all[..n] + [all[n]];
    }
  }

  /** After a poll at time `now` that fires every due timer, each timer whose deadline has passed was fired
      or disarmed. */
  lemma NoneLate(start: int, ops: seq<Op>, now: int)
    requires Legal(Start(start), ops) && InTime(Exec(Start(start), ops).s, now)
    ensures var w := Exec(Start(start), ops);
            var m := Do(w, MoveDue(now));
            && Legal(m, Fires(|m.s.due|))
            && var u := Exec(m, Fires(|m.s.due|));
               forall t :: t in u.all && t.deadline <= now ==> t in u.fired || t in u.disarmed
  {
    hide Sorted, TimeoutSpec.MoveDue;
    StartInv(start);
    RunInv(Start(start), ops);
    var w := Exec(Start(start), ops);
    StepOrder(w, MoveDue(now));
    StepCount(w, MoveDue(now));
    MoveDueSplits(w.s, now);
    var m := Do(w, MoveDue(now));
    FiresAll(m, |m.s.due|);
    RunInv(m, Fires(|m.s.due|));
    LateFired(Exec(m, Fires(|m.s.due|)), now);
  }

  lemma LateFired(u: World, now: int)
    requires CountInv(u) && u.s.due == []
    requires forall t {:trigger t in u.s.pending} :: t in u.s.pending ==> now < t.deadline
    ensures forall t :: t in u.all && t.deadline <= now ==> t in u.fired || t in u.disarmed
  {
    forall t | t in u.all && t.deadline <= now
      ensures t in u.fired || t in u.disarmed
    {
      assert multiset(u.all)[t] > 0;
      assert t !in u.s.pending && multiset(u.s.pending)[t] == 0;
    }
  }

  function Fires(n: nat): (r: seq<Op>)
    ensures |r| == n
  {
    if n == 0 then [] else [Fire] + Fires(n - 1)
  }

  lemma {:induction false} FiresAll(w: World, n: nat)
    requires n == |w.s.due|
    ensures Legal(w, Fires(n))
    ensures Exec(w, Fires(n)).s == w.s.(due := [])
    decreases n
  {
    if n > 0 {
      FiresAll(Do(w, Fire), n - 1);
      assert Fires(n)[0] == Fire && Fires(n)[1..] == Fires(n - 1);
    }
  }
}
