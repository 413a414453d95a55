/** Timeouts of the kernel: pending ones by deadline, due ones waiting for their handler. Stored times have
    28 bits; deadlines here do not wrap around. */
module TimeoutSpec {
  import opened Word

  const TWO27: int := 0x800_0000
  const TWO28: int := 0x1000_0000

  type u28 = x: int | 0 <= x < 0x1000_0000

  function W28(x: int): u28 { x % 0x1000_0000 }

  /** `stamp` numbers the timers in the order in which they were armed. */
  datatype Timer = Timer(id: int, kind: int, deadline: int, stamp: int)

  datatype State = State(pending: seq<Timer>, due: seq<Timer>, armed: nat, now: int)

  // ------------------------------------------------------------ time

  /** Time relative to `cur`, ignoring wrap-arounds; the cases of the code. */
  function RelTime(cur: u28, ts: u28): int {
    if cur < TWO27 then
      var start := W28(cur - TWO27);
      if start <= ts then ts - start - TWO27 else ts - cur
    else if cur == TWO27 then
      ts - cur
    else
      var end := W28(cur + TWO27) + 1;
      if ts < end then ts + (TWO28 - cur) else ts - cur
  }

  /** For times less than 2^27 us apart this is their distance. */
  lemma RelTimeExact(now: int, t: int)
    requires -TWO27 < t - now < TWO27
    ensures RelTime(W28(now), W28(t)) == t - now
  {
    hide W28;
    W28Range(W28(now) + (t - now));
    W28Range(W28(now) - TWO27);
    W28Range(W28(now) + TWO27);
    W28Shift(now, t - now);
  }

  lemma W28Shift(x: int, d: int)
    ensures W28(x + d) == W28(W28(x) + d)
  {
  }

  /** Words within one turn of the range. */
  lemma W28Range(x: int)
    requires -TWO28 <= x < 2 * TWO28
    ensures W28(x) == if x < 0 then x + TWO28 else if x < TWO28 then x else x - TWO28
  {
  }

  function Rel(now: int, t: Timer): int { RelTime(W28(now), W28(t.deadline)) }

  // ------------------------------------------------------------ operations

  /** How many timers at the front of the pending ones are due. */
  function DueCount(pending: seq<Timer>, now: int): (n: nat)
    ensures n <= |pending|
  {
    if pending == [] || Rel(now, pending[0]) > 0 then 0 else 1 + DueCount(pending[1..], now)
  }

  function MoveDue(s: State, now: int): State {
    var n := DueCount(s.pending, now);
    s.(pending := s.pending[n..], due := s.due + s.pending[..n], now := now)
  }

  /** Behind which pending timers a new one goes, searching from the end. The relative time is compared as an
      unsigned word. */
  function InsertAt(pending: seq<Timer>, now: int, us: u32): (n: nat)
    ensures n <= |pending|
  {
    if pending == [] then 0
    else
      var n := |pending| - 1;
      if W32(Rel(now, pending[n])) > us then InsertAt(pending[..n], now, us) else n + 1
  }

  function Insert(pending: seq<Timer>, n: nat, t: Timer): seq<Timer>
    requires n <= |pending|
  {
    pending[..n] + [t] + pending[n..]
  }

  /** Arm a timer, unless its time is out of range. */
  function Arm(s: State, id: int, kind: int, us: u32, now: int): Option<State> {
    if us >= TWO27 then None
    else
      var m := MoveDue(s, now);
      var t := Timer(id, kind, now + us, s.armed);
      Some(m.(pending := Insert(m.pending, InsertAt(m.pending, now, us), t), armed := s.armed + 1))
  }

  function IndexOf(ts: seq<Timer>, id: int): (n: nat)
    ensures n <= |ts|
    ensures n < |ts| ==> ts[n].id == id
    ensures forall i :: 0 <= i < n ==> ts[i].id != id
  {
    if ts == [] || ts[0].id == id then 0 else 1 + IndexOf(ts[1..], id)
  }

  function Without(ts: seq<Timer>, n: nat): seq<Timer>
    requires n < |ts|
  {
    ts[..n] + ts[n + 1..]
  }

  predicate Armed(s: State, id: int) {
    (exists i :: 0 <= i < |s.pending| && s.pending[i].id == id) ||
    (exists i :: 0 <= i < |s.due| && s.due[i].id == id)
  }

  function Disarm(s: State, id: int): (r: (State, Timer))
    requires Armed(s, id)
  {
    var n, m := IndexOf(s.pending, id), IndexOf(s.due, id);
    if n < |s.pending| then (s.(pending := Without(s.pending, n)), s.pending[n])
    else (s.(due := Without(s.due, m)), s.due[m])
  }

  /** Microseconds until a timer needs attention, if any is armed. */
  function Next(s: State, now: int): Option<int> {
    if s.due != [] then Some(0)
    else if s.pending == [] then None
    else Some(Max(Rel(now, s.pending[0]), 0))
  }

  // ------------------------------------------------------------ order

  predicate Before(a: Timer, b: Timer) {
    a.deadline < b.deadline || (a.deadline == b.deadline && a.stamp < b.stamp)
  }

  predicate Sorted(ts: seq<Timer>) {
    forall i, j {:trigger ts[i], ts[j]} :: 0 <= i < j < |ts| ==> Before(ts[i], ts[j])
  }

  /** No pending deadline has passed at the last call, none is out of range of it. */
  ghost predicate Inv(s: State) {
    && Sorted(s.due + s.pending)
    && (forall t {:trigger t in s.pending} :: t in s.pending ==>
          s.now <= t.deadline < s.now + TWO27 && t.stamp < s.armed)
    && (forall t {:trigger t in s.due} :: t in s.due ==> t.deadline <= s.now && t.stamp < s.armed)
  }

  /** Time does not run backwards, and no pending deadline is 2^27 us or more in the past. */
  ghost predicate InTime(s: State, now: int) {
    s.now <= now && forall t {:trigger t in s.pending} :: t in s.pending ==> now - TWO27 < t.deadline
  }

  lemma RelPending(s: State, now: int)
    requires Inv(s) && InTime(s, now)
    ensures forall t {:trigger t in s.pending} :: t in s.pending ==> Rel(now, t) == t.deadline - now
  {
    forall t | t in s.pending
      ensures Rel(now, t) == t.deadline - now
    {
      RelTimeExact(now, t.deadline);
    }
  }

  lemma {:induction false} DueCountIs(pending: seq<Timer>, now: int)
    requires Sorted(pending) && forall t {:trigger t in pending} :: t in pending ==> Rel(now, t) == t.deadline - now
    ensures forall i {:trigger pending[i]} :: 0 <= i < |pending| ==>
              (i < DueCount(pending, now) <==> pending[i].deadline <= now)
  {
    if pending != [] {
      assert pending[0] in pending;
      if Rel(now, pending[0]) <= 0 {
        assert forall t {:trigger t in pending[1..]} :: t in pending[1..] ==> t in pending;
        DueCountIs(pending[1..], now);
        forall i {:trigger pending[i]} | 0 <= i < |pending|
          ensures i < DueCount(pending, now) <==> pending[i].deadline <= now
        {
          if i > 0 {
            assert pending[1..][i - 1] == pending[i];
          }
        }
      }
    }
  }

  lemma {:induction false} InsertAtIs(pending: seq<Timer>, now: int, us: u32)
    requires Sorted(pending)
    requires forall t {:trigger t in pending} :: t in pending ==>
               Rel(now, t) == t.deadline - now && 0 <= t.deadline - now < TWO32
    ensures forall i {:trigger pending[i]} :: 0 <= i < |pending| ==>
              (i < InsertAt(pending, now, us) <==> pending[i].deadline <= now + us)
    decreases |pending|
  {
    hide W32, Rel;
    if pending != [] {
      var n := |pending| - 1;
      assert pending[n] in pending;
      W32Range(Rel(now, pending[n]));
      if W32(Rel(now, pending[n])) > us {
        assert forall t {:trigger t in pending[..n]} :: t in pending[..n] ==> t in pending;
        InsertAtIs(pending[..n], now, us);
        forall i {:trigger pending[i]} | 0 <= i < |pending|
          ensures i < InsertAt(pending, now, us) <==> pending[i].deadline <= now + us
        {
          if i < n {
            assert pending[..n][i] == pending[i];
          }
        }
      }
    }
  }

  lemma MoveDueJoined(s: State, now: int)
    ensures var m := MoveDue(s, now);
            m.due + m.pending == s.due + s.pending
  {
    var n := DueCount(s.pending, now);
    assert s.pending == s.pending[..n] + s.pending[n..];
  }

  /** Which timers are due: of the pending ones, exactly those at the front. */
  lemma DueFront(s: State, now: int)
    requires Inv(s) && InTime(s, now)
    ensures var n := DueCount(s.pending, now);
            forall i {:trigger s.pending[i]} :: 0 <= i < |s.pending| ==> (i < n <==> s.pending[i].deadline <= now)
  {
    hide Rel, Before, Sorted, DueCount;
    RelPending(s, now);
    SortedParts(s.due, s.pending);
    DueCountIs(s.pending, now);
  }

  lemma LaterTimes(s: State, now: int)
    requires Inv(s) && InTime(s, now)
    ensures var m := MoveDue(s, now);
            forall t {:trigger t in m.pending} :: t in m.pending ==>
              now < t.deadline < now + TWO27 && t.stamp < m.armed
  {
    hide Rel, Before, Sorted, DueCount;
    var n, m := DueCount(s.pending, now), MoveDue(s, now);
    DueFront(s, now);
    forall t {:trigger t in m.pending} | t in m.pending
      ensures now < t.deadline < now + TWO27 && t.stamp < m.armed
    {
      var i :| 0 <= i < |m.pending| && m.pending[i] == t;
      assert t == s.pending[n + i] && t in s.pending;
    }
  }

  lemma DueTimes(s: State, now: int)
    requires Inv(s) && InTime(s, now)
    ensures var m := MoveDue(s, now);
            forall t {:trigger t in m.due} :: t in m.due ==> t.deadline <= now && t.stamp < m.armed
  {
    hide Rel, Before, Sorted, DueCount;
    var n, m := DueCount(s.pending, now), MoveDue(s, now);
    DueFront(s, now);
    forall t {:trigger t in m.due} | t in m.due
      ensures t.deadline <= now && t.stamp < m.armed
    {
      var i :| 0 <= i < |m.due| && m.due[i] == t;
      if i < |s.due| {
        assert t == s.due[i] && t in s.due;
      } else {
        assert t == s.pending[i - |s.due|] && t in s.pending;
      }
    }
  }

  /** Splitting the pending timers into due and later ones at the time of a call. */
  lemma MoveDueSplits(s: State, now: int)
    requires Inv(s) && InTime(s, now)
    ensures var m := MoveDue(s, now);
            && Inv(m) && m.due + m.pending == s.due + s.pending
            && (forall t {:trigger t in m.pending} :: t in m.pending ==> now < t.deadline)
  {
    hide Rel, Before, Sorted, DueCount;
    MoveDueJoined(s, now);
    LaterTimes(s, now);
    DueTimes(s, now);
  }

  lemma SortedParts(a: seq<Timer>, b: seq<Timer>)
    requires Sorted(a + b)
    ensures Sorted(a) && Sorted(b)
    ensures forall i, j {:trigger a[i], b[j]} :: 0 <= i < |a| && 0 <= j < |b| ==> Before(a[i], b[j])
  {
    var c := a + b;
    forall i, j | 0 <= i < j < |a|
      ensures Before(a[i], a[j])
    {
      assert c[i] == a[i] && c[j] == a[j];
    }
    forall i, j | 0 <= i < j < |b|
      ensures Before(b[i], b[j])
    {
      assert c[|a| + i] == b[i] && c[|a| + j] == b[j];
    }
    forall i, j | 0 <= i < |a| && 0 <= j < |b|
      ensures Before(a[i], b[j])
    {
      assert c[i] == a[i] && c[|a| + j] == b[j];
    }
  }

  lemma SortedJoin(a: seq<Timer>, b: seq<Timer>)
    requires Sorted(a) && Sorted(b)
    requires forall i, j {:trigger a[i], b[j]} :: 0 <= i < |a| && 0 <= j < |b| ==> Before(a[i], b[j])
    ensures Sorted(a + b)
  {
  }

  /** A new timer goes behind all that are not later; a whole sorted sequence `front + pending` stays sorted. */
  lemma InsertSorted(front: seq<Timer>, pending: seq<Timer>, n: nat, t: Timer)
    requires Sorted(front + pending) && n <= |pending|
    requires forall u {:trigger u in pending} :: u in pending ==> u.stamp < t.stamp
    requires forall i {:trigger pending[i]} :: 0 <= i < |pending| ==> (i < n <==> pending[i].deadline <= t.deadline)
    requires forall u {:trigger u in front} :: u in front ==> u.deadline <= t.deadline && u.stamp < t.stamp
    ensures Sorted(front + Insert(pending, n, t))
  {
    var a, b := front + pending[..n], pending[n..];
    assert front + pending == a + b;
    SortedParts(a, b);
    forall i | 0 <= i < |a|
      ensures Before(a[i], t)
    {
      if i < |front| {
        assert a[i] in front;
      } else {
        assert a[i] == pending[i - |front|] && a[i] in pending;
      }
    }
    forall j | 0 <= j < |b|
      ensures Before(t, b[j])
    {
      assert b[j] == pending[n + j];
    }
    SortedJoin(a, [t]);
    SortedJoin(a + [t], b);
    assert front + Insert(pending, n, t) == a + [t] + b;
  }

  lemma WithoutSorted(front: seq<Timer>, ts: seq<Timer>, n: nat, back: seq<Timer>)
    requires Sorted(front + ts + back) && n < |ts|
    ensures Sorted(front + Without(ts, n) + back)
  {
    var a, b := front + ts[..n], ts[n + 1..] + back;
    assert front + ts + back == a + ([ts[n]] + b);
    SortedParts(a, [ts[n]] + b);
    SortedParts([ts[n]], b);
    forall i, j | 0 <= i < |a| && 0 <= j < |b|
      ensures Before(a[i], b[j])
    {
      assert b[j] == ([ts[n]] + b)[j + 1];
    }
    SortedJoin(a, b);
    assert front + Without(ts, n) + back == a + b;
  }

  lemma WithoutMember(ts: seq<Timer>, n: nat)
    requires n < |ts|
    ensures forall t :: t in Without(ts, n) ==> t in ts
  {
  }

  lemma InsertMember(ts: seq<Timer>, n: nat, t: Timer)
    requires n <= |ts|
    ensures forall u :: u in Insert(ts, n, t) ==> u == t || u in ts
  {
  }

  lemma ArmKeeps(s: State, id: int, kind: int, us: u32, now: int)
    requires Inv(s) && InTime(s, now) && us < TWO27
    ensures Inv(Arm(s, id, kind, us, now).value)
  {
    hide Before, Sorted, Rel, InsertAt, DueCount;
    MoveDueSplits(s, now);
    var m := MoveDue(s, now);
    var t := Timer(id, kind, now + us, s.armed);
    ArmPlace(s, now, us);
    InsertMember(m.pending, InsertAt(m.pending, now, us), t);
    InsertSorted(m.due, m.pending, InsertAt(m.pending, now, us), t);
  }

  /** A new timer is put behind exactly those whose deadline is not later. */
  lemma ArmPlace(s: State, now: int, us: u32)
    requires Inv(s) && InTime(s, now) && us < TWO27
    ensures var m := MoveDue(s, now);
            && forall i {:trigger m.pending[i]} :: 0 <= i < |m.pending| ==>
                 (i < InsertAt(m.pending, now, us) <==> m.pending[i].deadline <= now + us)
  {
    hide Before, Sorted, Rel, InsertAt, DueCount;
    MoveDueSplits(s, now);
    var m := MoveDue(s, now);
    RelPending(m, now);
    SortedParts(m.due, m.pending);
    InsertAtIs(m.pending, now, us);
  }

  lemma DisarmKeeps(s: State, id: int)
    requires Inv(s) && Armed(s, id)
    ensures Inv(Disarm(s, id).0)
  {
    hide Before, Sorted;
    var n, m := IndexOf(s.pending, id), IndexOf(s.due, id);
    if n < |s.pending| {
      WithoutMember(s.pending, n);
      assert s.due + s.pending + [] == s.due + s.pending;
      assert s.due + Without(s.pending, n) + [] == s.due + Without(s.pending, n);
      WithoutSorted(s.due, s.pending, n, []);
    } else {
      WithoutMember(s.due, m);
      assert [] + s.due + s.pending == s.due + s.pending;
      assert [] + Without(s.due, m) + s.pending == Without(s.due, m) + s.pending;
      WithoutSorted([], s.due, m, s.pending);
    }
  }

  lemma PopKeeps(s: State)
    requires Inv(s) && s.due != []
    ensures Inv(s.(due := s.due[1..]))
  {
    hide Before, Sorted;
    var u := s.(due := s.due[1..]);
    assert s.due + s.pending == [s.due[0]] + (u.due + u.pending);
    SortedParts([s.due[0]], u.due + u.pending);
    assert forall t {:trigger t in u.due} :: t in u.due ==> t in s.due;
  }

  ghost predicate DueBy(s: State, now: int) {
    exists t :: t in s.due + s.pending && t.deadline <= now
  }

  /** `Next` says to sleep exactly until the earliest deadline, and not at all if and only if one has passed. */
  lemma NextIsEarliest(s: State, now: int)
    requires Inv(s) && InTime(s, now)
    ensures Next(s, now) == None <==> s.due == [] && s.pending == []
    ensures Next(s, now).Some? ==>
              var us := Next(s, now).value;
              && us >= 0 && (us == 0 <==> DueBy(s, now))
              && (us > 0 ==>
                    && (exists t :: t in s.pending && t.deadline == now + us)
                    && forall t :: t in s.due + s.pending ==> now + us <= t.deadline)
  {
    RelPending(s, now);
    SortedParts(s.due, s.pending);
    if s.due != [] {
      assert s.due[0] in s.due && s.due[0] in s.due + s.pending;
    } else if s.pending != [] {
      assert s.pending[0] in s.pending && s.pending[0] in s.due + s.pending;
      forall t | t in s.due + s.pending
        ensures s.pending[0].deadline <= t.deadline
      {
        var i :| 0 <= i < |s.pending| && s.pending[i] == t;
      }
    }
  }
}
