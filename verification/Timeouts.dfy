/** The timeout manager: two doubly linked lists of timeouts. */
module Timeouts {
  import opened Word
  import opened TimeoutSpec

  const MAX_TIMEOUTS: int := 64

  class Timeout {
    /** Stands for the address of the timeout. */
    const id: int
    /** Type in the upper four bits, deadline in the lower 28. */
    var timeoutType: u32
    var next: Timeout?
    var prev: Timeout?

    constructor (id: int)
      ensures this.id == id
    {
      this.id := id;
      timeoutType := 0;
      next := null;
      prev := null;
    }
  }

  // ------------------------------------------------------------ linked lists

  /** `first` and `last` are the ends of the list `ns`. */
  ghost predicate Ends(first: Timeout?, last: Timeout?, ns: seq<Timeout>) {
    && first == (if ns == [] then null else ns[0])
    && last == (if ns == [] then null else ns[|ns| - 1])
  }

  /** The nodes `ns` are linked in both directions. */
  ghost predicate Chain(ns: seq<Timeout>)
    reads ns`next, ns`prev
  {
    && (forall i {:trigger ns[i].next} :: 0 <= i < |ns| ==> ns[i].next == if i + 1 < |ns| then ns[i + 1] else null)
    && (forall i {:trigger ns[i].prev} :: 0 <= i < |ns| ==> ns[i].prev == if i > 0 then ns[i - 1] else null)
  }

  /** Different nodes, with different addresses. */
  ghost predicate Distinct(ns: seq<Timeout>) {
    forall i, j {:trigger ns[i], ns[j]} :: 0 <= i < j < |ns| ==> ns[i] != ns[j] && ns[i].id != ns[j].id
  }

  function Relative(curTs: u28, to: Timeout): int
    reads to
  {
    RelTime(curTs, to.timeoutType % TWO28)
  }

  function Encode(t: Timer): u32 { t.kind % 16 * TWO28 + W28(t.deadline) }

  /** Node by node, the timers stored in a list. */
  ghost predicate Stored(ns: seq<Timeout>, ts: seq<Timer>)
    reads ns`timeoutType
  {
    && |ns| == |ts|
    && forall i {:trigger ns[i]} {:trigger ts[i]} :: 0 <= i < |ns| ==>
         ns[i].id == ts[i].id && ns[i].timeoutType == Encode(ts[i])
  }

  ghost function With(ns: seq<Timeout>, n: nat, to: Timeout): seq<Timeout>
    requires n <= |ns|
  {
    ns[..n] + [to] + ns[n..]
  }

  ghost function Less(ns: seq<Timeout>, n: nat): seq<Timeout>
    requires n < |ns|
  {
    ns[..n] + ns[n + 1..]
  }

  /** Link `to` in behind the first `n` nodes. */
  method LinkIn(tp: Timeout?, to: Timeout, tn: Timeout?, ghost ns: seq<Timeout>, ghost n: nat)
    requires Chain(ns) && Distinct(ns) && n <= |ns| && forall o :: o in ns ==> o != to
    requires tp == (if n == 0 then null else ns[n - 1]) && tn == if n == |ns| then null else ns[n]
    modifies to`next, to`prev, ns`next, ns`prev
    ensures Chain(With(ns, n, to))
  {
    forall i {:trigger ns[i]} | 0 <= i < |ns|
      ensures ns[i] != to
    {
      assert ns[i] in ns;
    }
    to.next := tn;
    to.prev := tp;
    if tp != null {
      tp.next := to;
    }
    if tn != null {
      tn.prev := to;
    }
    ghost var r := With(ns, n, to);
    forall i {:trigger r[i].next} | 0 <= i < |r|
      ensures r[i].next == if i + 1 < |r| then r[i + 1] else null
    {
      if i < n - 1 {
        assert r[i] == ns[i] && ns[i].next == old(ns[i].next);
      } else if i > n {
        assert r[i] == ns[i - 1] && ns[i - 1].next == old(ns[i - 1].next);
      }
    }
    forall i {:trigger r[i].prev} | 0 <= i < |r|
      ensures r[i].prev == if i > 0 then r[i - 1] else null
    {
      if i < n {
        assert r[i] == ns[i] && ns[i].prev == old(ns[i].prev);
      } else if i > n + 1 {
        assert r[i] == ns[i - 1] && ns[i - 1].prev == old(ns[i - 1].prev);
      }
    }
  }

  /** Unlink node `n`, between `prev` and `next`. */
  method LinkOut(prev: Timeout?, next: Timeout?, ghost ns: seq<Timeout>, ghost n: nat)
    requires Chain(ns) && Distinct(ns) && n < |ns| && prev == ns[n].prev && next == ns[n].next
    modifies ns`next, ns`prev
    ensures Chain(Less(ns, n))
  {
    if prev != null {
      prev.next := next;
    }
    if next != null {
      next.prev := prev;
    }
    ghost var r := Less(ns, n);
    forall i {:trigger r[i].next} | 0 <= i < |r|
      ensures r[i].next == if i + 1 < |r| then r[i + 1] else null
    {
      if i < n - 1 {
        assert r[i] == ns[i] && ns[i].next == old(ns[i].next);
      } else if i >= n {
        assert r[i] == ns[i + 1] && ns[i + 1].next == old(ns[i + 1].next);
      }
    }
    forall i {:trigger r[i].prev} | 0 <= i < |r|
      ensures r[i].prev == if i > 0 then r[i - 1] else null
    {
      if i < n {
        assert r[i] == ns[i] && ns[i].prev == old(ns[i].prev);
      } else if i > n {
        assert r[i] == ns[i + 1] && ns[i + 1].prev == old(ns[i + 1].prev);
      }
    }
  }

  /** A linked list of timeouts that stores the timers `ts`. */
  ghost predicate List(first: Timeout?, last: Timeout?, ns: seq<Timeout>, ts: seq<Timer>)
    reads ns`next, ns`prev, ns`timeoutType
  {
    Ends(first, last, ns) && Chain(ns) && Stored(ns, ts) && Distinct(ns)
  }

  /** Link `to` in behind `tp`, that is behind the first `n` nodes. */
  method InsertAfter(first: Timeout?, last: Timeout?, tp: Timeout?, to: Timeout,
                     ghost ns: seq<Timeout>, ghost ts: seq<Timer>, ghost n: nat, ghost t: Timer)
    returns (newFirst: Timeout?, newLast: Timeout?)
    requires List(first, last, ns, ts) && n <= |ns| == |ts| && tp == if n == 0 then null else ns[n - 1]
    requires forall o :: o in ns ==> o != to && o.id != to.id
    requires to.id == t.id && to.timeoutType == Encode(t)
    modifies to`next, to`prev, ns`next, ns`prev
    ensures List(newFirst, newLast, With(ns, n, to), Insert(ts, n, t))
  {
    hide Encode, Distinct;
    WithDistinct(ns, n, to);
    var tn := first;
    if tp != null {
      assert ns[n - 1].next == if n < |ns| then ns[n] else null;
      tn := tp.next;
    }
    LinkIn(tp, to, tn, ns, n);
    newFirst := if tp == null then to else first;
    newLast := if tn == null then to else last;
  }

  /** Unlink node `n`. */
  method Unlink(first: Timeout?, last: Timeout?, to: Timeout,
                ghost ns: seq<Timeout>, ghost ts: seq<Timer>, ghost n: nat)
    returns (newFirst: Timeout?, newLast: Timeout?)
    requires List(first, last, ns, ts) && n < |ns| == |ts| && to == ns[n]
    modifies ns`next, ns`prev
    ensures List(newFirst, newLast, Less(ns, n), Without(ts, n))
  {
    hide Encode, Distinct, Ends, Chain, Stored, Less, Without;
    EndsLess(first, last, ns, n);
    ChainAt(ns, n);
    var prev, next := to.prev, to.next;
    LinkOut(prev, next, ns, n);
    LessStored(ns, ts, n);
    newFirst := if prev == null then next else first;
    newLast := if next == null then prev else last;
    MakeList(newFirst, newLast, Less(ns, n), Without(ts, n));
  }

  lemma ChainAt(ns: seq<Timeout>, n: nat)
    requires Chain(ns) && n < |ns|
    ensures ns[n].next == if n + 1 < |ns| then ns[n + 1] else null
    ensures ns[n].prev == if n > 0 then ns[n - 1] else null
  {
  }

  // ------------------------------------------------------------ the manager

  class TimeoutManager {
    var timeoutsFirst: Timeout?
    var timeoutsLast: Timeout?
    var dueFirst: Timeout?
    var dueLast: Timeout?
    ghost var pending: seq<Timeout>
    ghost var due: seq<Timeout>
    ghost var st: State

    /** All armed timeouts. */
    ghost function Nodes(): set<Timeout>
      reads this
    {
      set n | n in due + pending
    }

    ghost predicate Valid()
      reads this, pending, due
    {
      && List(timeoutsFirst, timeoutsLast, pending, st.pending)
      && List(dueFirst, dueLast, due, st.due)
      && Distinct(due + pending)
    }

    constructor (ghost now: int)
      ensures Valid() && st == State([], [], 0, now) && Nodes() == {}
    {
      timeoutsFirst, timeoutsLast, dueFirst, dueLast := null, null, null, null;
      pending, due := [], [];
      st := State([], [], 0, now);
      new;
      NothingLinked();
    }

    /** Move all due timeouts to the due list. */
    method MoveDueTimeouts(curTs: u28, ghost now: int)
      requires Valid() && curTs == W28(now)
      modifies this, Nodes()
      ensures Valid() && st == MoveDue(old(st), now) && Nodes() == old(Nodes())
    {
      hide RelTime, Distinct, List, Valid, Nodes, Rel, Relative;
      ghost var k := 0;
      ghost var s0 := st;
      while timeoutsFirst != null && Relative(curTs, timeoutsFirst) <= 0
        invariant Valid() && Nodes() == old(Nodes())
        invariant 0 <= k <= |s0.pending| && st == s0.(pending := s0.pending[k..], due := s0.due + s0.pending[..k])
        invariant k + DueCount(s0.pending[k..], now) == DueCount(s0.pending, now)
        decreases |s0.pending| - k
      {
        FirstFacts(curTs, now);
        MovedNext(s0, k, now);
        MoveFirst();
        k := k + 1;
      }
      FirstFacts(curTs, now);
      SetClock(now);
    }

    ghost method SetClock(now: int)
      requires Valid()
      modifies `st
      ensures Valid() && Nodes() == old(Nodes()) && st == old(st).(now := now)
    {
      st := st.(now := now);
    }

    /** The pending timeout to look at first. */
    lemma FirstFacts(curTs: u28, now: int)
      requires Valid() && curTs == W28(now)
      ensures |pending| == |st.pending| && (timeoutsFirst == null <==> st.pending == [])
      ensures timeoutsFirst != null ==> Relative(curTs, timeoutsFirst) == Rel(now, st.pending[0])
    {
      hide RelTime, Distinct, List, Rel, Relative;
      ListFacts(timeoutsFirst, timeoutsLast, pending, st.pending);
      if timeoutsFirst != null {
        NodeTime(0, curTs, now);
      }
    }

    lemma NodeTime(i: nat, curTs: u28, now: int)
      requires Valid() && curTs == W28(now) && i < |pending|
      ensures |pending| == |st.pending| && Relative(curTs, pending[i]) == Rel(now, st.pending[i])
    {
      hide RelTime, Distinct, Chain, Encode;
      EncodeTime(st.pending[i]);
      assert pending[i].timeoutType == Encode(st.pending[i]);
    }

    /** Move the first pending timeout to the end of the due list. */
    method MoveFirst()
      requires Valid() && timeoutsFirst != null
      modifies this, Nodes()
      ensures Valid() && Nodes() == old(Nodes()) && |pending| == |old(pending)| - 1
      ensures |old(st).pending| > 0
      ensures st == old(st).(pending := old(st).pending[1..], due := old(st).due + [old(st).pending[0]])
    {
      hide Encode, Distinct, List, Less, With, Without, Insert;
      ghost var ps, ds, t := pending, due, st;
      ListFacts(timeoutsFirst, timeoutsLast, ps, t.pending);
      ListFacts(dueFirst, dueLast, ds, t.due);
      DistinctParts(ds, ps);
      MovedFacts(ds, ps, t);
      var to := timeoutsFirst;
      timeoutsFirst, timeoutsLast := Unlink(timeoutsFirst, timeoutsLast, to, ps, t.pending, 0);
      pending, st := ps[1..], st.(pending := t.pending[1..]);
      assert List(timeoutsFirst, timeoutsLast, pending, st.pending);
      AppendDue(to, t.pending[0]);
    }

    /** Link `to`, which stores `t`, in behind the due timeouts. */
    method AppendDue(to: Timeout, ghost t: Timer)
      requires List(timeoutsFirst, timeoutsLast, pending, st.pending) && List(dueFirst, dueLast, due, st.due)
      requires Distinct(due + [to] + pending) && to.id == t.id && to.timeoutType == Encode(t)
      requires forall o :: o in due ==> o != to && o.id != to.id && o !in pending
      requires to !in pending
      modifies `dueFirst, `dueLast, `due, `st, to`next, to`prev, due`next, due`prev
      ensures Valid() && due == old(due) + [to] && st == old(st).(due := old(st).due + [t])
    {
      hide Encode, Distinct, List, With, Insert;
      ghost var ds := due;
      ListFacts(dueFirst, dueLast, ds, st.due);
      AppendIs(ds, st.due, to, t);
      assert forall o :: o in pending ==> o != to && o !in ds;
      dueFirst, dueLast := InsertAfter(dueFirst, dueLast, dueLast, to, ds, st.due, |ds|, t);
      due, st := ds + [to], st.(due := st.due + [t]);
      assert List(dueFirst, dueLast, due, st.due);
    }

    /** Arm a timeout `us` microseconds from now; out of range, where the program aborts, nothing
        changes. */
    method ArmTs(to: Timeout, us: u32, kind: u32, curTs: u28, ghost now: int) returns (ok: bool)
      requires Valid() && curTs == W28(now) && kind < 0x100
      requires forall n :: n in Nodes() ==> n != to && n.id != to.id
      modifies this, to, Nodes()
      ensures Valid()
      ensures match Arm(old(st), to.id, kind, us, now)
              case None => !ok && st == old(st) && Nodes() == old(Nodes())
              case Some(s) => ok && st == s && Nodes() == old(Nodes()) + {to}
    {
      hide RelTime, Distinct, List, Encode, InsertAt, MoveDue, Insert;
      MoveDueArms(st, now);
      if us >= TWO27 {
        return false;
      }
      MoveDueTimeouts(curTs, now);
      ghost var t := Timer(to.id, kind, now + us, st.armed);
      var tp, n := FindPred(us, curTs, now);
      EncodeNew(t, us, curTs);
      SetType(to, W32(kind * TWO28) + (curTs + us) % TWO28);
      InsertPending(to, tp, n, t);
      ok := true;
    }

    method SetType(to: Timeout, timeoutType: u32)
      requires Valid() && to !in Nodes()
      modifies to`timeoutType
      ensures Valid() && to.timeoutType == timeoutType
    {
      hide Distinct, List;
      to.timeoutType := timeoutType;
    }

    /** The last pending timeout that is not later than `us` from now. */
    method FindPred(us: u32, curTs: u28, ghost now: int) returns (tp: Timeout?, ghost n: nat)
      requires Valid() && curTs == W28(now)
      ensures n == InsertAt(st.pending, now, us) && n <= |pending| == |st.pending|
      ensures tp == if n == 0 then null else pending[n - 1]
    {
      hide RelTime, Distinct, Encode;
      n := |pending|;
      tp := timeoutsLast;
      assert st.pending[..n] == st.pending;
      while tp != null && W32(Relative(curTs, tp)) > us
        invariant n <= |pending| == |st.pending| && tp == if n == 0 then null else pending[n - 1]
        invariant InsertAt(st.pending[..n], now, us) == InsertAt(st.pending, now, us)
        decreases n
      {
        NodeTime(n - 1, curTs, now);
        assert st.pending[..n][..n - 1] == st.pending[..n - 1];
        tp := tp.prev;
        n := n - 1;
      }
      if n > 0 {
        NodeTime(n - 1, curTs, now);
      }
    }

    method InsertPending(to: Timeout, tp: Timeout?, ghost n: nat, ghost t: Timer)
      requires Valid() && n <= |pending| == |st.pending| && tp == if n == 0 then null else pending[n - 1]
      requires forall o :: o in Nodes() ==> o != to && o.id != to.id
      requires to.id == t.id && to.timeoutType == Encode(t)
      modifies this, to, Nodes()
      ensures Valid() && Nodes() == old(Nodes()) + {to}
      ensures st == old(st).(pending := Insert(old(st).pending, n, t), armed := old(st).armed + 1)
    {
      hide Encode, Distinct, List, Insert;
      ghost var ns := pending;
      DistinctParts(due, ns);
      InsertDistinct(due, ns, n, to);
      timeoutsFirst, timeoutsLast := InsertAfter(timeoutsFirst, timeoutsLast, tp, to, ns, st.pending, n, t);
      pending := With(ns, n, to);
      st := st.(pending := Insert(st.pending, n, t), armed := st.armed + 1);
    }

    /** Disarm a timeout that is armed. */
    method Disarm(to: Timeout)
      requires Valid() && to in Nodes()
      modifies this, Nodes()
      ensures Valid() && Armed(old(st), to.id) && st == TimeoutSpec.Disarm(old(st), to.id).0
      ensures Nodes() == old(Nodes()) - {to}
    {
      hide Encode, Distinct, Chain, Stored, Ends, List, Less, Without, IndexOf, Armed, TimeoutSpec.Disarm;
      ghost var inPending, k := Find(to);
      Neighbours(to, inPending, k);
      FixLinks(to, inPending, k);
      Forget(to, inPending, k);
    }

    /** Timeout `to`, which is no longer linked, leaves its list. */
    ghost method Forget(to: Timeout, inPending: bool, k: nat)
      requires if inPending then k < |pending| && pending[k] == to else k < |due| && due[k] == to
      requires |pending| == |st.pending| && |due| == |st.due|
      requires Stored(pending, st.pending) && Stored(due, st.due) && Distinct(due + pending)
      requires Distinct(pending) && Distinct(due)
      requires Ends(timeoutsFirst, timeoutsLast, if inPending then Less(pending, k) else pending)
      requires Ends(dueFirst, dueLast, if inPending then due else Less(due, k))
      requires Chain(if inPending then Less(pending, k) else pending)
      requires Chain(if inPending then due else Less(due, k))
      modifies `pending, `due, `st
      ensures Valid() && Nodes() == old(Nodes()) - {to}
      ensures st == if inPending then old(st).(pending := Without(old(st).pending, k))
                    else old(st).(due := Without(old(st).due, k))
    {
      hide Encode, Distinct, Chain, Stored, Ends, List, Less, Without;
      ghost var ps, ds, t := pending, due, st;
      if inPending {
        LessStored(ps, t.pending, k);
        pending, st := Less(ps, k), st.(pending := Without(t.pending, k));
      } else {
        LessStored(ds, t.due, k);
        due, st := Less(ds, k), st.(due := Without(t.due, k));
      }
      MakeList(timeoutsFirst, timeoutsLast, pending, st.pending);
      MakeList(dueFirst, dueLast, due, st.due);
      Rejoin(ps, ds, pending, due, inPending, k, to);
    }

    /** Take a timeout out of the list it is in. The code tells from the ends which one that is. */
    method FixLinks(to: Timeout, ghost inPending: bool, ghost k: nat)
      requires if inPending then k < |pending| && pending[k] == to else k < |due| && due[k] == to
      requires var ns := if inPending then pending else due;
               && to.prev == (if k > 0 then ns[k - 1] else null)
               && to.next == (if k + 1 < |ns| then ns[k + 1] else null)
      requires timeoutsFirst == to <==> inPending && k == 0
      requires timeoutsLast == to <==> inPending && k + 1 == |pending|
      requires Ends(timeoutsFirst, timeoutsLast, pending) && Ends(dueFirst, dueLast, due)
      requires Chain(pending) && Chain(due) && Distinct(pending) && Distinct(due)
      requires forall o :: !(o in due && o in pending)
      modifies `timeoutsFirst, `timeoutsLast, `dueFirst, `dueLast, Nodes()`next, Nodes()`prev
      ensures Ends(timeoutsFirst, timeoutsLast, if inPending then Less(pending, k) else pending)
      ensures Ends(dueFirst, dueLast, if inPending then due else Less(due, k))
      ensures Chain(if inPending then Less(pending, k) else pending)
      ensures Chain(if inPending then due else Less(due, k))
    {
      hide Distinct, Chain, Ends, Less;
      ghost var ns := if inPending then pending else due;
      EndsLess(if inPending then timeoutsFirst else dueFirst, if inPending then timeoutsLast else dueLast, ns, k);
      ghost var ps, ds := pending, due;
      assert forall o :: o in ns <==> if inPending then o in ps else o in ds;
      var prev, next := to.prev, to.next;
      LinkOut(prev, next, ns, k);
      assert inPending ==> forall o :: o in ds ==> o !in ns && o.next == old(o.next) && o.prev == old(o.prev);
      assert !inPending ==> forall o :: o in ps ==> o !in ns && o.next == old(o.next) && o.prev == old(o.prev);
      if prev == null {
        if timeoutsFirst == to {
          timeoutsFirst := next;
        } else {
          dueFirst := next;
        }
      }
      if next == null {
        if timeoutsLast == to {
          timeoutsLast := prev;
        } else {
          dueLast := prev;
        }
      }
    }

    /** Fire the due timeouts, at most MAX_TIMEOUTS of them. Their handlers run in the order of `fired`. */
    method PollTs(curTs: u28, ghost now: int) returns (fired: seq<Timeout>)
      requires Valid() && curTs == W28(now)
      modifies this, Nodes()
      ensures Valid() && Nodes() + Of(fired) == old(Nodes())
      ensures |fired| == Min(MAX_TIMEOUTS, |MoveDue(old(st), now).due|)
      ensures st == MoveDue(old(st), now).(due := MoveDue(old(st), now).due[|fired|..])
      ensures forall i :: 0 <= i < |fired| ==> fired[i].id == MoveDue(old(st), now).due[i].id
    {
      hide RelTime, Distinct, List, Encode, MoveDue, Valid, Nodes, Of;
      MoveDueTimeouts(curTs, now);
      ghost var m, ds := st, due;
      fired := [];
      var num := 0;
      DueFacts();
      NoneFired();
      while dueFirst != null && num < MAX_TIMEOUTS
        invariant Valid() && num == |fired| <= MAX_TIMEOUTS && |fired| <= |ds|
        invariant due == ds[num..] && fired == ds[..num] && st == m.(due := m.due[num..]) && |ds| == |m.due|
        invariant dueFirst == if due == [] then null else due[0]
        invariant Nodes() + Of(fired) == old(Nodes())
        decreases |due|
      {
        var to := dueFirst;
        PopDue();
        OneFired(fired, to);
        fired := fired + [to];
        num := num + 1;
        DueFacts();
      }
    }

    lemma DueFacts()
      requires Valid()
      ensures dueFirst == null <==> due == []
      ensures |due| == |st.due| && (due != [] ==> dueFirst == due[0])
      ensures forall i {:trigger due[i]} :: 0 <= i < |due| ==> due[i].id == st.due[i].id
    {
      hide Encode, Distinct, Chain;
    }

    method PopDue()
      requires Valid() && due != []
      modifies this, Nodes()
      ensures Valid() && due == old(due)[1..] && pending == old(pending) && |old(st).due| > 0
      ensures Nodes() + {old(due)[0]} == old(Nodes())
      ensures st == old(st).(due := old(st).due[1..])
    {
      hide Encode, Distinct, List, Nodes, Of;
      DueFacts();
      NodesOf();
      ghost var ps, ds, t := pending, due, st;
      DistinctParts(ds, ps);
      Rejoin(ps, ds, ps, Less(ds, 0), false, 0, ds[0]);
      dueFirst, dueLast := Unlink(dueFirst, dueLast, dueFirst, ds, t.due, 0);
      assert Less(ds, 0) == ds[1..] && Without(t.due, 0) == t.due[1..];
      due, st := ds[1..], st.(due := t.due[1..]);
      OfTail(ds, ps);
      NodesOf();
    }

    lemma NodesOf()
      ensures Nodes() == Of(due) + Of(pending)
      ensures forall o :: o in due ==> o in Nodes()
    {
    }

    /** Microseconds until a timeout needs attention; none where the program returns the largest 32-bit word. */
    method NextTs(curTs: u28, ghost now: int) returns (us: Option<int>)
      requires Valid() && curTs == W28(now)
      ensures us == Next(st, now)
    {
      hide RelTime, Distinct, Encode, Chain;
      if dueFirst != null {
        return Some(0);
      }
      if timeoutsFirst == null {
        return None;
      }
      NodeTime(0, curTs, now);
      var next := Relative(curTs, timeoutsFirst);
      us := Some(if next < 0 then 0 else next);
    }

    /** Where a timeout is. */
    lemma Find(to: Timeout) returns (inPending: bool, k: nat)
      requires Valid() && to in Nodes()
      ensures Armed(st, to.id) && |pending| == |st.pending| && |due| == |st.due|
      ensures if inPending then k < |pending| && pending[k] == to else k < |due| && due[k] == to
      ensures TimeoutSpec.Disarm(st, to.id).0
           == if inPending then st.(pending := Without(st.pending, k)) else st.(due := Without(st.due, k))
    {
      hide Encode, Without;
      DistinctParts(due, pending);
      inPending := to in pending;
      if inPending {
        k :| 0 <= k < |pending| && pending[k] == to;
        assert st.pending[k].id == to.id;
        var n := IndexOf(st.pending, to.id);
        assert n < |pending| && pending[n].id == st.pending[n].id;
      } else {
        k :| 0 <= k < |due| && due[k] == to;
        assert st.due[k].id == to.id;
        var n, m := IndexOf(st.pending, to.id), IndexOf(st.due, to.id);
        assert m < |due| && due[m].id == st.due[m].id;
        forall i | 0 <= i < |st.pending|
          ensures st.pending[i].id != to.id
        {
          assert pending[i].id == st.pending[i].id && pending[i].id != due[k].id;
        }
      }
    }

    /** The ends of the lists tell whether a timeout without a neighbour is the first or last of one. */
    lemma Neighbours(to: Timeout, inPending: bool, k: nat)
      requires Valid()
      requires if inPending then k < |pending| && pending[k] == to else k < |due| && due[k] == to
      ensures var ns := if inPending then pending else due;
              && Chain(ns) && Distinct(ns) && Stored(ns, if inPending then st.pending else st.due)
              && to.prev == (if k > 0 then ns[k - 1] else null)
              && to.next == (if k + 1 < |ns| then ns[k + 1] else null)
      ensures timeoutsFirst == to <==> inPending && k == 0
      ensures timeoutsLast == to <==> inPending && k + 1 == |pending|
      ensures Ends(timeoutsFirst, timeoutsLast, pending) && Ends(dueFirst, dueLast, due)
      ensures Chain(pending) && Chain(due) && Stored(pending, st.pending) && Stored(due, st.due)
      ensures Distinct(pending) && Distinct(due) && |pending| == |st.pending| && |due| == |st.due|
      ensures forall o :: !(o in due && o in pending)
    {
      hide Encode;
      DistinctParts(due, pending);
      var ns := if inPending then pending else due;
      assert ns[k].next == if k + 1 < |ns| then ns[k + 1] else null;
      assert ns[k].prev == if k > 0 then ns[k - 1] else null;
    }
  }

  /** The nodes of a list. */
  ghost function Of(ns: seq<Timeout>): set<Timeout> { set n | n in ns }

  lemma NothingLinked()
    ensures List(null, null, [], []) && Distinct([] + [])
  {
  }

  lemma OfTail(ds: seq<Timeout>, ps: seq<Timeout>)
    requires ds != []
    ensures Of(ds[1..]) + Of(ps) + {ds[0]} == Of(ds) + Of(ps)
    ensures ds[0] in Of(ds)
  {
    assert ds == [ds[0]] + ds[1..];
  }

  lemma NoneFired()
    ensures Of([]) == {}
  {
  }

  lemma OneFired(ns: seq<Timeout>, to: Timeout)
    ensures Of(ns + [to]) == Of(ns) + {to}
  {
  }

  lemma MoveDueArms(s: State, now: int)
    ensures MoveDue(s, now).armed == s.armed
  {
  }

  /** Moving one more timer that is due. */
  lemma MovedNext(s: State, k: int, now: int)
    requires 0 <= k < |s.pending| && Rel(now, s.pending[k]) <= 0
    ensures s.pending[k..][1..] == s.pending[k + 1..] && s.pending[k..][0] == s.pending[k]
    ensures (s.due + s.pending[..k]) + [s.pending[k]] == s.due + s.pending[..k + 1]
    ensures DueCount(s.pending[k..], now) == 1 + DueCount(s.pending[k + 1..], now)
  {
    hide Rel;
    assert s.pending[k..][1..] == s.pending[k + 1..];
  }

  lemma ListFacts(first: Timeout?, last: Timeout?, ns: seq<Timeout>, ts: seq<Timer>)
    requires List(first, last, ns, ts)
    ensures |ns| == |ts| && Ends(first, last, ns)
    ensures forall i {:trigger ns[i]} {:trigger ts[i]} :: 0 <= i < |ns| ==>
              ns[i].id == ts[i].id && ns[i].timeoutType == Encode(ts[i])
  {
  }

  lemma AppendIs(ns: seq<Timeout>, ts: seq<Timer>, to: Timeout, t: Timer)
    ensures With(ns, |ns|, to) == ns + [to] && Insert(ts, |ts|, t) == ts + [t]
  {
  }

  lemma MovedFacts(ds: seq<Timeout>, ps: seq<Timeout>, t: State)
    requires ps != [] && t.pending != [] && Distinct(ds + ps)
    ensures Less(ps, 0) == ps[1..] && With(ds, |ds|, ps[0]) == ds + [ps[0]]
    ensures Distinct(ds + [ps[0]] + ps[1..])
    ensures ds + [ps[0]] + ps[1..] == ds + ps
    ensures Without(t.pending, 0) == t.pending[1..]
    ensures Insert(t.due, |t.due|, t.pending[0]) == t.due + [t.pending[0]]
    ensures ps[0] in ps && ps[0] !in ds && forall o :: o in ds ==> o != ps[0] && o.id != ps[0].id
    ensures forall o :: o in ps[1..] ==> o != ps[0] && o !in ds
  {
    assert ds + [ps[0]] + ps[1..] == ds + ps;
    DistinctParts(ds, ps);
    forall o | o in ps[1..]
      ensures o != ps[0] && o !in ds
    {
      assert o in ps;
      var i :| 1 <= i < |ps| && ps[i] == o;
    }
    forall o | o in ds
      ensures o != ps[0] && o.id != ps[0].id
    {
      var i :| 0 <= i < |ds| && ds[i] == o;
    }
  }

  // ------------------------------------------------------------ facts used above

  lemma EncodeTime(t: Timer)
    ensures Encode(t) % TWO28 == W28(t.deadline) && Encode(t) / TWO28 == t.kind % 16
  {
  }

  lemma EncodeNew(t: Timer, us: u32, curTs: u28)
    requires 0 <= t.kind < 0x100 && us < TWO27 && W28(t.deadline) == W28(curTs + us)
    ensures W32(t.kind * TWO28) + (curTs + us) % TWO28 == Encode(t) < TWO32
  {
    assert t.kind * TWO28 == t.kind / 16 * TWO32 + t.kind % 16 * TWO28;
  }

  lemma WithDistinct(ns: seq<Timeout>, n: nat, to: Timeout)
    requires Distinct(ns) && n <= |ns|
    requires forall o :: o in ns ==> o != to && o.id != to.id
    ensures Distinct(With(ns, n, to))
  {
    hide Distinct;
    assert [] + ns == ns && [] + With(ns, n, to) == With(ns, n, to);
    InsertDistinct([], ns, n, to);
  }

  lemma EndsLess(first: Timeout?, last: Timeout?, ns: seq<Timeout>, k: nat)
    requires Ends(first, last, ns) && k < |ns|
    ensures var prev := if k > 0 then ns[k - 1] else null;
            var next := if k + 1 < |ns| then ns[k + 1] else null;
            Ends(if prev == null then next else first, if next == null then prev else last, Less(ns, k))
  {
  }

  lemma MakeList(first: Timeout?, last: Timeout?, ns: seq<Timeout>, ts: seq<Timer>)
    requires Ends(first, last, ns) && Chain(ns) && Stored(ns, ts) && Distinct(ns)
    ensures List(first, last, ns, ts)
  {
  }

  lemma LessStored(ns: seq<Timeout>, ts: seq<Timer>, n: nat)
    requires Stored(ns, ts) && Distinct(ns) && n < |ns| == |ts|
    ensures Stored(Less(ns, n), Without(ts, n)) && Distinct(Less(ns, n))
    ensures var r := Less(ns, n);
            && (r == [] <==> |ns| == 1)
            && (r != [] ==> r[0] == (if n == 0 then ns[1] else ns[0]))
            && (r != [] ==> r[|r| - 1] == (if n + 1 == |ns| then ns[n - 1] else ns[|ns| - 1]))
  {
    hide Encode;
    var r := Less(ns, n);
    forall i {:trigger r[i]} | 0 <= i < |r|
      ensures r[i] == ns[if i < n then i else i + 1] && Without(ts, n)[i] == ts[if i < n then i else i + 1]
    {
    }
  }

  /** Both lists together, without one node. */
  lemma Rejoin(ps: seq<Timeout>, ds: seq<Timeout>, pending: seq<Timeout>, due: seq<Timeout>,
               inPending: bool, k: nat, to: Timeout)
    requires Distinct(ds + ps)
    requires if inPending then k < |ps| && ps[k] == to && pending == Less(ps, k) && due == ds
             else k < |ds| && ds[k] == to && due == Less(ds, k) && pending == ps
    ensures Distinct(due + pending)
    ensures forall o :: o in due + pending <==> o in ds + ps && o != to
  {
    hide Distinct;
    var all := ds + ps;
    var n := if inPending then |ds| + k else k;
    assert due + pending == Less(all, n);
    LessDistinct(all, n);
    LessMembers(all, n);
  }

  lemma LessMembers(ns: seq<Timeout>, n: nat)
    requires Distinct(ns) && n < |ns|
    ensures forall o :: o in Less(ns, n) <==> o in ns && o != ns[n]
  {
    var r := Less(ns, n);
    forall o | o in ns && o != ns[n]
      ensures o in r
    {
      var i :| 0 <= i < |ns| && ns[i] == o;
      assert r[if i < n then i else i - 1] == o;
    }
    forall o | o in r
      ensures o in ns && o != ns[n]
    {
      var i :| 0 <= i < |r| && r[i] == o;
      assert o == ns[if i < n then i else i + 1];
    }
  }

  lemma LessDistinct(ns: seq<Timeout>, n: nat)
    requires Distinct(ns) && n < |ns|
    ensures Distinct(Less(ns, n))
  {
  }

  lemma InsertDistinct(front: seq<Timeout>, ns: seq<Timeout>, n: nat, to: Timeout)
    requires Distinct(front + ns) && n <= |ns|
    requires forall o :: o in front || o in ns ==> o != to && o.id != to.id
    ensures Distinct(front + With(ns, n, to))
  {
    var all, was := front + With(ns, n, to), front + ns;
    var p := |front| + n;
    forall i {:trigger was[i]} | 0 <= i < |was|
      ensures was[i] != to && was[i].id != to.id
    {
      assert was[i] in was;
      assert was[i] in front || was[i] in ns;
    }
    forall i | 0 <= i < |all| && i != p
      ensures all[i] == was[if i < p then i else i - 1]
    {
    }
    assert all[p] == to;
  }

  lemma DistinctParts(a: seq<Timeout>, b: seq<Timeout>)
    requires Distinct(a + b)
    ensures Distinct(a) && Distinct(b)
    ensures forall i, j {:trigger a[i], b[j]} :: 0 <= i < |a| && 0 <= j < |b| ==> a[i] != b[j] && a[i].id != b[j].id
    ensures forall o :: !(o in a && o in b)
  {
    var c := a + b;
    forall i, j | 0 <= i < j < |a|
      ensures a[i] != a[j] && a[i].id != a[j].id
    {
      assert c[i] == a[i] && c[j] == a[j];
    }
    forall i, j | 0 <= i < j < |b|
      ensures b[i] != b[j] && b[i].id != b[j].id
    {
      assert c[|a| + i] == b[i] && c[|a| + j] == b[j];
    }
    forall i, j | 0 <= i < |a| && 0 <= j < |b|
      ensures a[i] != b[j] && a[i].id != b[j].id
    {
      assert c[i] == a[i] && c[|a| + j] == b[j];
    }
  }
}
