/** What the queue manager guarantees over any sequence of updates and polls. */
module QmanRuns {
  import opened Word
  import opened QmanSpec

  datatype Op =
    | SetOp(i: int, rate: u32, avail: u32, maxChunk: u16, tag: int, f: Flags)
    | PollOp(now: int, num: nat, unlimitedFirst: bool)

  ghost predicate OpOk(s: State, op: Op) {
    match op
    case SetOp(i, rate, avail, maxChunk, tag, f) =>
      0 <= i < |s.qs| && Paced(Updated(s.qs[i], rate, avail, maxChunk, tag, f))
    case PollOp(now, _, _) => s.rt <= now
  }

  function Do(s: State, op: Op): (r: (State, seq<Fired>))
    requires Inv(s) && OpOk(s, op)
    ensures Inv(r.0) && |r.0.qs| == |s.qs|
    ensures s.vt <= r.0.vt && r.0.vt - s.vt <= r.0.rt - s.rt
  {
    match op
    case SetOp(i, rate, avail, maxChunk, tag, f) => (Set(s, i, rate, avail, maxChunk, tag, f), [])
    case PollOp(now, num, unlimitedFirst) => Poll(s, now, num, unlimitedFirst)
  }

  ghost predicate Legal(s: State, ops: seq<Op>)
    requires Inv(s)
    decreases |ops|
  {
    ops != [] ==> OpOk(s, ops[0]) && Legal(Do(s, ops[0]).0, ops[1..])
  }

  /** The state after `ops`, and everything fired on the way. Virtual time never outruns real time. */
  function Exec(s: State, ops: seq<Op>): (r: (State, seq<Fired>))
    requires Inv(s) && Legal(s, ops)
    ensures Inv(r.0) && |r.0.qs| == |s.qs|
    ensures s.vt <= r.0.vt && r.0.vt - s.vt <= r.0.rt - s.rt
    decreases |ops|
  {
    if ops == [] then (s, [])
    else
      var (t, fs) := Do(s, ops[0]);
      var (r, gs) := Exec(t, ops[1..]);
      (r, fs + gs)
  }

  // ------------------------------------------------------------ order

  /** Fire times never decrease and lie between `lo` and `hi`. */
  ghost predicate Ordered(log: seq<Fired>, lo: int, hi: int) {
    && (forall k :: 0 <= k < |log| ==> lo <= log[k].at <= hi)
    && (forall a, b {:trigger log[a], log[b]} :: 0 <= a < b < |log| ==> log[a].at <= log[b].at)
  }

  lemma OrderedCons(f: Fired, log: seq<Fired>, lo: int, hi: int)
    requires Ordered(log, f.at, hi) && lo <= f.at <= hi
    ensures Ordered([f] + log, lo, hi)
  {
    var r := [f] + log;
    forall k | 0 <= k < |r|
      ensures k > 0 ==> r[k] == log[k - 1]
    {
    }
  }

  lemma OrderedAppend(a: seq<Fired>, b: seq<Fired>, lo: int, mid: int, hi: int)
    requires Ordered(a, lo, mid) && Ordered(b, mid, hi) && lo <= mid <= hi
    ensures Ordered(a + b, lo, hi)
  {
    var r := a + b;
    forall k | 0 <= k < |r|
      ensures r[k] == if k < |a| then a[k] else b[k - |a|]
    {
    }
  }

  lemma OrderedWiden(log: seq<Fired>, lo: int, hi: int, lo': int, hi': int)
    requires Ordered(log, lo, hi) && lo' <= lo && hi <= hi'
    ensures Ordered(log, lo', hi')
  {
  }

  lemma {:induction false} SkipLoopOrdered(s: State, maxVt: int, num: nat)
    requires Inv(s) && s.vt <= maxVt
    ensures Ordered(SkipLoop(s, maxVt, num).1, s.vt, SkipLoop(s, maxVt, num).0.vt)
    decreases num, |s.sorted|
  {
    hide RelTime, W32, Delta, KeysInRange, SortedByKey, Distinct, Paced, Fire, Activate;
    if !(num == 0 || s.sorted == [] || Key(s, s.sorted[0]) > maxVt) {
      PopInv(s);
      var i := s.sorted[0];
      var p := Pop(s);
      if s.qs[i].avail > 0 {
        FireInv(p, i);
        FireAt(p, i);
        var (t, f) := Fire(p, i);
        SkipLoopOrdered(t, maxVt, num - 1);
        OrderedCons(f, SkipLoop(t, maxVt, num - 1).1, s.vt, SkipLoop(s, maxVt, num).0.vt);
      } else {
        SkipLoopOrdered(p, maxVt, num);
        OrderedWiden(SkipLoop(p, maxVt, num).1, p.vt, SkipLoop(s, maxVt, num).0.vt, s.vt, SkipLoop(s, maxVt, num).0.vt);
      }
    }
  }

  lemma FireAt(s: State, i: int)
    requires 0 <= i < |s.qs| && Ids(|s.qs|, s.sorted)
    ensures var f := Fire(s, i).1;
            f == Fired(i, Min(s.qs[i].avail, s.qs[i].maxChunk), s.qs[i].tag, s.vt)
  {
  }

  lemma {:induction false} UnlimitedOrdered(s: State, num: nat)
    requires Inv(s)
    ensures Ordered(PollUnlimited(s, num).1, s.vt, s.vt)
    decreases num, |s.unlimited|
  {
    hide RelTime, W32, Delta, KeysInRange, SortedByKey, Distinct, Paced, Fire, Activate;
    if num != 0 && s.unlimited != [] {
      DropInv(s);
      var i := s.unlimited[0];
      var p := s.(unlimited := s.unlimited[1..]);
      if s.qs[i].avail > 0 {
        FireInv(p, i);
        FireAt(p, i);
        var (t, f) := Fire(p, i);
        UnlimitedOrdered(t, num - 1);
        OrderedCons(f, PollUnlimited(t, num - 1).1, s.vt, s.vt);
      } else {
        UnlimitedOrdered(p, num);
      }
    }
  }

  lemma DoOrdered(s: State, op: Op)
    requires Inv(s) && OpOk(s, op)
    ensures Ordered(Do(s, op).1, s.vt, Do(s, op).0.vt)
  {
    hide RelTime, W32, Delta, KeysInRange, SortedByKey, Distinct, Paced, SkipLoop, PollUnlimited, Ordered, Set;
    match op
    case SetOp(i, rate, avail, maxChunk, tag, f) =>
      NothingOrdered(s.vt, Do(s, op).0.vt);
    case PollOp(now, num, unlimitedFirst) =>
      var maxVt := s.vt + (now - s.rt);
      if unlimitedFirst {
        var (t, fs) := PollUnlimited(s, num);
        UnlimitedOrdered(s, num);
        SkipLoopOrdered(t, maxVt, num - |fs|);
        OrderedAppend(fs, SkipLoop(t, maxVt, num - |fs|).1, s.vt, s.vt, Do(s, op).0.vt);
      } else {
        var (t, fs) := PollSkip(s, now, num);
        SkipLoopOrdered(s, maxVt, num);
        UnlimitedOrdered(t, num - |fs|);
        OrderedAppend(fs, PollUnlimited(t, num - |fs|).1, s.vt, t.vt, t.vt);
      }
  }

  // ------------------------------------------------------------ service

  /** A loop with room left fired everything that was due, and virtual time reached its limit. */
  lemma {:induction false} SkipLoopServes(s: State, maxVt: int, num: nat)
    requires Inv(s) && s.vt <= maxVt
    ensures var (t, log) := SkipLoop(s, maxVt, num);
            |log| < num ==> t.vt == maxVt && forall j :: j in t.sorted ==> maxVt < Key(t, j)
    decreases num, |s.sorted|
  {
    hide RelTime, W32, Delta, KeysInRange, SortedByKey, Distinct, Paced, Fire, Activate;
    if num == 0 || s.sorted == [] || Key(s, s.sorted[0]) > maxVt {
      RestInv(s, maxVt);
      AllLater(s, maxVt);
    } else {
      PopInv(s);
      var i := s.sorted[0];
      var p := Pop(s);
      if s.qs[i].avail > 0 {
        FireInv(p, i);
        SkipLoopServes(Fire(p, i).0, maxVt, num - 1);
      } else {
        SkipLoopServes(p, maxVt, num);
      }
    }
  }

  lemma AllLater(s: State, maxVt: int)
    requires Inv(s)
    ensures s.sorted == [] || Key(s, s.sorted[0]) > maxVt ==> forall j :: j in s.sorted ==> maxVt < Key(s, j)
  {
    hide RelTime, W32, Delta;
    forall j | j in s.sorted
      ensures Key(s, s.sorted[0]) <= Key(s, j)
    {
      var a :| 0 <= a < |s.sorted| && s.sorted[a] == j;
      if a > 0 {
        assert Key(s, s.sorted[0]) <= Key(s, s.sorted[a]);
      }
    }
  }

  lemma {:induction false} UnlimitedServes(s: State, num: nat)
    requires Inv(s)
    ensures var (t, log) := PollUnlimited(s, num);
            |log| < num ==> t.unlimited == []
    decreases num, |s.unlimited|
  {
    hide RelTime, W32, Delta, KeysInRange, SortedByKey, Distinct, Paced, Fire, Activate;
    if num != 0 && s.unlimited != [] {
      DropInv(s);
      var i := s.unlimited[0];
      var p := s.(unlimited := s.unlimited[1..]);
      if s.qs[i].avail > 0 {
        FireInv(p, i);
        UnlimitedServes(Fire(p, i).0, num - 1);
      } else {
        UnlimitedServes(p, num);
      }
    }
  }

  ghost predicate HasFired(log: seq<Fired>, j: int) { exists k :: 0 <= k < |log| && log[k].idx == j }

  lemma HasFiredMore(f: Fired, log: seq<Fired>, j: int)
    ensures HasFired([f] + log, j) <==> f.idx == j || HasFired(log, j)
  {
    var more := [f] + log;
    if f.idx == j {
      assert more[0].idx == j;
    }
    if HasFired(log, j) {
      var k :| 0 <= k < |log| && log[k].idx == j;
      assert more[k + 1].idx == j;
    }
    if HasFired(more, j) {
      var k :| 0 <= k < |more| && more[k].idx == j;
      assert k > 0 ==> log[k - 1].idx == j;
    }
  }

  lemma HasFiredAfter(a: seq<Fired>, b: seq<Fired>, j: int)
    ensures HasFired(a + b, j) <==> HasFired(a, j) || HasFired(b, j)
  {
    var c := a + b;
    if HasFired(a, j) {
      var k :| 0 <= k < |a| && a[k].idx == j;
      assert c[k].idx == j;
    }
    if HasFired(b, j) {
      var k :| 0 <= k < |b| && b[k].idx == j;
      assert c[|a| + k].idx == j;
    }
  }

  /** Polling the unlimited queues lists no other rate-limited queue than those it fires. */
  lemma {:induction false} UnlimitedKeeps(s: State, num: nat)
    requires Inv(s)
    ensures var (t, log) := PollUnlimited(s, num);
            forall j :: j in t.sorted ==> HasFired(log, j) || (j in s.sorted && Key(t, j) == Key(s, j))
    decreases num, |s.unlimited|
  {
    hide RelTime, W32, Delta, KeysInRange, SortedByKey, Distinct, Paced, Fire, HasFired;
    if num != 0 && s.unlimited != [] {
      DropInv(s);
      var i := s.unlimited[0];
      var p := s.(unlimited := s.unlimited[1..]);
      if s.qs[i].avail > 0 {
        FireInv(p, i);
        FireAt(p, i);
        FireSorted(p, i);
        var (t, f) := Fire(p, i);
        UnlimitedKeeps(t, num - 1);
        var (u, log) := PollUnlimited(t, num - 1);
        forall j | j in u.sorted
          ensures HasFired([f] + log, j) || (j in s.sorted && Key(u, j) == Key(s, j))
        {
          HasFiredMore(f, log, j);
        }
      } else {
        UnlimitedKeeps(p, num);
      }
    }
  }

  lemma FireSorted(s: State, i: int)
    requires InvBut(s, i)
    ensures var t := Fire(s, i).0;
            forall j :: j in t.sorted ==> j == i || (j in s.sorted && Key(t, j) == Key(s, j))
  {
    hide RelTime, W32, Delta, KeysInRange, SortedByKey, Distinct, Paced;
    FireInv(s, i);
  }

  /** What a poll fires of the unlimited list if that comes last. */
  function UnlimitedPart(s: State, now: int, num: nat): seq<Fired>
    requires Inv(s) && s.rt <= now
  {
    PollUnlimited(PollSkip(s, now, num).0, num - |PollSkip(s, now, num).1|).1
  }

  /** A poll that returns fewer queues than there is room for leaves nothing overdue: virtual time has caught
      up with real time, no unlimited queue is left if they came last, and a rate-limited queue fires later,
      unless this poll fired it from the unlimited list. */
  lemma PollServes(s: State, ops: seq<Op>, now: int, num: nat, unlimitedFirst: bool)
    requires Inv(s) && Legal(s, ops) && Exec(s, ops).0.rt <= now
    ensures var u := Exec(s, ops).0;
            var (t, log) := Poll(u, now, num, unlimitedFirst);
            |log| < num ==>
              && t.vt - u.vt == now - u.rt
              && (!unlimitedFirst ==> t.unlimited == [])
              && (!unlimitedFirst ==> log == PollSkip(u, now, num).1 + UnlimitedPart(u, now, num))
              && forall j :: j in t.sorted ==>
                   t.vt < Key(t, j) || (!unlimitedFirst && HasFired(UnlimitedPart(u, now, num), j))
  {
    hide RelTime, W32, Delta, SkipLoop, PollUnlimited, Legal, Exec, HasFired;
    var u := Exec(s, ops).0;
    var maxVt := u.vt + (now - u.rt);
    if unlimitedFirst {
      var (t, fs) := PollUnlimited(u, num);
      SkipLoopServes(t, maxVt, num - |fs|);
    } else {
      var (t, fs) := PollSkip(u, now, num);
      SkipLoopServes(u, maxVt, num);
      UnlimitedServes(t, num - |fs|);
      UnlimitedKeeps(t, num - |fs|);
    }
  }

  lemma NothingOrdered(lo: int, hi: int)
    ensures Ordered([], lo, hi)
  {
  }

  /** Over any sequence of updates and polls, everything fires in nondecreasing virtual time. */
  lemma {:induction false} FiresInOrder(s: State, ops: seq<Op>)
    requires Inv(s) && Legal(s, ops)
    ensures Ordered(Exec(s, ops).1, s.vt, Exec(s, ops).0.vt)
    decreases |ops|
  {
    hide RelTime, W32, Delta, Inv, Do, Ordered;
    if ops == [] {
      NothingOrdered(s.vt, s.vt);
    } else {
      var (t, fs) := Do(s, ops[0]);
      DoOrdered(s, ops[0]);
      FiresInOrder(t, ops[1..]);
      OrderedAppend(fs, Exec(t, ops[1..]).1, s.vt, t.vt, Exec(s, ops).0.vt);
    }
  }

  // ------------------------------------------------------------ credit

  /** Bytes fired by queue `i`. */
  function Bytes(log: seq<Fired>, i: int): int {
    if log == [] then 0 else (if log[0].idx == i then log[0].bytes else 0) + Bytes(log[1..], i)
  }

  lemma {:induction false} BytesAppend(a: seq<Fired>, b: seq<Fired>, i: int)
    ensures Bytes(a + b, i) == Bytes(a, i) + Bytes(b, i)
  {
    if a == [] {
      assert a + b == b;
    } else {
      BytesAppend(a[1..], b, i);
      assert (a + b)[1..] == a[1..] + b;
    }
  }

  lemma BytesCons(f: Fired, log: seq<Fired>, i: int)
    ensures Bytes([f] + log, i) == (if f.idx == i then f.bytes else 0) + Bytes(log, i)
  {
    assert ([f] + log)[1..] == log;
  }

  /** Nothing but credit and times change by firing. */
  ghost predicate SameQueues(a: seq<Attr>, b: seq<Attr>) {
    && |a| == |b|
    && forall i {:trigger b[i]} :: 0 <= i < |a| ==> b[i] == a[i].(avail := b[i].avail, nextTs := b[i].nextTs)
  }

  lemma FireCredit(s: State, i: int, j: int)
    requires InvBut(s, i) && 0 <= j < |s.qs|
    ensures var (t, f) := Fire(s, i);
            && SameQueues(s.qs, t.qs)
            && t.qs[j].avail + (if j == i then f.bytes else 0) == s.qs[j].avail
  {
    hide RelTime, W32, Delta, Activate, KeysInRange, SortedByKey, Distinct, Paced;
    FireInv(s, i);
    FireAt(s, i);
    var (t, f) := Fire(s, i);
    forall k | 0 <= k < |s.qs|
      ensures t.qs[k] == s.qs[k].(avail := t.qs[k].avail, nextTs := t.qs[k].nextTs)
    {
      if k == i {
        assert t.qs[i].avail == s.qs[i].avail - f.bytes;
      }
    }
  }

  lemma {:induction false} SkipLoopCredit(s: State, maxVt: int, num: nat, j: int)
    requires Inv(s) && s.vt <= maxVt && 0 <= j < |s.qs|
    ensures var (t, log) := SkipLoop(s, maxVt, num);
            SameQueues(s.qs, t.qs) && t.qs[j].avail + Bytes(log, j) == s.qs[j].avail
    decreases num, |s.sorted|
  {
    hide RelTime, W32, Delta, KeysInRange, SortedByKey, Distinct, Paced, Fire, Activate;
    if !(num == 0 || s.sorted == [] || Key(s, s.sorted[0]) > maxVt) {
      PopInv(s);
      var i := s.sorted[0];
      var p := Pop(s);
      if s.qs[i].avail > 0 {
        FireInv(p, i);
        FireAt(p, i);
        FireCredit(p, i, j);
        var (t, f) := Fire(p, i);
        SkipLoopCredit(t, maxVt, num - 1, j);
        BytesCons(f, SkipLoop(t, maxVt, num - 1).1, j);
      } else {
        SkipLoopCredit(p, maxVt, num, j);
      }
    }
  }

  lemma {:induction false} UnlimitedCredit(s: State, num: nat, j: int)
    requires Inv(s) && 0 <= j < |s.qs|
    ensures var (t, log) := PollUnlimited(s, num);
            SameQueues(s.qs, t.qs) && t.qs[j].avail + Bytes(log, j) == s.qs[j].avail
    decreases num, |s.unlimited|
  {
    hide RelTime, W32, Delta, KeysInRange, SortedByKey, Distinct, Paced, Fire, Activate;
    if num != 0 && s.unlimited != [] {
      DropInv(s);
      var i := s.unlimited[0];
      var p := s.(unlimited := s.unlimited[1..]);
      if s.qs[i].avail > 0 {
        FireInv(p, i);
        FireAt(p, i);
        FireCredit(p, i, j);
        var (t, f) := Fire(p, i);
        UnlimitedCredit(t, num - 1, j);
        BytesCons(f, PollUnlimited(t, num - 1).1, j);
      } else {
        UnlimitedCredit(p, num, j);
      }
    }
  }

  /** A poll moves credit into fires, byte for byte. */
  lemma PollCredit(s: State, now: int, num: nat, unlimitedFirst: bool, j: int)
    requires Inv(s) && s.rt <= now && 0 <= j < |s.qs|
    ensures var (t, log) := Poll(s, now, num, unlimitedFirst);
            SameQueues(s.qs, t.qs) && t.qs[j].avail + Bytes(log, j) == s.qs[j].avail
  {
    hide RelTime, W32, Delta, KeysInRange, SortedByKey, Distinct, Paced, SkipLoop, PollUnlimited;
    var maxVt := s.vt + (now - s.rt);
    if unlimitedFirst {
      var (t, fs) := PollUnlimited(s, num);
      UnlimitedCredit(s, num, j);
      SkipLoopCredit(t, maxVt, num - |fs|, j);
      BytesAppend(fs, SkipLoop(t, maxVt, num - |fs|).1, j);
    } else {
      var (t, fs) := PollSkip(s, now, num);
      SkipLoopCredit(s, maxVt, num, j);
      UnlimitedCredit(t, num - |fs|, j);
      BytesAppend(fs, PollUnlimited(t, num - |fs|).1, j);
    }
  }

  lemma SetAttrs(s: State, i: int, rate: u32, avail: u32, maxChunk: u16, tag: int, f: Flags, j: int)
    requires 0 <= i < |s.qs| && Inv(s) && Paced(Updated(s.qs[i], rate, avail, maxChunk, tag, f)) && 0 <= j < |s.qs|
    ensures var t := Set(s, i, rate, avail, maxChunk, tag, f);
            if j == i then
              t.qs[i] == Updated(s.qs[i], rate, avail, maxChunk, tag, f).(nextTs := t.qs[i].nextTs)
            else t.qs[j] == s.qs[j]
  {
    hide RelTime, W32, Delta, KeysInRange, SortedByKey, Distinct, Paced, Activate;
    var q := Updated(s.qs[i], rate, avail, maxChunk, tag, f);
    SetInv(s, i, q);
    if (f.setAvail || f.addAvail) && q.avail > 0 && !Listed(s, i) {
      ActivateInv(s.(qs := s.qs[i := q]), i);
    }
  }

  /** Credit added to queue `i` by `ops`, if all updates only add. */
  function Added(ops: seq<Op>, i: int): int {
    if ops == [] then 0
    else (if ops[0].SetOp? && ops[0].i == i && ops[0].f.addAvail then ops[0].avail else 0) + Added(ops[1..], i)
  }

  /** Updates of queue `i` only add credit, and no addition wraps around 2^32. */
  ghost predicate AddOnly(s: State, ops: seq<Op>, i: int)
    requires Inv(s) && Legal(s, ops) && 0 <= i < |s.qs|
    decreases |ops|
  {
    ops != [] ==>
      && (ops[0].SetOp? && ops[0].i == i ==>
            !ops[0].f.setAvail && (ops[0].f.addAvail ==> s.qs[i].avail + ops[0].avail < TWO32))
      && AddOnly(Do(s, ops[0]).0, ops[1..], i)
  }

  /** Bytes fired plus credit left is credit added, whatever happens to rates meanwhile. */
  lemma {:induction false} CreditConserved(s: State, ops: seq<Op>, i: int)
    requires Inv(s) && Legal(s, ops) && 0 <= i < |s.qs| && AddOnly(s, ops, i)
    ensures var (t, log) := Exec(s, ops);
            Bytes(log, i) + t.qs[i].avail == s.qs[i].avail + Added(ops, i)
    decreases |ops|
  {
    hide RelTime, W32, Delta, Inv, Poll, Set;
    if ops != [] {
      var (t, fs) := Do(s, ops[0]);
      match ops[0] {
        case SetOp(k, rate, avail, maxChunk, tag, f) =>
          SetAttrs(s, k, rate, avail, maxChunk, tag, f, i);
        case PollOp(now, num, unlimitedFirst) =>
          PollCredit(s, now, num, unlimitedFirst, i);
      }
      CreditConserved(t, ops[1..], i);
      BytesAppend(fs, Exec(t, ops[1..]).1, i);
    }
  }

  /** At any time every queue with credit is in exactly one list, exactly once. */
  lemma CreditListed(s: State, ops: seq<Op>, i: int)
    requires Inv(s) && Legal(s, ops) && 0 <= i < |s.qs|
    ensures var t := Exec(s, ops).0;
            && multiset(t.sorted)[i] + multiset(t.unlimited)[i] <= 1
            && (t.qs[i].avail > 0 ==> multiset(t.sorted)[i] + multiset(t.unlimited)[i] == 1)
  {
    hide RelTime, W32, Delta, Legal, Exec;
    var t := Exec(s, ops).0;
    DistinctOnce(t.sorted, i);
    DistinctOnce(t.unlimited, i);
  }

  lemma {:induction false} DistinctOnce(q: seq<int>, i: int)
    requires Distinct(q)
    ensures multiset(q)[i] == if i in q then 1 else 0
  {
    if q != [] {
      assert q == [q[0]] + q[1..];
      assert forall a, b :: 0 <= a < b < |q| - 1 ==> q[1..][a] == q[a + 1] && q[1..][b] == q[b + 1];
      DistinctOnce(q[1..], i);
      assert multiset(q) == multiset{q[0]} + multiset(q[1..]);
      assert forall a :: 0 <= a < |q| - 1 ==> q[1..][a] != q[0];
    }
  }
}
