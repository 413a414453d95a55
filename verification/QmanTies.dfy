/** Queues fire in the order in which they are listed, and queues with equal keys in the order of listing. */
module QmanTies {
  import opened Word
  import opened QmanSpec
  import opened QmanRuns

  /** `i` stands before `j` in `q`. */
  ghost predicate Precedes(q: seq<int>, i: int, j: int) {
    exists a, b :: 0 <= a < b < |q| && q[a] == i && q[b] == j
  }

  /** `i` has credit and is listed before `j` on the list they share. */
  ghost predicate Waits(s: State, i: int, j: int) {
    && 0 <= i < |s.qs| && s.qs[i].avail > 0
    && (Precedes(s.sorted, i, j) || Precedes(s.unlimited, i, j))
  }

  /** Every fire of `j` has a fire of `i` before it. */
  ghost predicate FiresFirst(log: seq<Fired>, i: int, j: int) {
    forall k {:trigger log[k]} :: 0 <= k < |log| && log[k].idx == j ==> HasFired(log[..k], i)
  }

  /** Either `i` fired, before any fire of `j`, or neither fired and they still wait in this order. */
  ghost predicate InTurn(t: State, log: seq<Fired>, i: int, j: int) {
    if HasFired(log, i) then FiresFirst(log, i, j)
    else !HasFired(log, j) && Waits(t, i, j)
  }

  // ------------------------------------------------------------ logs

  lemma NoneFirst(log: seq<Fired>, i: int, j: int)
    requires !HasFired(log, j)
    ensures FiresFirst(log, i, j)
  {
    hide HasFired;
    forall k | 0 <= k < |log|
      ensures log[k].idx != j
    {
      FiredAt(log, k);
    }
  }

  lemma FiredAt(log: seq<Fired>, k: int)
    requires 0 <= k < |log|
    ensures HasFired(log, log[k].idx)
  {
  }

  lemma FirstAppend(a: seq<Fired>, b: seq<Fired>, i: int, j: int)
    requires FiresFirst(a, i, j) && (HasFired(a, i) || FiresFirst(b, i, j))
    ensures FiresFirst(a + b, i, j)
  {
    hide HasFired;
    var c := a + b;
    forall k {:trigger c[k]} | 0 <= k < |c| && c[k].idx == j
      ensures HasFired(c[..k], i)
    {
      if k < |a| {
        assert c[..k] == a[..k];
        assert c[k] == a[k];
      } else {
        assert c[..k] == a + b[..k - |a|];
        HasFiredAfter(a, b[..k - |a|], i);
        assert c[k] == b[k - |a|];
      }
    }
  }

  /** Turns of two steps in a row. */
  lemma TurnAppend(t: State, a: seq<Fired>, u: State, b: seq<Fired>, i: int, j: int)
    requires InTurn(t, a, i, j) && (!HasFired(a, i) ==> InTurn(u, b, i, j))
    ensures InTurn(u, a + b, i, j)
  {
    hide HasFired, FiresFirst, Waits;
    HasFiredAfter(a, b, i);
    HasFiredAfter(a, b, j);
    if HasFired(a, i) {
      FirstAppend(a, b, i, j);
    } else if HasFired(b, i) {
      NoneFirst(a, i, j);
      FirstAppend(a, b, i, j);
    }
  }

  lemma OneTurn(t: State, f: Fired, i: int, j: int)
    requires f.idx != j
    requires f.idx == i || Waits(t, i, j)
    ensures InTurn(t, [f], i, j)
  {
    hide Waits;
    assert [f][0] == f;
  }

  lemma NoTurn(t: State, i: int, j: int)
    requires Waits(t, i, j)
    ensures InTurn(t, [], i, j)
  {
  }

  // ------------------------------------------------------------ lists

  lemma InsertPrecedes(q: seq<int>, p: int, k: int, i: int, j: int)
    requires 0 <= p <= |q| && Precedes(q, i, j)
    ensures Precedes(Insert(q, p, k), i, j)
  {
    var a, b :| 0 <= a < b < |q| && q[a] == i && q[b] == j;
    var r := Insert(q, p, k);
    assert r[if a < p then a else a + 1] == i;
    assert r[if b < p then b else b + 1] == j;
  }

  lemma TailPrecedes(q: seq<int>, i: int, j: int)
    requires Distinct(q) && Precedes(q, i, j)
    ensures q[0] != j
    ensures q[0] != i ==> Precedes(q[1..], i, j)
  {
    var a, b :| 0 <= a < b < |q| && q[a] == i && q[b] == j;
    if q[0] != i {
      assert q[1..][a - 1] == i && q[1..][b - 1] == j;
    }
  }

  lemma PrecedesIn(q: seq<int>, i: int, j: int)
    requires Precedes(q, i, j)
    ensures i in q && j in q
    ensures Distinct(q) ==> i != j
  {
    var a, b :| 0 <= a < b < |q| && q[a] == i && q[b] == j;
  }

  lemma ListingWaits(s: State, k: int, i: int, j: int)
    requires InvBut(s, k) && Waits(s, i, j)
    ensures Waits(Activate(s, k), i, j)
  {
    hide RelTime, Delta, W32, KeysInRange, SortedByKey, Distinct, Precedes;
    ActivateInv(s, k);
    if Precedes(s.sorted, i, j) {
      PrecedesIn(s.sorted, i, j);
    } else {
      PrecedesIn(s.unlimited, i, j);
    }
    if s.qs[k].rate == 0 {
      assert Insert(s.unlimited, |s.unlimited|, k) == s.unlimited + [k];
      if Precedes(s.unlimited, i, j) {
        InsertPrecedes(s.unlimited, |s.unlimited|, k, i, j);
      }
    } else {
      var z := s.(qs := s.qs[k := s.qs[k].(avail := 0)]);
      assert Paced(z.qs[k]);
      var p := Activated(s, k);
      if Precedes(s.sorted, i, j) {
        InsertPrecedes(s.sorted, p, k, i, j);
      }
    }
  }

  lemma FireWaits(s: State, k: int, i: int, j: int)
    requires InvBut(s, k) && Waits(s, i, j)
    ensures Waits(Fire(s, k).0, i, j)
  {
    hide RelTime, Delta, W32, KeysInRange, SortedByKey, Distinct, Paced, Precedes, Activate;
    var q := s.qs[k];
    var bytes := Min(q.avail, q.maxChunk);
    var left := q.(avail := q.avail - bytes,
                   nextTs := if q.rate > 0 then NewTs(W32(s.vt), bytes, q.rate) else q.nextTs);
    var t := s.(qs := s.qs[k := left]);
    Requeue(s, k, left);
    if Precedes(s.sorted, i, j) {
      PrecedesIn(s.sorted, i, j);
    } else {
      PrecedesIn(s.unlimited, i, j);
    }
    assert Waits(t, i, j);
    if left.avail > 0 {
      ListingWaits(t, k, i, j);
    }
  }

  // ------------------------------------------------------------ polls

  lemma {:induction false} SkipLoopInTurn(s: State, maxVt: int, num: nat, i: int, j: int)
    requires Inv(s) && s.vt <= maxVt && Waits(s, i, j)
    ensures InTurn(SkipLoop(s, maxVt, num).0, SkipLoop(s, maxVt, num).1, i, j)
    decreases num, |s.sorted|
  {
    hide RelTime, W32, Delta, KeysInRange, SortedByKey, Distinct, Paced, Fire, Activate, InTurn, Precedes;
    if num == 0 || s.sorted == [] || Key(s, s.sorted[0]) > maxVt {
      NoTurn(Rest(s, maxVt), i, j);
    } else {
      PopInv(s);
      var h := s.sorted[0];
      var p := Pop(s);
      HeadWaits(s.sorted, s.unlimited, i, j);
      if s.qs[h].avail > 0 {
        FireInv(p, h);
        FireAt(p, h);
        var (t, f) := Fire(p, h);
        if h != i {
          FireWaits(p, h, i, j);
          SkipLoopInTurn(t, maxVt, num - 1, i, j);
        }
        OneTurn(t, f, i, j);
        OneFires(f, i);
        TurnAppend(t, [f], SkipLoop(t, maxVt, num - 1).0, SkipLoop(t, maxVt, num - 1).1, i, j);
      } else {
        SkipLoopInTurn(p, maxVt, num, i, j);
      }
    }
  }

  lemma OneFires(f: Fired, i: int)
    ensures HasFired([f], i) <==> f.idx == i
  {
    assert [f][0] == f;
  }

  /** Taking the head off one of two disjoint lists keeps the order, unless the head is the first of the two. */
  lemma HeadWaits(q: seq<int>, other: seq<int>, i: int, j: int)
    requires q != [] && Distinct(q) && forall x :: x in q ==> x !in other
    requires Precedes(q, i, j) || Precedes(other, i, j)
    ensures q[0] != j
    ensures q[0] != i ==> Precedes(q[1..], i, j) || Precedes(other, i, j)
  {
    hide Precedes;
    if Precedes(q, i, j) {
      TailPrecedes(q, i, j);
    } else {
      PrecedesIn(other, i, j);
    }
  }

  lemma {:induction false} UnlimitedInTurn(s: State, num: nat, i: int, j: int)
    requires Inv(s) && Waits(s, i, j)
    ensures InTurn(PollUnlimited(s, num).0, PollUnlimited(s, num).1, i, j)
    decreases num, |s.unlimited|
  {
    hide RelTime, W32, Delta, KeysInRange, SortedByKey, Distinct, Paced, Fire, Activate, InTurn, Precedes;
    if num == 0 || s.unlimited == [] {
      NoTurn(s, i, j);
    } else {
      DropInv(s);
      var h := s.unlimited[0];
      var p := s.(unlimited := s.unlimited[1..]);
      HeadWaits(s.unlimited, s.sorted, i, j);
      if s.qs[h].avail > 0 {
        FireInv(p, h);
        FireAt(p, h);
        var (t, f) := Fire(p, h);
        if h != i {
          FireWaits(p, h, i, j);
          UnlimitedInTurn(t, num - 1, i, j);
        }
        OneTurn(t, f, i, j);
        OneFires(f, i);
        TurnAppend(t, [f], PollUnlimited(t, num - 1).0, PollUnlimited(t, num - 1).1, i, j);
      } else {
        UnlimitedInTurn(p, num, i, j);
      }
    }
  }

  lemma PollInTurn(s: State, now: int, num: nat, unlimitedFirst: bool, i: int, j: int)
    requires Inv(s) && s.rt <= now && Waits(s, i, j)
    ensures var (t, log) := Poll(s, now, num, unlimitedFirst); InTurn(t, log, i, j)
  {
    hide RelTime, W32, Delta, Inv, SkipLoop, PollUnlimited, HasFired, FiresFirst, Precedes;
    var maxVt := s.vt + (now - s.rt);
    if unlimitedFirst {
      var (t, fs) := PollUnlimited(s, num);
      var (u, gs) := SkipLoop(t, maxVt, num - |fs|);
      UnlimitedInTurn(s, num, i, j);
      if !HasFired(fs, i) {
        SkipLoopInTurn(t, maxVt, num - |fs|, i, j);
      }
      TurnAppend(t, fs, u.(rt := now), gs, i, j);
    } else {
      var (t, fs) := PollSkip(s, now, num);
      var (u, gs) := PollUnlimited(t, num - |fs|);
      SkipLoopInTurn(s, maxVt, num, i, j);
      if !HasFired(fs, i) {
        UnlimitedInTurn(t, num - |fs|, i, j);
      }
      TurnAppend(t, fs, u, gs, i, j);
    }
  }

  lemma SetWaits(s: State, k: int, rate: u32, avail: u32, maxChunk: u16, tag: int, f: Flags, i: int, j: int)
    requires 0 <= k < |s.qs| && Inv(s) && Paced(Updated(s.qs[k], rate, avail, maxChunk, tag, f))
    requires Waits(s, i, j)
    requires k == i ==> !f.setAvail && (f.addAvail ==> s.qs[i].avail + avail < TWO32)
    ensures Waits(Set(s, k, rate, avail, maxChunk, tag, f), i, j)
  {
    hide RelTime, W32, Delta, KeysInRange, SortedByKey, Distinct, Paced, Activate, Precedes;
    var q := Updated(s.qs[k], rate, avail, maxChunk, tag, f);
    var t := s.(qs := s.qs[k := q]);
    SetInv(s, k, q);
    assert Waits(t, i, j);
    if (f.setAvail || f.addAvail) && q.avail > 0 && !Listed(s, k) {
      ListingWaits(t, k, i, j);
    }
  }

  // ------------------------------------------------------------ runs

  /** Whatever is done to rates, chunks and other queues, a queue with credit fires before every queue behind it
      on its list, unless its credit is set anew. */
  lemma {:induction false} FiresInListOrder(s: State, ops: seq<Op>, i: int, j: int)
    requires Inv(s) && Legal(s, ops) && Waits(s, i, j) && AddOnly(s, ops, i)
    ensures FiresFirst(Exec(s, ops).1, i, j)
    ensures !HasFired(Exec(s, ops).1, i) ==> !HasFired(Exec(s, ops).1, j) && Waits(Exec(s, ops).0, i, j)
    decreases |ops|
  {
    hide RelTime, W32, Delta, Inv, Poll, Set, HasFired, FiresFirst, Precedes;
    if ops == [] {
      NothingFired(i, j);
    } else {
      var (t, fs) := Do(s, ops[0]);
      match ops[0] {
        case SetOp(k, rate, avail, maxChunk, tag, f) =>
          SetWaits(s, k, rate, avail, maxChunk, tag, f, i, j);
          NothingFired(i, j);
        case PollOp(now, num, unlimitedFirst) =>
          PollInTurn(s, now, num, unlimitedFirst, i, j);
      }
      var (u, gs) := Exec(t, ops[1..]);
      HasFiredAfter(fs, gs, i);
      HasFiredAfter(fs, gs, j);
      if !HasFired(fs, i) {
        FiresInListOrder(t, ops[1..], i, j);
        NoneFirst(fs, i, j);
      }
      FirstAppend(fs, gs, i, j);
    }
  }

  lemma NothingFired(i: int, j: int)
    ensures FiresFirst([], i, j) && !HasFired([], i) && !HasFired([], j)
  {
  }

  /** A rate-limited queue goes behind a listed one exactly if its key is not smaller. */
  lemma ListedBehind(s: State, j: int, i: int)
    requires InvBut(s, j) && s.qs[j].rate > 0 && i in s.sorted
    ensures var r := Activate(s, j);
            && 0 <= i < |s.qs| && Key(r, i) == Key(s, i)
            && (if Key(s, i) <= Key(r, j) then Precedes(r.sorted, i, j) else Precedes(r.sorted, j, i))
  {
    hide RelTime, Delta, W32, Activate, Distinct, Precedes;
    var p := ListedAt(s, j);
    var r := Activate(s, j);
    var a :| 0 <= a < |s.sorted| && s.sorted[a] == i;
    InsertAround(s.sorted, p, j, a);
    assert Key(r, i) == Key(s, i);
    if p < a {
      assert Key(s, s.sorted[p]) <= Key(s, s.sorted[a]);
    }
  }

  lemma ListedAt(s: State, j: int) returns (p: int)
    requires InvBut(s, j) && s.qs[j].rate > 0
    ensures 0 <= p <= |s.sorted| && Ids(|s.qs|, s.sorted) && SortedByKey(s)
    ensures var r := Activate(s, j);
            && r.sorted == Insert(s.sorted, p, j) && r.vt == s.vt
            && (forall k :: 0 <= k < |s.qs| && k != j ==> r.qs[k] == s.qs[k])
            && (forall a :: 0 <= a < p ==> Key(s, s.sorted[a]) <= Key(r, j))
            && (p < |s.sorted| ==> Key(r, j) < Key(s, s.sorted[p]))
  {
    hide RelTime, Delta, W32, Activate, Distinct;
    var z := s.(qs := s.qs[j := s.qs[j].(avail := 0)]);
    assert Paced(z.qs[j]);
    SameKeys(z, s);
    p := Activated(s, j);
  }

  lemma InsertAround(q: seq<int>, p: int, j: int, a: int)
    requires 0 <= p <= |q| && 0 <= a < |q|
    ensures if a < p then Precedes(Insert(q, p, j), q[a], j) else Precedes(Insert(q, p, j), j, q[a])
  {
    var r := Insert(q, p, j);
    assert r[p] == j;
    assert r[if a < p then a else a + 1] == q[a];
  }

  /** Of two rate-limited queues with credit, one listed while the other is on the list, the one with the smaller
      key fires first, and with equal keys the one listed earlier. */
  lemma TiesFireInListingOrder(s: State, j: int, i: int, ops: seq<Op>)
    requires InvBut(s, j) && s.qs[j].rate > 0 && s.qs[j].avail > 0
    requires i in s.sorted && 0 <= i < |s.qs| && s.qs[i].avail > 0
    requires Inv(Activate(s, j)) && Legal(Activate(s, j), ops)
    requires AddOnly(Activate(s, j), ops, i) && AddOnly(Activate(s, j), ops, j)
    ensures var r := Activate(s, j);
            var log := Exec(r, ops).1;
            if Key(r, i) <= Key(r, j) then FiresFirst(log, i, j) else FiresFirst(log, j, i)
  {
    hide RelTime, Delta, W32, Activate, FiresFirst, Precedes, Legal, AddOnly, Exec, KeysInRange, SortedByKey;
    ActivateInv(s, j);
    ListedBehind(s, j, i);
    var r := Activate(s, j);
    if Key(r, i) <= Key(r, j) {
      FiresInListOrder(r, ops, i, j);
    } else {
      FiresInListOrder(r, ops, j, i);
    }
  }
}
