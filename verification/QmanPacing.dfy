/** The pacing guarantee: a rate-limited queue never fires sooner than its rate allows. */
module QmanPacing {
  import opened Word
  import opened QmanSpec
  import opened QmanRuns

  /** Queue `i` will not fire before `due`: its key is late enough, or its stored time is still `due`. */
  ghost predicate DueAt(s: State, i: int, due: int)
    requires 0 <= i < |s.qs| && Ids(|s.qs|, s.sorted)
  {
    s.qs[i].rate > 0 ==>
      if i in s.sorted then due <= Key(s, i)
      else if i in s.unlimited then due <= s.vt
      else || due <= s.vt
           || (s.qs[i].nextTs == W32(due) && due - s.vt <= Delta(s.qs[i].maxChunk, s.qs[i].rate))
  }

  /** The fires of queue `i`. */
  function Only(log: seq<Fired>, i: int): seq<Fired> {
    if log == [] then []
    else if log[0].idx == i then [log[0]] + Only(log[1..], i)
    else Only(log[1..], i)
  }

  /** Each fire comes no earlier than `due`, and is followed by a pause of the time its bytes take. */
  ghost predicate Spaced(log: seq<Fired>, due: int, rate: u32)
    requires 0 < rate
  {
    log != [] ==>
      && due <= log[0].at && 0 <= log[0].bytes
      && Spaced(log[1..], log[0].at + Delta(log[0].bytes, rate), rate)
  }

  /** When the queue may fire next after these fires. */
  ghost function DueAfter(log: seq<Fired>, due: int, rate: u32): int
    requires 0 < rate && Spaced(log, due, rate)
  {
    if log == [] then due
    else DueAfter(log[1..], log[0].at + Delta(log[0].bytes, rate), rate)
  }

  lemma {:induction false} OnlyAppend(a: seq<Fired>, b: seq<Fired>, i: int)
    ensures Only(a + b, i) == Only(a, i) + Only(b, i)
  {
    if a == [] {
      assert a + b == b;
    } else {
      OnlyAppend(a[1..], b, i);
      assert (a + b)[1..] == a[1..] + b;
      if a[0].idx == i {
        assert [a[0]] + (Only(a[1..], i) + Only(b, i)) == ([a[0]] + Only(a[1..], i)) + Only(b, i);
      }
    }
  }

  lemma OnlyCons(f: Fired, log: seq<Fired>, i: int)
    ensures Only([f] + log, i) == if f.idx == i then [f] + Only(log, i) else Only(log, i)
  {
    assert ([f] + log)[1..] == log;
  }

  lemma {:induction false} SpacedAppend(a: seq<Fired>, b: seq<Fired>, due: int, rate: u32)
    requires 0 < rate && Spaced(a, due, rate) && Spaced(b, DueAfter(a, due, rate), rate)
    ensures Spaced(a + b, due, rate)
    ensures DueAfter(a + b, due, rate) == DueAfter(b, DueAfter(a, due, rate), rate)
  {
    if a == [] {
      assert a + b == b;
    } else {
      assert (a + b)[1..] == a[1..] + b;
      SpacedAppend(a[1..], b, a[0].at + Delta(a[0].bytes, rate), rate);
    }
  }

  // ------------------------------------------------------------ steps

  /** Listing a queue respects every due time. */
  lemma ActivateDue(s: State, k: int, i: int, due: int)
    requires InvBut(s, k) && 0 <= i < |s.qs| && DueAt(s, i, due)
    ensures ActivateDueOk(s, k, i, due)
  {
    hide RelTime, Delta, W32, KeysInRange, SortedByKey, Distinct;
    ActivateInv(s, k);
    var r := Activate(s, k);
    var z := s.(qs := s.qs[k := s.qs[k].(avail := 0)]);
    assert Paced(z.qs[k]);
    if s.qs[k].rate == 0 {
      if i != k {
        assert Key(r, i) == Key(s, i);
        assert i in r.unlimited <==> i in s.unlimited;
      }
    } else {
      var p := Activated(s, k);
      InsertDistinct(s.sorted, p, k);
      if i != k {
        assert Key(r, i) == Key(s, i);
      } else if due > s.vt {
        DueKey(s, k, due);
      }
    }
  }

  ghost predicate ActivateDueOk(s: State, k: int, i: int, due: int)
    requires InvBut(s, k) && 0 <= i < |s.qs|
  {
    ActivateInv(s, k);
    DueAt(Activate(s, k), i, due)
  }

  /** A stored time less than one chunk ahead is exact. */
  lemma DueKey(s: State, i: int, due: int)
    requires 0 <= i < |s.qs| && s.qs[i].rate > 0 && Paced(s.qs[i])
    requires s.qs[i].nextTs == W32(due) && s.vt < due <= s.vt + Delta(s.qs[i].maxChunk, s.qs[i].rate)
    ensures Key(s, i) == due
  {
    RelTimeExact(s.vt, due);
  }

  /** A fire comes no earlier than due, and the queue then waits as long as its bytes take. */
  lemma FireDue(s: State, k: int, i: int, due: int)
    requires InvBut(s, k) && 0 <= i < |s.qs|
    requires DueAt(s, i, due) && (k == i && s.qs[i].rate > 0 ==> due <= s.vt)
    ensures FireDueOk(s, k, i, due)
  {
    hide RelTime, Delta, W32, KeysInRange, SortedByKey, Distinct, Paced;
    FireInv(s, k);
    FireAt(s, k);
    var q := s.qs[k];
    var bytes := Min(q.avail, q.maxChunk);
    var left := q.(avail := q.avail - bytes,
                   nextTs := if q.rate > 0 then NewTs(W32(s.vt), bytes, q.rate) else q.nextTs);
    var t := s.(qs := s.qs[k := left]);
    Requeue(s, k, left);
    var d := if k == i && q.rate > 0 then s.vt + Delta(bytes, q.rate) else due;
    if k == i && q.rate > 0 {
      DeltaMonotone(bytes, q.maxChunk, q.rate);
      NewTsIs(s.vt, bytes, q.rate);
    } else if i != k {
      assert Key(t, i) == Key(s, i);
    }
    if left.avail > 0 {
      ActivateDue(t, k, i, d);
    }
  }

  lemma NewTsIs(vt: int, bytes: int, rate: u32)
    requires 0 <= bytes && 0 < rate
    ensures NewTs(W32(vt), bytes, rate) == W32(vt + Delta(bytes, rate))
  {
    hide Delta;
  }

  ghost predicate FireDueOk(s: State, k: int, i: int, due: int)
    requires InvBut(s, k) && 0 <= i < |s.qs|
  {
    FireInv(s, k);
    var (t, f) := Fire(s, k);
    DueAt(t, i, if k == i && s.qs[i].rate > 0 then f.at + Delta(f.bytes, s.qs[i].rate) else due)
  }

  /** Time passing keeps due times. */
  lemma LaterDue(s: State, r: State, i: int, due: int)
    requires 0 <= i < |s.qs| && Ids(|s.qs|, s.sorted) && DueAt(s, i, due)
    requires r.qs == s.qs && r.sorted == s.sorted && r.unlimited == s.unlimited && s.vt <= r.vt
    requires i in s.sorted ==> Key(r, i) == Key(s, i)
    ensures DueAt(r, i, due)
  {
    hide RelTime, Delta, W32;
  }

  /** Taking the first queue off the list: it is due now. */
  lemma PopDue(s: State, i: int, due: int)
    requires Inv(s) && s.sorted != [] && 0 <= i < |s.qs| && DueAt(s, i, due)
    ensures InvBut(Pop(s), s.sorted[0]) && DueAt(Pop(s), i, due)
    ensures i == s.sorted[0] && s.qs[i].rate > 0 ==> due <= Pop(s).vt
  {
    hide RelTime, Delta, W32, KeysInRange, SortedByKey, Distinct, Paced;
    PopInv(s);
    var p := Pop(s);
    assert s.sorted == [s.sorted[0]] + p.sorted;
    assert i in s.sorted <==> i == s.sorted[0] || i in p.sorted;
  }

  lemma {:induction false} SkipLoopDue(s: State, maxVt: int, num: nat, i: int, due: int)
    requires Inv(s) && s.vt <= maxVt && 0 <= i < |s.qs| && s.qs[i].rate > 0 && DueAt(s, i, due)
    ensures var (t, log) := SkipLoop(s, maxVt, num);
            && Spaced(Only(log, i), due, s.qs[i].rate)
            && DueAt(t, i, DueAfter(Only(log, i), due, s.qs[i].rate))
    decreases num, |s.sorted|
  {
    hide RelTime, W32, Delta, KeysInRange, SortedByKey, Distinct, Paced, Fire, Activate, DueAt, Spaced, DueAfter, Only;
    var rate := s.qs[i].rate;
    if num == 0 || s.sorted == [] || Key(s, s.sorted[0]) > maxVt {
      NothingDue(i, due, rate);
      RestInv(s, maxVt);
      LaterDue(s, Rest(s, maxVt), i, due);
    } else {
      PopDue(s, i, due);
      PopInv(s);
      var k := s.sorted[0];
      var p := Pop(s);
      if s.qs[k].avail > 0 {
        FireInv(p, k);
        FireDue(p, k, i, due);
        FireAt(p, k);
        FireCredit(p, k, i);
        var (t, f) := Fire(p, k);
        var d := if k == i then f.at + Delta(f.bytes, rate) else due;
        SkipLoopDue(t, maxVt, num - 1, i, d);
        OnlyCons(f, SkipLoop(t, maxVt, num - 1).1, i);
        SpacedCons(f, Only(SkipLoop(t, maxVt, num - 1).1, i), due, rate);
      } else {
        SkipLoopDue(p, maxVt, num, i, due);
      }
    }
  }

  lemma NothingDue(i: int, due: int, rate: u32)
    requires 0 < rate
    ensures Only([], i) == [] && Spaced([], due, rate) && DueAfter([], due, rate) == due
  {
  }

  lemma SpacedCons(f: Fired, log: seq<Fired>, due: int, rate: u32)
    requires 0 < rate && 0 <= f.bytes
    ensures due <= f.at && Spaced(log, f.at + Delta(f.bytes, rate), rate) ==>
              && Spaced([f] + log, due, rate)
              && DueAfter([f] + log, due, rate) == DueAfter(log, f.at + Delta(f.bytes, rate), rate)
  {
    assert ([f] + log)[1..] == log;
  }

  lemma DropDue(s: State, i: int, due: int)
    requires Inv(s) && s.unlimited != [] && 0 <= i < |s.qs| && DueAt(s, i, due)
    ensures var p := s.(unlimited := s.unlimited[1..]);
            && InvBut(p, s.unlimited[0]) && DueAt(p, i, due)
            && (i == s.unlimited[0] && s.qs[i].rate > 0 ==> due <= p.vt)
  {
    hide RelTime, Delta, W32, KeysInRange, SortedByKey, Distinct, Paced;
    DropInv(s);
    var p := s.(unlimited := s.unlimited[1..]);
    assert s.unlimited == [s.unlimited[0]] + p.unlimited;
    assert i in s.unlimited <==> i == s.unlimited[0] || i in p.unlimited;
    assert Key(p, i) == Key(s, i);
    assert s.unlimited[0] in s.unlimited;
  }

  lemma {:induction false} UnlimitedDue(s: State, num: nat, i: int, due: int)
    requires Inv(s) && 0 <= i < |s.qs| && s.qs[i].rate > 0 && DueAt(s, i, due)
    ensures var (t, log) := PollUnlimited(s, num);
            && Spaced(Only(log, i), due, s.qs[i].rate)
            && DueAt(t, i, DueAfter(Only(log, i), due, s.qs[i].rate))
    decreases num, |s.unlimited|
  {
    hide RelTime, W32, Delta, KeysInRange, SortedByKey, Distinct, Paced, Fire, Activate, DueAt;
    var rate := s.qs[i].rate;
    if num != 0 && s.unlimited != [] {
      DropDue(s, i, due);
      DropInv(s);
      var k := s.unlimited[0];
      var p := s.(unlimited := s.unlimited[1..]);
      if s.qs[k].avail > 0 {
        FireInv(p, k);
        FireDue(p, k, i, due);
        FireAt(p, k);
        FireCredit(p, k, i);
        var (t, f) := Fire(p, k);
        var d := if k == i then f.at + Delta(f.bytes, rate) else due;
        UnlimitedDue(t, num - 1, i, d);
        OnlyCons(f, PollUnlimited(t, num - 1).1, i);
        SpacedCons(f, Only(PollUnlimited(t, num - 1).1, i), due, rate);
      } else {
        UnlimitedDue(p, num, i, due);
      }
    }
  }

  lemma PollDue(s: State, now: int, num: nat, unlimitedFirst: bool, i: int, due: int)
    requires Inv(s) && s.rt <= now && 0 <= i < |s.qs| && s.qs[i].rate > 0 && DueAt(s, i, due)
    ensures var (t, log) := Poll(s, now, num, unlimitedFirst);
            && Spaced(Only(log, i), due, s.qs[i].rate)
            && DueAt(t, i, DueAfter(Only(log, i), due, s.qs[i].rate))
  {
    hide RelTime, W32, Delta, KeysInRange, SortedByKey, Distinct, Paced, SkipLoop, PollUnlimited,
      DueAt, Spaced, DueAfter;
    var rate := s.qs[i].rate;
    var maxVt := s.vt + (now - s.rt);
    if unlimitedFirst {
      var (t, fs) := PollUnlimited(s, num);
      UnlimitedDue(s, num, i, due);
      UnlimitedCredit(s, num, i);
      var d := DueAfter(Only(fs, i), due, rate);
      var (u, gs) := SkipLoop(t, maxVt, num - |fs|);
      SkipLoopDue(t, maxVt, num - |fs|, i, d);
      RealTimeInv(u, now);
      RealTimeDue(u, now, i, DueAfter(Only(gs, i), d, rate));
      OnlyAppend(fs, gs, i);
      SpacedAppend(Only(fs, i), Only(gs, i), due, rate);
    } else {
      var (u, fs) := SkipLoop(s, maxVt, num);
      SkipLoopDue(s, maxVt, num, i, due);
      SkipLoopCredit(s, maxVt, num, i);
      RealTimeInv(u, now);
      var t := u.(rt := now);
      var d := DueAfter(Only(fs, i), due, rate);
      RealTimeDue(u, now, i, d);
      UnlimitedDue(t, num - |fs|, i, d);
      var gs := PollUnlimited(t, num - |fs|).1;
      OnlyAppend(fs, gs, i);
      SpacedAppend(Only(fs, i), Only(gs, i), due, rate);
    }
  }

  lemma RealTimeDue(s: State, now: int, i: int, due: int)
    requires 0 <= i < |s.qs| && Ids(|s.qs|, s.sorted) && DueAt(s, i, due)
    ensures DueAt(s.(rt := now), i, due)
  {
    hide RelTime, Delta, W32;
    assert Key(s.(rt := now), i) == Key(s, i);
  }

  /** An update that leaves rate and chunk of queue `i` alone keeps its due time. */
  lemma SetDue(s: State, k: int, rate: u32, avail: u32, maxChunk: u16, tag: int, f: Flags, i: int, due: int)
    requires 0 <= k < |s.qs| && Inv(s) && Paced(Updated(s.qs[k], rate, avail, maxChunk, tag, f))
    requires 0 <= i < |s.qs| && DueAt(s, i, due)
    requires k == i ==> var q := Updated(s.qs[i], rate, avail, maxChunk, tag, f);
                        q.rate == s.qs[i].rate && q.maxChunk == s.qs[i].maxChunk
    ensures DueAt(Set(s, k, rate, avail, maxChunk, tag, f), i, due)
  {
    hide RelTime, Delta, W32, KeysInRange, SortedByKey, Distinct, Paced;
    var q := Updated(s.qs[k], rate, avail, maxChunk, tag, f);
    var t := s.(qs := s.qs[k := q]);
    SetInv(s, k, q);
    assert Key(t, i) == Key(s, i);
    if (f.setAvail || f.addAvail) && q.avail > 0 && !Listed(s, k) {
      ActivateDue(t, k, i, due);
    }
  }

  // ------------------------------------------------------------ runs

  /** No update changes rate or chunk of queue `i`. */
  ghost predicate SteadyRate(s: State, ops: seq<Op>, i: int)
    requires Inv(s) && Legal(s, ops) && 0 <= i < |s.qs|
    decreases |ops|
  {
    ops != [] ==>
      && (ops[0].SetOp? && ops[0].i == i ==>
            && (ops[0].f.setRate ==> ops[0].rate == s.qs[i].rate)
            && (ops[0].f.setChunk ==> ops[0].maxChunk == s.qs[i].maxChunk))
      && SteadyRate(QmanRuns.Do(s, ops[0]).0, ops[1..], i)
  }

  lemma {:induction false} ExecDue(s: State, ops: seq<Op>, i: int, due: int)
    requires Inv(s) && Legal(s, ops) && 0 <= i < |s.qs| && s.qs[i].rate > 0
    requires SteadyRate(s, ops, i) && DueAt(s, i, due)
    ensures var (t, log) := Exec(s, ops);
            && t.qs[i].rate == s.qs[i].rate
            && Spaced(Only(log, i), due, s.qs[i].rate)
            && DueAt(t, i, DueAfter(Only(log, i), due, s.qs[i].rate))
    decreases |ops|
  {
    hide RelTime, W32, Delta, KeysInRange, SortedByKey, Distinct, Paced, Poll, Set, DueAt;
    if ops != [] {
      var rate := s.qs[i].rate;
      var (t, fs) := QmanRuns.Do(s, ops[0]);
      match ops[0] {
        case SetOp(k, r, avail, maxChunk, tag, f) =>
          SetAttrs(s, k, r, avail, maxChunk, tag, f, i);
          SetDue(s, k, r, avail, maxChunk, tag, f, i, due);
        case PollOp(now, num, unlimitedFirst) =>
          PollCredit(s, now, num, unlimitedFirst, i);
          PollDue(s, now, num, unlimitedFirst, i, due);
      }
      var d := DueAfter(Only(fs, i), due, rate);
      ExecDue(t, ops[1..], i, d);
      var gs := Exec(t, ops[1..]).1;
      OnlyAppend(fs, gs, i);
      SpacedAppend(Only(fs, i), Only(gs, i), due, rate);
    }
  }

  /** With rate and chunk unchanged, successive fires of a queue are as far apart in virtual time as the
      bytes of the earlier one take at its rate. */
  lemma PacingBound(s: State, ops: seq<Op>, i: int)
    requires Inv(s) && Legal(s, ops) && 0 <= i < |s.qs| && s.qs[i].rate > 0 && SteadyRate(s, ops, i)
    ensures Spaced(Only(Exec(s, ops).1, i), s.vt, s.qs[i].rate)
  {
    hide RelTime, W32, Delta, Spaced;
    assert i in s.sorted ==> s.vt <= Key(s, i);
    ExecDue(s, ops, i, s.vt);
  }

  // ------------------------------------------------------------ bytes per round trip

  function SumBytes(log: seq<Fired>): int {
    if log == [] then 0 else log[0].bytes + SumBytes(log[1..])
  }

  /** No fire of queue `i` is longer than `chunk`. */
  ghost predicate Chunks(log: seq<Fired>, i: int, chunk: int) {
    forall k {:trigger log[k]} :: 0 <= k < |log| && log[k].idx == i ==> log[k].bytes <= chunk
  }

  lemma ChunksAppend(a: seq<Fired>, b: seq<Fired>, i: int, chunk: int)
    requires Chunks(a, i, chunk) && Chunks(b, i, chunk)
    ensures Chunks(a + b, i, chunk)
  {
    var c := a + b;
    forall k {:trigger c[k]} | 0 <= k < |c|
      ensures c[k] == if k < |a| then a[k] else b[k - |a|]
    {
    }
  }

  lemma {:induction false} SkipLoopChunks(s: State, maxVt: int, num: nat, i: int)
    requires Inv(s) && s.vt <= maxVt && 0 <= i < |s.qs|
    ensures Chunks(SkipLoop(s, maxVt, num).1, i, s.qs[i].maxChunk)
    decreases num, |s.sorted|
  {
    hide RelTime, W32, Delta, KeysInRange, SortedByKey, Distinct, Paced, Fire, Activate;
    if !(num == 0 || s.sorted == [] || Key(s, s.sorted[0]) > maxVt) {
      PopInv(s);
      var h := s.sorted[0];
      var p := Pop(s);
      if s.qs[h].avail > 0 {
        FireInv(p, h);
        FireAt(p, h);
        var (t, f) := Fire(p, h);
        SkipLoopChunks(t, maxVt, num - 1, i);
        ChunksAppend([f], SkipLoop(t, maxVt, num - 1).1, i, s.qs[i].maxChunk);
      } else {
        SkipLoopChunks(p, maxVt, num, i);
      }
    }
  }

  lemma {:induction false} UnlimitedChunks(s: State, num: nat, i: int)
    requires Inv(s) && 0 <= i < |s.qs|
    ensures Chunks(PollUnlimited(s, num).1, i, s.qs[i].maxChunk)
    decreases num, |s.unlimited|
  {
    hide RelTime, W32, Delta, KeysInRange, SortedByKey, Distinct, Paced, Fire, Activate;
    if num != 0 && s.unlimited != [] {
      DropInv(s);
      var h := s.unlimited[0];
      var p := s.(unlimited := s.unlimited[1..]);
      if s.qs[h].avail > 0 {
        FireInv(p, h);
        FireAt(p, h);
        var (t, f) := Fire(p, h);
        UnlimitedChunks(t, num - 1, i);
        ChunksAppend([f], PollUnlimited(t, num - 1).1, i, s.qs[i].maxChunk);
      } else {
        UnlimitedChunks(p, num, i);
      }
    }
  }

  lemma PollChunks(s: State, now: int, num: nat, unlimitedFirst: bool, i: int)
    requires Inv(s) && s.rt <= now && 0 <= i < |s.qs|
    ensures Chunks(Poll(s, now, num, unlimitedFirst).1, i, s.qs[i].maxChunk)
  {
    hide RelTime, W32, Delta, KeysInRange, SortedByKey, Distinct, Paced, SkipLoop, PollUnlimited, Chunks;
    var maxVt := s.vt + (now - s.rt);
    if unlimitedFirst {
      var (t, fs) := PollUnlimited(s, num);
      UnlimitedChunks(s, num, i);
      UnlimitedCredit(s, num, i);
      SkipLoopChunks(t, maxVt, num - |fs|, i);
      ChunksAppend(fs, SkipLoop(t, maxVt, num - |fs|).1, i, s.qs[i].maxChunk);
    } else {
      var (t, fs) := PollSkip(s, now, num);
      SkipLoopChunks(s, maxVt, num, i);
      SkipLoopCredit(s, maxVt, num, i);
      UnlimitedChunks(t, num - |fs|, i);
      ChunksAppend(fs, PollUnlimited(t, num - |fs|).1, i, s.qs[i].maxChunk);
    }
  }

  /** While its chunk is unchanged, no fire of a queue is longer. */
  lemma {:induction false} ExecChunks(s: State, ops: seq<Op>, i: int)
    requires Inv(s) && Legal(s, ops) && 0 <= i < |s.qs| && SteadyRate(s, ops, i)
    ensures Chunks(Exec(s, ops).1, i, s.qs[i].maxChunk)
    decreases |ops|
  {
    hide RelTime, W32, Delta, KeysInRange, SortedByKey, Distinct, Paced, Poll, Set, Chunks;
    if ops == [] {
      NoChunks(i, s.qs[i].maxChunk);
    } else {
      var (t, fs) := QmanRuns.Do(s, ops[0]);
      match ops[0] {
        case SetOp(k, r, avail, maxChunk, tag, f) =>
          SetAttrs(s, k, r, avail, maxChunk, tag, f, i);
          NoChunks(i, s.qs[i].maxChunk);
        case PollOp(now, num, unlimitedFirst) =>
          PollCredit(s, now, num, unlimitedFirst, i);
          PollChunks(s, now, num, unlimitedFirst, i);
      }
      ExecChunks(t, ops[1..], i);
      ChunksAppend(fs, Exec(t, ops[1..]).1, i, s.qs[i].maxChunk);
    }
  }

  lemma NoChunks(i: int, chunk: int)
    ensures Chunks([], i, chunk)
  {
  }

  lemma DeltaBytes(bytes: int, rate: u32)
    requires 0 <= bytes && 0 < rate
    ensures bytes * 8000000 <= (Delta(bytes, rate) + 1) * rate
  {
    var x := bytes * 8 * 1000000;
    assert x == rate * (x / rate) + x % rate;
  }

  /** All fires but the last fit into the time between the first and the last, up to rounding. */
  lemma {:induction false} SpacedBytes(log: seq<Fired>, due: int, rate: u32)
    requires 0 < rate && Spaced(log, due, rate) && log != []
    ensures (SumBytes(log) - log[|log| - 1].bytes) * 8000000
            <= (log[|log| - 1].at - log[0].at + |log| - 1) * rate
    ensures due <= log[0].at <= log[|log| - 1].at
  {
    hide Delta;
    if |log| > 1 {
      var rest := log[1..];
      var last := log[|log| - 1];
      var d := Delta(log[0].bytes, rate);
      SpacedBytes(rest, log[0].at + d, rate);
      DeltaBytes(log[0].bytes, rate);
      assert rest[|rest| - 1] == last && rest[0].at >= log[0].at + d;
      assert SumBytes(log) == log[0].bytes + SumBytes(rest);
      BytesStep(log[0].bytes, SumBytes(rest) - last.bytes, d, last.at - log[0].at + |log| - 1,
                last.at - rest[0].at + |rest| - 1, rate);
    }
  }

  lemma BytesStep(first: int, others: int, d: int, span: int, restSpan: int, rate: int)
    requires first * 8000000 <= (d + 1) * rate && others * 8000000 <= restSpan * rate
    requires restSpan <= span - d - 1 && 0 <= rate
    ensures (first + others) * 8000000 <= span * rate
  {
    MulLess(restSpan, span - d - 1, rate);
    assert (d + 1) * rate + (span - d - 1) * rate == span * rate;
  }

  lemma MulLess(x: int, y: int, k: int)
    requires x <= y && 0 <= k
    ensures x * k <= y * k
  {
  }

  /** A flow paced so that a window takes at least one round trip (`rtt` microseconds) fires, within any
      stretch of real time no longer than that, at most the window plus one chunk, the last one; each fire
      before it adds the rounding of one nanosecond at the rate. */
  lemma WindowPerRoundTrip(s: State, ops: seq<Op>, i: int, window: int, rtt: int)
    requires Inv(s) && Legal(s, ops) && 0 <= i < |s.qs| && s.qs[i].rate > 0 && SteadyRate(s, ops, i)
    requires s.qs[i].rate * (rtt * 1000) <= window * 8000000
    requires Exec(s, ops).0.rt - s.rt <= rtt * 1000
    requires Only(Exec(s, ops).1, i) != []
    ensures var log := Only(Exec(s, ops).1, i);
            var last := log[|log| - 1];
            && last.bytes <= s.qs[i].maxChunk
            && (SumBytes(log) - last.bytes) * 8000000 <= window * 8000000 + (|log| - 1) * s.qs[i].rate
  {
    hide RelTime, W32, Delta, Spaced, Exec, Legal, Inv;
    var log := Only(Exec(s, ops).1, i);
    var last := log[|log| - 1];
    var rate := s.qs[i].rate;
    PacingBound(s, ops, i);
    SpacedBytes(log, s.vt, rate);
    LastInRange(s, ops, i);
    ExecChunks(s, ops, i);
    OnlyFrom(Exec(s, ops).1, i);
    assert last in log;
    SpanBytes(SumBytes(log) - last.bytes, last.at - log[0].at, |log| - 1, rate, rtt * 1000, window);
  }

  lemma SpanBytes(sum: int, span: int, n: int, rate: int, time: int, window: int)
    requires sum * 8000000 <= (span + n) * rate && span <= time && 0 <= rate
    requires rate * time <= window * 8000000
    ensures sum * 8000000 <= window * 8000000 + n * rate
  {
    MulLess(span + n, time + n, rate);
    assert (time + n) * rate == rate * time + n * rate;
  }

  lemma LastInRange(s: State, ops: seq<Op>, i: int)
    requires Inv(s) && Legal(s, ops)
    ensures var (t, log) := Exec(s, ops);
            forall k :: 0 <= k < |Only(log, i)| ==> Only(log, i)[k].at <= s.vt + (t.rt - s.rt)
  {
    hide RelTime, W32, Delta, Exec, Legal, Inv;
    FiresInOrder(s, ops);
    var log := Exec(s, ops).1;
    OnlyFrom(log, i);
    forall k | 0 <= k < |Only(log, i)|
      ensures Only(log, i)[k].at <= s.vt + (Exec(s, ops).0.rt - s.rt)
    {
      var j :| 0 <= j < |log| && log[j] == Only(log, i)[k];
    }
  }

  lemma {:induction false} OnlyFrom(log: seq<Fired>, i: int)
    ensures forall k :: 0 <= k < |Only(log, i)| ==> Only(log, i)[k] in log && Only(log, i)[k].idx == i
  {
    if log != [] {
      OnlyFrom(log[1..], i);
    }
  }
}
