/** What updates and fires do to a queue: the attributes last set, fires of whole chunks, and the next time. */
module QmanUpdates {
  import opened Word
  import opened QmanSpec
  import opened QmanRuns

  // ------------------------------------------------------------ updates

  /** An update sets what its flags ask for and nothing else; credit is set, or added to modulo 2^32. */
  lemma SetSets(s: State, i: int, rate: u32, avail: u32, maxChunk: u16, tag: int, f: Flags, j: int)
    requires 0 <= i < |s.qs| && Inv(s) && Paced(Updated(s.qs[i], rate, avail, maxChunk, tag, f)) && 0 <= j < |s.qs|
    ensures var q, r := s.qs[j], Set(s, i, rate, avail, maxChunk, tag, f).qs[j];
            && r.rate == (if j == i && f.setRate then rate else q.rate)
            && r.maxChunk == (if j == i && f.setChunk then maxChunk else q.maxChunk)
            && r.tag == (if j == i && f.setTag then tag else q.tag)
            && r.avail == (if j == i && f.setAvail then avail
                           else if j == i && f.addAvail then W32(q.avail + avail)
                           else q.avail)
  {
    hide RelTime, W32, Delta, KeysInRange, SortedByKey, Distinct, Paced, Set;
    SetAttrs(s, i, rate, avail, maxChunk, tag, f, j);
  }

  /** An update lists a queue that was not listed if and only if it has credit now: without a rate behind the other
      unlimited ones, with one for its own time, but not in the past and not later than after one chunk. It moves no
      listed queue. */
  lemma SetLists(s: State, i: int, rate: u32, avail: u32, maxChunk: u16, tag: int, f: Flags)
    requires 0 <= i < |s.qs| && Inv(s) && Paced(Updated(s.qs[i], rate, avail, maxChunk, tag, f))
    ensures var t := Set(s, i, rate, avail, maxChunk, tag, f);
            var q := t.qs[i];
            if Listed(s, i) || q.avail == 0 then
              t.sorted == s.sorted && t.unlimited == s.unlimited
            else if q.rate == 0 then
              t.sorted == s.sorted && t.unlimited == s.unlimited + [i]
            else
              && t.unlimited == s.unlimited && multiset(t.sorted) == multiset(s.sorted) + multiset{i}
              && Key(t, i) == s.vt + Max(0, Min(Delta(q.maxChunk, q.rate), Key(s, i) - s.vt))
  {
    hide RelTime, W32, Delta, KeysInRange, SortedByKey, Distinct, Paced;
    var q := Updated(s.qs[i], rate, avail, maxChunk, tag, f);
    var t := s.(qs := s.qs[i := q]);
    if !Listed(s, i) && q.avail > 0 {
      UnlistedEmpty(s, i);
      if q.rate > 0 {
        var p := Activated(t, i);
        InsertOne(s.sorted, p, i);
      }
    }
  }

  lemma UnlistedEmpty(s: State, i: int)
    requires Inv(s) && 0 <= i < |s.qs| && !Listed(s, i)
    ensures s.qs[i].avail == 0
  {
  }

  lemma InsertOne(q: seq<int>, p: int, i: int)
    requires 0 <= p <= |q|
    ensures multiset(Insert(q, p, i)) == multiset(q) + multiset{i}
  {
    assert q == q[..p] + q[p..];
  }

  /** The value that the last update of queue `i` set, or else the one before all of them. */
  function LastRate(ops: seq<Op>, i: int, rate: u32): u32
    decreases |ops|
  {
    if ops == [] then rate
    else LastRate(ops[1..], i, if ops[0].SetOp? && ops[0].i == i && ops[0].f.setRate then ops[0].rate else rate)
  }

  function LastChunk(ops: seq<Op>, i: int, chunk: u16): u16
    decreases |ops|
  {
    if ops == [] then chunk
    else
      LastChunk(ops[1..], i, if ops[0].SetOp? && ops[0].i == i && ops[0].f.setChunk then ops[0].maxChunk else chunk)
  }

  function LastTag(ops: seq<Op>, i: int, tag: int): int
    decreases |ops|
  {
    if ops == [] then tag
    else LastTag(ops[1..], i, if ops[0].SetOp? && ops[0].i == i && ops[0].f.setTag then ops[0].tag else tag)
  }

  /** Over any updates and polls each queue has the rate, chunk and tag last set. */
  lemma {:induction false} AttributesLastSet(s: State, ops: seq<Op>, i: int)
    requires Inv(s) && Legal(s, ops) && 0 <= i < |s.qs|
    ensures var q := Exec(s, ops).0.qs[i];
            && q.rate == LastRate(ops, i, s.qs[i].rate)
            && q.maxChunk == LastChunk(ops, i, s.qs[i].maxChunk)
            && q.tag == LastTag(ops, i, s.qs[i].tag)
    decreases |ops|
  {
    hide RelTime, W32, Delta, Inv, Poll, Set;
    if ops != [] {
      var t := QmanRuns.Do(s, ops[0]).0;
      match ops[0] {
        case SetOp(k, rate, avail, maxChunk, tag, f) =>
          SetSets(s, k, rate, avail, maxChunk, tag, f, i);
        case PollOp(now, num, unlimitedFirst) =>
          PollCredit(s, now, num, unlimitedFirst, i);
      }
      AttributesLastSet(t, ops[1..], i);
    }
  }

  // ------------------------------------------------------------ fires

  /** Each fire of queue `i` takes a whole chunk, or all of the credit if there is less, and carries the tag. */
  ghost predicate WholeChunks(log: seq<Fired>, i: int, avail: int, chunk: int, tag: int)
    decreases |log|
  {
    log != [] ==>
      if log[0].idx == i then
        && log[0].bytes == Min(avail, chunk) && log[0].tag == tag && avail > 0
        && WholeChunks(log[1..], i, avail - log[0].bytes, chunk, tag)
      else WholeChunks(log[1..], i, avail, chunk, tag)
  }

  lemma WholeCons(f: Fired, log: seq<Fired>, i: int, avail: int, chunk: int, tag: int)
    ensures WholeChunks([f] + log, i, avail, chunk, tag) <==>
              if f.idx == i then
                f.bytes == Min(avail, chunk) && f.tag == tag && avail > 0
                && WholeChunks(log, i, avail - f.bytes, chunk, tag)
              else WholeChunks(log, i, avail, chunk, tag)
  {
    assert ([f] + log)[1..] == log;
  }

  lemma {:induction false} WholeAppend(a: seq<Fired>, b: seq<Fired>, i: int, avail: int, chunk: int, tag: int)
    requires WholeChunks(a, i, avail, chunk, tag) && WholeChunks(b, i, avail - Bytes(a, i), chunk, tag)
    ensures WholeChunks(a + b, i, avail, chunk, tag)
    decreases |a|
  {
    if a == [] {
      assert a + b == b;
    } else {
      WholeAppend(a[1..], b, i, if a[0].idx == i then avail - a[0].bytes else avail, chunk, tag);
      assert (a + b)[1..] == a[1..] + b;
    }
  }

  lemma NoneWhole(i: int, avail: int, chunk: int, tag: int)
    ensures WholeChunks([], i, avail, chunk, tag)
  {
  }

  lemma {:induction false} SkipLoopWhole(s: State, maxVt: int, num: nat, i: int)
    requires Inv(s) && s.vt <= maxVt && 0 <= i < |s.qs|
    ensures WholeChunks(SkipLoop(s, maxVt, num).1, i, s.qs[i].avail, s.qs[i].maxChunk, s.qs[i].tag)
    decreases num, |s.sorted|
  {
    hide RelTime, W32, Delta, KeysInRange, SortedByKey, Distinct, Paced, Fire, Activate, WholeChunks;
    if num == 0 || s.sorted == [] || Key(s, s.sorted[0]) > maxVt {
      NoneWhole(i, s.qs[i].avail, s.qs[i].maxChunk, s.qs[i].tag);
    } else {
      PopInv(s);
      var h := s.sorted[0];
      var p := Pop(s);
      if s.qs[h].avail > 0 {
        FireInv(p, h);
        FireAt(p, h);
        var (t, f) := Fire(p, h);
        SkipLoopWhole(t, maxVt, num - 1, i);
        WholeCons(f, SkipLoop(t, maxVt, num - 1).1, i, s.qs[i].avail, s.qs[i].maxChunk, s.qs[i].tag);
      } else {
        SkipLoopWhole(p, maxVt, num, i);
      }
    }
  }

  lemma {:induction false} UnlimitedWhole(s: State, num: nat, i: int)
    requires Inv(s) && 0 <= i < |s.qs|
    ensures WholeChunks(PollUnlimited(s, num).1, i, s.qs[i].avail, s.qs[i].maxChunk, s.qs[i].tag)
    decreases num, |s.unlimited|
  {
    hide RelTime, W32, Delta, KeysInRange, SortedByKey, Distinct, Paced, Fire, Activate, WholeChunks;
    if num == 0 || s.unlimited == [] {
      NoneWhole(i, s.qs[i].avail, s.qs[i].maxChunk, s.qs[i].tag);
    } else {
      DropInv(s);
      var h := s.unlimited[0];
      var p := s.(unlimited := s.unlimited[1..]);
      if s.qs[h].avail > 0 {
        FireInv(p, h);
        FireAt(p, h);
        var (t, f) := Fire(p, h);
        UnlimitedWhole(t, num - 1, i);
        WholeCons(f, PollUnlimited(t, num - 1).1, i, s.qs[i].avail, s.qs[i].maxChunk, s.qs[i].tag);
      } else {
        UnlimitedWhole(p, num, i);
      }
    }
  }

  /** At any time: of each queue a poll fires whole chunks, except for what is left at the end of its credit. */
  lemma PollFiresWhole(s: State, ops: seq<Op>, now: int, num: nat, unlimitedFirst: bool, i: int)
    requires Inv(s) && Legal(s, ops) && Exec(s, ops).0.rt <= now && 0 <= i < |s.qs|
    ensures var u := Exec(s, ops).0;
            WholeChunks(Poll(u, now, num, unlimitedFirst).1, i, u.qs[i].avail,
                        LastChunk(ops, i, s.qs[i].maxChunk), LastTag(ops, i, s.qs[i].tag))
  {
    hide RelTime, W32, Delta, KeysInRange, SortedByKey, Distinct, Paced, SkipLoop, PollUnlimited, WholeChunks;
    hide Exec, Legal;
    AttributesLastSet(s, ops, i);
    var u := Exec(s, ops).0;
    var q, maxVt := u.qs[i], u.vt + (now - u.rt);
    if unlimitedFirst {
      var (t, fs) := PollUnlimited(u, num);
      UnlimitedWhole(u, num, i);
      UnlimitedCredit(u, num, i);
      SkipLoopWhole(t, maxVt, num - |fs|, i);
      WholeAppend(fs, SkipLoop(t, maxVt, num - |fs|).1, i, q.avail, q.maxChunk, q.tag);
    } else {
      var (t, fs) := PollSkip(u, now, num);
      SkipLoopWhole(u, maxVt, num, i);
      SkipLoopCredit(u, maxVt, num, i);
      UnlimitedWhole(t, num - |fs|, i);
      WholeAppend(fs, PollUnlimited(t, num - |fs|).1, i, q.avail, q.maxChunk, q.tag);
    }
  }

  /** A rate-limited queue that has credit left after it fired is listed for the time its chunk takes later, neither
      before nor after that. */
  lemma FiresAgainExactly(s: State, i: int)
    requires InvBut(s, i) && s.qs[i].rate > 0 && s.qs[i].avail > s.qs[i].maxChunk
    ensures var t := Fire(s, i).0;
            && i in t.sorted && i !in t.unlimited
            && Key(t, i) == s.vt + Delta(s.qs[i].maxChunk, s.qs[i].rate)
  {
    hide RelTime, W32, Delta, KeysInRange, SortedByKey, Distinct;
    var q := s.qs[i];
    var left := q.(avail := q.avail - q.maxChunk, nextTs := NewTs(W32(s.vt), q.maxChunk, q.rate));
    var t := s.(qs := s.qs[i := left]);
    Requeue(s, i, left);
    assert Paced(t.(qs := t.qs[i := t.qs[i].(avail := 0)]).qs[i]);
    NewKey(t, i, q.maxChunk);
    var p := Activated(t, i);
    InsertMembers(t.sorted, p, i);
  }

  lemma NewKey(s: State, i: int, bytes: int)
    requires 0 <= i < |s.qs| && 0 <= bytes && s.qs[i].rate > 0 && Delta(bytes, s.qs[i].rate) < TWO31
    requires s.qs[i].nextTs == NewTs(W32(s.vt), bytes, s.qs[i].rate)
    ensures Key(s, i) == s.vt + Delta(bytes, s.qs[i].rate)
  {
    hide RelTime, Delta;
    NewTsExact(W32(s.vt), bytes, s.qs[i].rate);
  }
}
