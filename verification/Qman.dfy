/** The queue manager of one thread: a four-level skiplist and a list of unlimited queues in one array. */
module Qman {
  import opened Word
  import opened QmanSpec
  import opened SkipList

  /** Index of the lowest set bit, counted from one; 0 for 0. */
  function FindFirstSet(x: u32): int {
    if x == 0 then 0 else if x % 2 == 1 then 1 else 1 + FindFirstSet(x / 2)
  }

  class QmanThread {
    const queues: array<Queue>
    const headIdx: array<int>
    var nolimitHead: int
    var nolimitTail: int
    var tsReal: u32
    var tsVirtual: u32
    var nolimitFirst: bool

    /** The level of each queue on the skiplist, the two lists, and the times without wrap-around. */
    ghost var lvl: seq<int>
    ghost var sorted: seq<int>
    ghost var unlimited: seq<int>
    ghost var vt: int
    ghost var rt: int

    ghost function View(): State
      reads this, queues
    {
      State(Attrs(queues[..]), sorted, unlimited, vt, rt)
    }

    ghost predicate Valid()
      reads this, queues, headIdx
    {
      && Linked(queues[..], headIdx[..], nolimitHead, nolimitTail, lvl, sorted, unlimited)
      && tsVirtual == W32(vt) && tsReal == W32(rt)
    }

    constructor (n: nat, now: int)
      ensures Valid() && fresh(queues) && fresh(headIdx) && queues.Length == n
      ensures View() == State(seq(n, i => Attr(0, 0, 0, 0, 0)), [], [], 0, now)
    {
      queues := new Queue[n](i => Queue([0, 0, 0, 0], 0, 0, 0, 0, 0, false, false));
      headIdx := new int[4](i => INVALID);
      nolimitHead, nolimitTail := INVALID, INVALID;
      tsReal, tsVirtual, nolimitFirst := W32(now), 0, false;
      lvl, sorted, unlimited, vt, rt := seq(n, i => 0), [], [], 0, now;
    }

    /** Level for a queue added to the skiplist: three random bits per level. */
    method QueueLevel() returns (level: int)
      ensures 0 <= level < LEVELS
    {
      var x: u32 := *;
      var y := if x == 0 then 0 else (FindFirstSet(x) - 1) / 3;
      level := if 0 <= y < LEVELS then y else LEVELS - 1;
    }

    /** The last queue on every level whose time is not after `ts`, found top-down. */
    method FindPreds(ts: u32, ghost p: int) returns (preds: seq<int>)
      requires Valid()
      requires 0 <= p <= |sorted|
      requires forall j {:trigger sorted[j]} :: 0 <= j < |sorted| ==>
                 (LessEq(tsVirtual, queues[sorted[j]].nextTs, ts) <==> j < p)
      ensures |preds| == LEVELS
      ensures Ids(|lvl|, sorted[..p]) && Ids(|lvl|, sorted[p..])
      ensures forall l {:trigger preds[l]} :: 0 <= l < LEVELS ==> preds[l] == LastOf(Filter(sorted[..p], lvl, l))
    {
      hide RelTime, W32, LessEq, Linked, Filter;
      LinkedIds();
      ghost var a, b := sorted[..p], sorted[p..];
      assert sorted == a + b;
      IdsSplit(|lvl|, a, b);
      preds := [INVALID, INVALID, INVALID, INVALID];
      var pred := INVALID;
      var l := LEVELS - 1;
      while l >= 0
        invariant -1 <= l < LEVELS && |preds| == LEVELS
        invariant l == LEVELS - 1 ==> pred == INVALID
        invariant l < LEVELS - 1 ==> pred == LastOf(Filter(a, lvl, l + 1))
        invariant forall k {:trigger preds[k]} :: l < k < LEVELS ==> preds[k] == LastOf(Filter(a, lvl, k))
      {
        pred := SearchLevel(ts, p, l, pred);
        preds := preds[l := pred];
        l := l - 1;
      }
    }

    /** Walk along level `l`, starting at the predecessor found one level up. */
    method SearchLevel(ts: u32, ghost p: int, l: int, start: int) returns (pred: int)
      requires Valid()
      requires 0 <= p <= |sorted| && 0 <= l < LEVELS
      requires forall j {:trigger sorted[j]} :: 0 <= j < |sorted| ==>
                 (LessEq(tsVirtual, queues[sorted[j]].nextTs, ts) <==> j < p)
      requires Ids(|lvl|, sorted[..p])
      requires start == INVALID || start == LastOf(Filter(sorted[..p], lvl, l + 1))
      ensures pred == LastOf(Filter(sorted[..p], lvl, l))
    {
      hide RelTime, W32, LessEq, Linked, Filter, Distinct;
      ghost var fa, fb := SplitLevel(p, l);
      LevelChain(l);
      SplitTimes(ts, p, l, fa, fb);
      if start != INVALID {
        UpperIsLower(p, l, start);
      }
      assert (fa + fb)[..|fa|] == fa;
      pred := Walk(ts, l, headIdx[l], start, fa + fb, |fa|);
    }

    /** Walk along a chain to the last queue whose time is not after `ts`. */
    method Walk(ts: u32, l: int, first: int, start: int, ghost list: seq<int>, ghost n: int)
      returns (pred: int)
      requires 0 <= l < LEVELS && Levelled(queues[..]) && Chain(queues[..], first, list, l)
      requires 0 <= n <= |list|
      requires forall x {:trigger list[x]} :: 0 <= x < |list| ==>
                 (LessEq(tsVirtual, queues[list[x]].nextTs, ts) <==> x < n)
      requires start == INVALID || start in list[..n]
      ensures pred == LastOf(list[..n])
    {
      hide RelTime, W32, LessEq, Chain;
      ChainFirst(queues[..], first, list, l);
      ghost var j := 0;
      pred := start;
      var idx := if pred != INVALID then pred else first;
      if pred != INVALID {
        j :| 0 <= j < n && list[..n][j] == pred;
      }
      while idx != INVALID && LessEq(tsVirtual, queues[idx].nextTs, ts)
        invariant 0 <= j <= n && idx == At(list, j)
        invariant idx != INVALID ==> j < |list| && 0 <= idx < queues.Length
        invariant pred == (if j == 0 then INVALID else list[j - 1]) || (pred == idx && j < n)
        decreases |list| - j
      {
        pred := idx;
        ChainNext(queues[..], first, list, l, j);
        idx := queues[idx].next[l];
        j := j + 1;
      }
    }

    lemma LevelChain(l: int)
      requires Valid() && 0 <= l < LEVELS
      ensures headIdx.Length == LEVELS && Levelled(queues[..]) && Ids(|lvl|, sorted)
      ensures Chain(queues[..], headIdx[l], Filter(sorted, lvl, l), l)
    {
      assert headIdx[l] == headIdx[..][l];
    }

    lemma LinkedIds()
      requires Valid()
      ensures Ids(|lvl|, sorted) && |lvl| == queues.Length
    {
    }

    /** A level of the skiplist, split where the times pass `ts`. */
    ghost method SplitLevel(p: int, l: int) returns (fa: seq<int>, fb: seq<int>)
      requires Valid() && 0 <= p <= |sorted| && 0 <= l < LEVELS && Ids(|lvl|, sorted[..p])
      ensures fa == Filter(sorted[..p], lvl, l)
      ensures Ids(|lvl|, sorted[p..]) && fb == Filter(sorted[p..], lvl, l)
      ensures fa + fb == Filter(sorted, lvl, l)
    {
      assert sorted == sorted[..p] + sorted[p..];
      IdsSplit(|lvl|, sorted[..p], sorted[p..]);
      fa, fb := Filter(sorted[..p], lvl, l), Filter(sorted[p..], lvl, l);
      FilterAppend(sorted[..p], sorted[p..], lvl, l);
    }

    lemma SplitTimes(ts: u32, p: int, l: int, fa: seq<int>, fb: seq<int>)
      requires Valid() && 0 <= p <= |sorted| && 0 <= l < LEVELS
      requires forall j {:trigger sorted[j]} :: 0 <= j < |sorted| ==>
                 (LessEq(tsVirtual, queues[sorted[j]].nextTs, ts) <==> j < p)
      requires Ids(|lvl|, sorted[..p]) && Ids(|lvl|, sorted[p..])
      requires fa == Filter(sorted[..p], lvl, l) && fb == Filter(sorted[p..], lvl, l)
      ensures forall x :: x in fa ==> 0 <= x < queues.Length && LessEq(tsVirtual, queues[x].nextTs, ts)
      ensures forall x :: x in fb ==> 0 <= x < queues.Length && !LessEq(tsVirtual, queues[x].nextTs, ts)
    {
      hide RelTime, W32, LessEq;
      FilterIn(sorted[..p], lvl, l);
      FilterIn(sorted[p..], lvl, l);
      forall x | x in fa
        ensures 0 <= x < queues.Length && LessEq(tsVirtual, queues[x].nextTs, ts)
      {
        var j :| 0 <= j < p && sorted[..p][j] == x;
        assert sorted[j] == x;
      }
      forall x | x in fb
        ensures 0 <= x < queues.Length && !LessEq(tsVirtual, queues[x].nextTs, ts)
      {
        var j :| 0 <= j < |sorted| - p && sorted[p..][j] == x;
        assert sorted[p + j] == x;
      }
    }

    lemma UpperIsLower(p: int, l: int, pred: int)
      requires 0 <= p <= |sorted| && 0 <= l < LEVELS && Ids(|lvl|, sorted[..p])
      requires pred == LastOf(Filter(sorted[..p], lvl, l + 1)) && pred != INVALID
      ensures pred in Filter(sorted[..p], lvl, l)
    {
      FilterIn(sorted[..p], lvl, l);
      FilterIn(sorted[..p], lvl, l + 1);
    }

    // ---------------------------------------------------------- insertion

    /** Link queue `i` on level `l`, behind `pred`. */
    method LinkAt(i: int, pred: int, l: int, ghost fa: seq<int>, ghost fb: seq<int>)
      requires 0 <= l < LEVELS && 0 <= i < queues.Length && headIdx.Length == LEVELS
      requires Levelled(queues[..]) && Chain(queues[..], headIdx[l], fa + fb, l)
      requires Distinct(fa + fb) && i !in fa + fb && pred == LastOf(fa)
      modifies queues, headIdx
      ensures Levelled(queues[..])
      ensures forall x {:trigger queues[x]} :: 0 <= x < queues.Length ==>
                queues[x] == old(queues[x]).(next := queues[x].next)
      ensures forall x, k :: 0 <= x < queues.Length && 0 <= k < LEVELS && k != l ==>
                queues[x].next[k] == old(queues[x]).next[k]
      ensures Chain(queues[..], headIdx[l], fa + [i] + fb, l)
      ensures forall k :: 0 <= k < LEVELS && k != l ==> headIdx[k] == old(headIdx[k])
      ensures forall x :: 0 <= x < queues.Length && x != i && x !in fa ==> queues[x] == old(queues[x])
    {
      ghost var list := fa + fb;
      ghost var qs := queues[..];
      if pred != INVALID {
        assert list[|fa| - 1] == pred && qs[list[|fa| - 1]].next[l] == At(list, |fa|);
        queues[i] := queues[i].(next := queues[i].next[l := queues[pred].next[l]]);
        queues[pred] := queues[pred].(next := queues[pred].next[l := i]);
      } else {
        queues[i] := queues[i].(next := queues[i].next[l := headIdx[l]]);
        headIdx[l] := i;
      }
      ChainInsert(qs, queues[..], old(headIdx[l]), headIdx[l], fa, fb, i, l);
    }

    /** Link queue `i` on all levels up to `level`. */
    method LinkLevels(i: int, preds: seq<int>, level: int, ghost a: seq<int>, ghost b: seq<int>,
                      ghost above: seq<seq<int>>, ghost below: seq<seq<int>>)
      requires Valid() && 0 <= i < queues.Length && i !in sorted && i !in unlimited
      requires 0 <= level < LEVELS && |preds| == LEVELS
      requires sorted == a + b && Ids(|lvl|, a) && Ids(|lvl|, b) && Ids(|lvl|, a + [i] + b)
      requires forall l {:trigger preds[l]} :: 0 <= l < LEVELS ==> preds[l] == LastOf(Filter(a, lvl, l))
      requires above == Levels(a + [i] + b, lvl[i := level]) && below == Levels(sorted, lvl)
      modifies queues, headIdx
      ensures forall x {:trigger queues[x]} :: 0 <= x < queues.Length ==>
                queues[x] == old(queues[x]).(next := queues[x].next)
      ensures ChainsBut(queues[..], headIdx[..], nolimitHead, unlimited, -1, above, below)
    {
      LevelParts(a, b, lvl, 0, i, level);
      var l := LEVELS - 1;
      while l >= 0
        invariant -1 <= l < LEVELS
        invariant forall x {:trigger queues[x]} :: 0 <= x < queues.Length ==>
                    queues[x] == old(queues[x]).(next := queues[x].next)
        invariant ChainsBut(queues[..], headIdx[..], nolimitHead, unlimited, l, above, below)
        invariant l >= 0 ==> Chain(queues[..], headIdx[l], below[l], l)
      {
        FilterAppend(a, b, lvl, l);
        LinkLevel(i, preds[l], l, level, a, b, above, below);
        l := l - 1;
      }
    }

    method LinkLevel(i: int, pred: int, l: int, level: int, ghost a: seq<int>, ghost b: seq<int>,
                     ghost above: seq<seq<int>>, ghost below: seq<seq<int>>)
      requires 0 <= l < LEVELS && 0 <= i < queues.Length && i !in unlimited
      requires ChainsBut(queues[..], headIdx[..], nolimitHead, unlimited, l, above, below)
      requires Chain(queues[..], headIdx[l], below[l], l)
      requires Ids(|lvl|, a) && Ids(|lvl|, b) && Distinct(a + b) && i !in a && i !in b && |lvl| == queues.Length
      requires below[l] == Filter(a, lvl, l) + Filter(b, lvl, l)
      requires Ids(|lvl|, a + [i] + b) && above[l] == Filter(a + [i] + b, lvl[i := level], l)
      requires pred == LastOf(Filter(a, lvl, l))
      requires forall x :: x in a ==> x !in unlimited
      modifies queues, headIdx
      ensures forall x {:trigger queues[x]} :: 0 <= x < queues.Length ==>
                queues[x] == old(queues[x]).(next := queues[x].next)
      ensures ChainsBut(queues[..], headIdx[..], nolimitHead, unlimited, l - 1, above, below)
      ensures l > 0 ==> Chain(queues[..], headIdx[l - 1], below[l - 1], l - 1)
    {
      hide Filter, Chain, Distinct;
      ghost var qs, hs := queues[..], headIdx[..];
      ghost var fa, fb := Filter(a, lvl, l), Filter(b, lvl, l);
      LevelParts(a, b, lvl, l, i, level);
      if l > level {
        queues[i] := queues[i].(next := queues[i].next[l := INVALID]);
        ChainFrame(qs, queues[..], headIdx[l], fa + fb, l);
      } else {
        LinkAt(i, pred, l, fa, fb);
      }
      OtherChains(qs, queues[..], hs, headIdx[..], nolimitHead, unlimited, l, above, below);
    }

    /** The queues that may fire no later than `ts` come first. */
    lemma AheadExact(ts: u32)
      requires Valid() && SortedByKey(View())
      ensures var p := Ahead(View().qs, tsVirtual, sorted, ts);
              forall j {:trigger sorted[j]} :: 0 <= j < |sorted| ==>
                (LessEq(tsVirtual, queues[sorted[j]].nextTs, ts) <==> j < p)
    {
      hide RelTime, W32, Linked;
      LinkedIds();
      var s := View();
      var p := Ahead(s.qs, tsVirtual, sorted, ts);
      forall j {:trigger sorted[j]} | 0 <= j < |sorted|
        ensures LessEq(tsVirtual, queues[sorted[j]].nextTs, ts) <==> j < p
      {
        assert s.qs[sorted[j]].nextTs == queues[sorted[j]].nextTs;
        if j > p {
          assert Key(s, sorted[p]) <= Key(s, sorted[j]);
        }
      }
    }

    /** Add queue `i` to the skiplist. */
    method ActivateSkiplist(i: int)
      requires Valid() && 0 <= i < queues.Length && i !in sorted && i !in unlimited
      requires queues[i].rate > 0 && SortedByKey(View())
      modifies this, queues, headIdx
      ensures Valid() && View() == QmanSpec.Activate(old(View()), i)
      ensures tsReal == old(tsReal) && nolimitFirst == old(nolimitFirst)
    {
      hide RelTime, W32, Delta, Linked, Chain, Filter, SortedByKey, LessEq;
      LinkedIds();
      ghost var qs := queues[..];
      var ts := queues[i].nextTs;
      var maxTs := NewTs(tsVirtual, queues[i].maxChunk, queues[i].rate);
      if LessEq(tsVirtual, ts, tsVirtual) {
        ts := tsVirtual;
      } else if !LessEq(tsVirtual, ts, maxTs) {
        ts := maxTs;
      }
      ghost var p := Ahead(Attrs(qs), tsVirtual, sorted, ts);
      AheadExact(ts);
      queues[i] := queues[i].(nextTs := ts);
      LinkedSame(qs, queues[..], headIdx[..], nolimitHead, nolimitTail, lvl, sorted, unlimited);
      var preds := FindPreds(ts, p);
      var level := QueueLevel();
      InsertLinks(i, preds, level, p);
      assert Attrs(queues[..]) == Attrs(qs)[i := Attrs(qs)[i].(nextTs := ts)];
    }

    /** Link queue `i` into the skiplist behind the first `p` queues. */
    method InsertLinks(i: int, preds: seq<int>, level: int, ghost p: int)
      requires Valid() && 0 <= i < queues.Length && i !in sorted && i !in unlimited
      requires 0 <= level < LEVELS && |preds| == LEVELS && 0 <= p <= |sorted|
      requires Ids(|lvl|, sorted[..p]) && Ids(|lvl|, sorted[p..])
      requires forall l {:trigger preds[l]} :: 0 <= l < LEVELS ==> preds[l] == LastOf(Filter(sorted[..p], lvl, l))
      modifies queues, headIdx, `lvl, `sorted
      ensures Valid() && sorted == Insert(old(sorted), p, i)
      ensures forall x {:trigger queues[x]} :: 0 <= x < queues.Length ==>
                AttrOf(queues[x]) == AttrOf(old(queues[x]))
    {
      hide W32, Filter;
      ghost var qs, hs := queues[..], headIdx[..];
      ghost var a, b := sorted[..p], sorted[p..];
      assert sorted == a + b;
      LevelIds(a, b, lvl, i);
      ghost var lvl', sorted' := lvl[i := level], a + [i] + b;
      LinkLevels(i, preds, level, a, b, Levels(sorted', lvl'), Levels(sorted, lvl));
      ghost var ls := queues[..];
      queues[i] := queues[i].(inSkiplist := true);
      LinkedInserted(qs, ls, queues[..], hs, headIdx[..], nolimitHead, nolimitTail,
                     lvl, lvl', sorted, sorted', unlimited, i, p);
      lvl, sorted := lvl', sorted';
    }

    /** Add queue `i` at the end of the unlimited list. */
    method ActivateNolimit(i: int)
      requires Valid() && 0 <= i < queues.Length && i !in sorted && i !in unlimited
      requires queues[i].rate == 0
      modifies this, queues
      ensures Valid() && View() == QmanSpec.Activate(old(View()), i)
      ensures tsReal == old(tsReal) && nolimitFirst == old(nolimitFirst)
    {
      hide RelTime, W32, Filter;
      ghost var qs := queues[..];
      queues[i] := queues[i].(inNoLimit := true, next := queues[i].next[0 := INVALID]);
      if nolimitTail == INVALID {
        nolimitHead, nolimitTail := i, i;
      } else {
        queues[nolimitTail] := queues[nolimitTail].(next := queues[nolimitTail].next[0 := i]);
        nolimitTail := i;
      }
      LinkedAppended(qs, queues[..], headIdx[..], old(nolimitHead), nolimitHead, old(nolimitTail),
                     lvl, sorted, unlimited, i);
      unlimited := unlimited + [i];
      assert Attrs(queues[..]) == Attrs(qs);
    }

    /** Add queue `i` to the list its rate asks for. */
    method Activate(i: int)
      requires Valid() && InvBut(View(), i)
      modifies this, queues, headIdx
      ensures Valid() && View() == QmanSpec.Activate(old(View()), i)
      ensures tsReal == old(tsReal) && nolimitFirst == old(nolimitFirst)
    {
      hide RelTime, W32, Delta, Linked;
      UnlistedSorted(View(), i);
      if queues[i].rate == 0 {
        ActivateNolimit(i);
      } else {
        ActivateSkiplist(i);
      }
    }

    // ---------------------------------------------------------- firing

    /** Queue `i`, which is on no list, sends one chunk. */
    method Fire(i: int) returns (shot: Shot, ghost f: Fired)
      requires Valid() && InvBut(View(), i)
      modifies this, queues, headIdx
      ensures Valid() && (View(), f) == QmanSpec.Fire(old(View()), i) && shot == ShotOf(f)
      ensures tsReal == old(tsReal) && nolimitFirst == old(nolimitFirst)
    {
      hide RelTime, W32, Delta, Linked, InvBut, QmanSpec.Activate;
      UnlistedSorted(View(), i);
      ghost var s := View();
      ghost var qs := queues[..];
      var q := queues[i];
      var bytes := if q.avail <= q.maxChunk then q.avail else q.maxChunk;
      queues[i] := q.(avail := q.avail - bytes);
      if q.rate > 0 {
        queues[i] := queues[i].(nextTs := NewTs(tsVirtual, bytes, q.rate));
      }
      LinkedSame(qs, queues[..], headIdx[..], nolimitHead, nolimitTail, lvl, sorted, unlimited);
      assert Attrs(queues[..]) == s.qs[i := AttrOf(queues[i])];
      shot, f := Shot(i, bytes, q.tag), Fired(i, bytes, q.tag, vt);
      Requeue(s, i, AttrOf(queues[i]));
      if queues[i].avail > 0 {
        Activate(i);
      }
    }

    // ---------------------------------------------------------- polling

    /** Take the first queue off the skiplist. */
    method RemoveFirst(idx: int)
      requires Valid() && sorted != [] && idx == sorted[0]
      modifies queues, headIdx, `sorted
      ensures Valid() && sorted == old(sorted)[1..]
      ensures Attrs(queues[..]) == old(Attrs(queues[..]))
    {
      hide RelTime, W32, Filter, Distinct, Chain;
      LinkedIds();
      IdsTail(|lvl|, sorted);
      ghost var rest := sorted[1..];
      ghost var qs := queues[..];
      var l := 0;
      while l < LEVELS && headIdx[l] == idx
        invariant 0 <= l <= LEVELS && headIdx.Length == LEVELS && queues[..] == qs && sorted == old(sorted)
        invariant forall k {:trigger headIdx[k]} :: 0 <= k < l ==> Chain(qs, headIdx[k], Filter(rest, lvl, k), k)
        invariant forall k {:trigger headIdx[k]} :: l <= k < LEVELS ==> Chain(qs, headIdx[k], Filter(sorted, lvl, k), k)
      {
        LevelHead(qs, headIdx[l], sorted, lvl, l);
        headIdx[l] := queues[idx].next[l];
        l := l + 1;
      }
      if l < LEVELS {
        LevelHead(qs, headIdx[l], sorted, lvl, l);
      }
      queues[idx] := queues[idx].(inSkiplist := false);
      LinkedRemoved(qs, queues[..], old(headIdx[..]), headIdx[..], nolimitHead, nolimitTail, lvl, sorted, unlimited, l);
      sorted := rest;
      assert Attrs(queues[..]) == Attrs(qs);
    }

    /** The first queue of the skiplist heads the bottom level. */
    lemma HeadIs()
      requires Valid()
      ensures headIdx.Length == LEVELS && headIdx[0] == At(sorted, 0) && Ids(queues.Length, sorted)
    {
      FilterBottom(sorted, lvl);
      assert headIdx[0] == headIdx[..][0];
    }

    lemma KeyTime(idx: int, maxVt: int)
      requires Valid() && 0 <= idx < queues.Length && vt <= maxVt < vt + TWO31
      ensures LessEq(tsVirtual, queues[idx].nextTs, W32(maxVt)) <==> Key(View(), idx) <= maxVt
      ensures queues[idx].nextTs == W32(Key(View(), idx))
    {
      RelTimeExact(vt, maxVt);
      RelTimeRange(tsVirtual, queues[idx].nextTs);
      Rebase(vt, Key(View(), idx) - vt);
    }

    /** The first queue of the skiplist is due: advance virtual time to it, and fire it if it has credit. */
    method FireFirst(idx: int) returns (out: seq<Shot>, ghost log: seq<Fired>)
      requires Valid() && Inv(View()) && sorted != [] && idx == sorted[0] && 0 <= idx < queues.Length
      modifies this, queues, headIdx
      ensures Valid() && tsReal == old(tsReal) && nolimitFirst == old(nolimitFirst)
      ensures var p := Pop(old(View()));
              if p.qs[idx].avail > 0 then
                InvBut(p, idx) && |log| == 1 && (View(), log[0]) == QmanSpec.Fire(p, idx)
              else
                View() == p && log == []
      ensures Inv(View()) && out == Shots(log)
    {
      hide RelTime, W32, Delta, Linked, KeysInRange, SortedByKey, Distinct, Paced, QmanSpec.Fire, QmanSpec.Activate;
      out, log := [], [];
      PopInv(View());
      ghost var p := Pop(View());
      KeyTime(idx, vt);
      RemoveFirst(idx);
      tsVirtual, vt := queues[idx].nextTs, p.vt;
      assert View() == p;
      if queues[idx].avail > 0 {
        FireInv(p, idx);
        var shot, f := Fire(idx);
        out, log := [shot], [f];
      }
    }

    /** Take the first queue if it is due by virtual time `maxVt`, whose 32 bits are `maxVts`, and fire it. */
    method FireNext(maxVts: u32, ghost maxVt: int, ghost num: nat)
      returns (more: bool, out: seq<Shot>, ghost log: seq<Fired>)
      requires Valid() && Inv(View()) && vt <= maxVt < vt + TWO31 && maxVts == W32(maxVt) && num > 0
      modifies this, queues, headIdx
      ensures Valid() && Inv(View()) && vt <= maxVt < vt + TWO31 && rt == old(rt) && nolimitFirst == old(nolimitFirst)
      ensures out == Shots(log) && |log| <= 1
      ensures !more ==> (sorted == [] || Key(View(), sorted[0]) > maxVt) && View() == old(View()) && log == []
      ensures more ==>
                && SkipLoop(old(View()), maxVt, num)
                   == (SkipLoop(View(), maxVt, num - |log|).0, log + SkipLoop(View(), maxVt, num - |log|).1)
                && (|log| > 0 || |sorted| < |old(sorted)|)
    {
      hide RelTime, W32, Delta, Inv, QmanSpec.Fire, LessEq, Shots, SkipLoop, Valid, Pop, Key;
      more, out, log := false, [], [];
      ShotsAppend([], []);
      HeadIs();
      var idx := headIdx[0];
      if idx == INVALID {
        return;
      }
      KeyTime(idx, maxVt);
      if !LessEq(tsVirtual, queues[idx].nextTs, maxVts) {
        return;
      }
      ghost var s := View();
      out, log := FireFirst(idx);
      SkipLoopStep(s, maxVt, num, View(), log);
      more := true;
    }

    /** Fire due queues up to virtual time `maxVt`, whose 32 bits are `maxVts`. */
    method FireDue(maxVts: u32, ghost maxVt: int, num: nat) returns (out: seq<Shot>, ghost log: seq<Fired>)
      requires Valid() && Inv(View()) && vt <= maxVt < vt + TWO31 && maxVts == W32(maxVt)
      modifies this, queues, headIdx
      ensures Valid() && Inv(View()) && vt <= maxVt < vt + TWO31 && rt == old(rt) && nolimitFirst == old(nolimitFirst)
      ensures |out| <= num && out == Shots(log)
      ensures |out| == num || sorted == [] || Key(View(), sorted[0]) > maxVt
      ensures SkipLoop(old(View()), maxVt, num) == Then(log, SkipLoop(View(), maxVt, num - |log|))
    {
      hide RelTime, W32, Delta, Inv, Shots, SkipLoop, Then, Valid, Key;
      ghost var all := SkipLoop(View(), maxVt, num);
      ThenNone(all);
      ShotsAppend([], []);
      out, log := [], [];
      while |out| < num
        invariant Valid() && Inv(View()) && |out| <= num && out == Shots(log) && rt == old(rt)
        invariant vt <= maxVt < vt + TWO31 && nolimitFirst == old(nolimitFirst)
        invariant all == Then(log, SkipLoop(View(), maxVt, num - |log|))
        decreases num - |log|, |sorted|
      {
        var more, one, f := FireNext(maxVts, maxVt, num - |log|);
        if !more {
          break;
        }
        ThenMore(log, f, SkipLoop(View(), maxVt, num - |log| - |f|));
        ShotsAppend(log, f);
        out, log := out + one, log + f;
      }
    }

    /** Poll the rate-limited queues at real time `now`. */
    method PollSkiplist(now: int, num: nat) returns (out: seq<Shot>, ghost log: seq<Fired>)
      requires Valid() && Inv(View()) && rt <= now < rt + TWO31
      modifies this, queues, headIdx
      ensures Valid() && (View(), log) == PollSkip(old(View()), now, num) && out == Shots(log)
      ensures nolimitFirst == old(nolimitFirst)
    {
      hide RelTime, W32, Delta, Linked, Inv, QmanSpec.Fire, LessEq, Shots, SkipLoop, Then;
      var maxVts := Add32(tsVirtual, Sub32(W32(now), tsReal));
      ghost var maxVt := vt + (now - rt);
      Elapsed(vt, rt, now);
      out, log := FireDue(maxVts, maxVt, num);
      HeadIs();
      SkipLoopEnd(View(), maxVt, num - |log|, log);
      Finish(now, maxVts, maxVt, |out| == num);
    }

    /** Set the times at the end of a poll. */
    method Finish(now: int, maxVts: u32, ghost maxVt: int, full: bool)
      requires Valid() && Inv(View()) && vt <= maxVt < vt + TWO31 && maxVts == W32(maxVt)
      requires full || sorted == [] || Key(View(), sorted[0]) > maxVt
      modifies `tsVirtual, `tsReal, `vt, `rt
      ensures Valid() && View() == Rest(old(View()), maxVt).(rt := now)
    {
      hide RelTime, W32, Delta, Linked, KeysInRange, SortedByKey, Distinct, Paced, LessEq;
      HeadIs();
      var idx := headIdx[0];
      if idx != INVALID {
        KeyTime(idx, maxVt);
      }
      if full && idx != INVALID && LessEq(tsVirtual, queues[idx].nextTs, maxVts) {
        tsVirtual, vt := queues[idx].nextTs, Key(View(), idx);
      } else {
        tsVirtual, vt := maxVts, maxVt;
      }
      tsReal, rt := W32(now), now;
    }

    /** Take the first queue off the unlimited list. */
    method RemoveFirstUnlimited() returns (idx: int)
      requires Valid() && unlimited != []
      modifies queues, `nolimitHead, `nolimitTail, `unlimited
      ensures Valid() && idx == old(unlimited)[0] && unlimited == old(unlimited)[1..]
      ensures 0 <= idx < queues.Length && Attrs(queues[..]) == old(Attrs(queues[..]))
    {
      hide RelTime, W32, Filter;
      ghost var qs := queues[..];
      idx := nolimitHead;
      ChainTail(qs, nolimitHead, unlimited, 0);
      nolimitHead := queues[idx].next[0];
      if queues[idx].next[0] == INVALID {
        nolimitTail := INVALID;
      }
      queues[idx] := queues[idx].(inNoLimit := false);
      LinkedDropped(qs, queues[..], headIdx[..], old(nolimitHead), nolimitHead, old(nolimitTail), nolimitTail,
                    lvl, sorted, unlimited);
      unlimited := unlimited[1..];
      assert Attrs(queues[..]) == Attrs(qs);
    }

    /** Take the first unlimited queue off its list, and fire it if it has credit. */
    method FireFirstUnlimited() returns (out: seq<Shot>, ghost log: seq<Fired>)
      requires Valid() && Inv(View()) && unlimited != []
      modifies this, queues, headIdx
      ensures Valid() && tsReal == old(tsReal) && nolimitFirst == old(nolimitFirst)
      ensures var i, p := old(unlimited[0]), old(View()).(unlimited := old(unlimited)[1..]);
              && 0 <= i < |p.qs|
              && if p.qs[i].avail > 0 then
                   InvBut(p, i) && |log| == 1 && (View(), log[0]) == QmanSpec.Fire(p, i)
                 else
                   View() == p && log == []
      ensures Inv(View()) && out == Shots(log)
    {
      hide RelTime, W32, Delta, Linked, KeysInRange, SortedByKey, Distinct, Paced, QmanSpec.Fire, QmanSpec.Activate;
      out, log := [], [];
      DropInv(View());
      ghost var p := View().(unlimited := unlimited[1..]);
      var idx := RemoveFirstUnlimited();
      assert View() == p;
      if queues[idx].avail > 0 {
        FireInv(p, idx);
        var shot, f := Fire(idx);
        out, log := [shot], [f];
      }
    }

    /** Poll the unlimited queues. */
    method PollNolimit(num: nat) returns (out: seq<Shot>, ghost log: seq<Fired>)
      requires Valid() && Inv(View())
      modifies this, queues, headIdx
      ensures Valid() && (View(), log) == PollUnlimited(old(View()), num) && out == Shots(log)
      ensures nolimitFirst == old(nolimitFirst)
    {
      hide RelTime, W32, Delta, Linked, Inv, QmanSpec.Fire, Shots, PollUnlimited, Then;
      ghost var all := PollUnlimited(View(), num);
      ThenNone(all);
      ShotsAppend([], []);
      out, log := [], [];
      UnlimitedHead();
      while |out| < num && nolimitHead != INVALID
        invariant Valid() && Inv(View()) && |out| <= num && out == Shots(log) && nolimitFirst == old(nolimitFirst)
        invariant nolimitHead == At(unlimited, 0) && Ids(queues.Length, unlimited)
        invariant all == Then(log, PollUnlimited(View(), num - |log|))
        decreases num - |log|, |unlimited|
      {
        ghost var s := View();
        var one, f := FireFirstUnlimited();
        UnlimitedStep(s, num - |log|, View(), f);
        ThenMore(log, f, PollUnlimited(View(), num - |log| - |f|));
        ShotsAppend(log, f);
        out, log := out + one, log + f;
        UnlimitedHead();
      }
      UnlimitedEnd(View(), num - |log|, log);
    }

    lemma UnlimitedHead()
      requires Valid()
      ensures nolimitHead == At(unlimited, 0) && Ids(queues.Length, unlimited)
    {
    }

    /** Poll both lists, alternating which comes first. */
    method Poll(now: int, num: nat) returns (out: seq<Shot>, ghost log: seq<Fired>)
      requires Valid() && Inv(View()) && rt <= now < rt + TWO31
      modifies this, queues, headIdx
      ensures Valid() && (View(), log) == QmanSpec.Poll(old(View()), now, num, old(nolimitFirst))
      ensures out == Shots(log)
      ensures nolimitFirst == !old(nolimitFirst)
    {
      hide RelTime, W32, Delta, Linked, KeysInRange, SortedByKey, Distinct, Paced, PollSkip, PollUnlimited;
      var x, y;
      ghost var fs, gs;
      if nolimitFirst {
        x, fs := PollNolimit(num);
        y, gs := PollSkiplist(now, num - |x|);
      } else {
        x, fs := PollSkiplist(now, num);
        y, gs := PollNolimit(num - |x|);
      }
      nolimitFirst := !nolimitFirst;
      out, log := x + y, fs + gs;
    }

    /** Overwrite the attributes of a queue that the flags ask for. */
    method Overwrite(i: int, rate: u32, avail: u32, maxChunk: u16, tag: int, flags: Flags) returns (newAvail: bool)
      requires Valid() && 0 <= i < queues.Length
      modifies queues
      ensures Valid() && newAvail == (flags.setAvail || flags.addAvail)
      ensures var s := old(View());
              View() == s.(qs := s.qs[i := Updated(s.qs[i], rate, avail, maxChunk, tag, flags)])
    {
      hide RelTime, W32, Add32, Delta, Linked, Distinct, Ids, SameLinks;
      ghost var s := View();
      ghost var qs := queues[..];
      newAvail := false;
      if flags.setRate {
        queues[i] := queues[i].(rate := rate);
      }
      if flags.setChunk {
        queues[i] := queues[i].(maxChunk := maxChunk);
      }
      if flags.setTag {
        queues[i] := queues[i].(tag := tag);
      }
      if flags.setAvail {
        queues[i] := queues[i].(avail := avail);
        newAvail := true;
      } else if flags.addAvail {
        queues[i] := queues[i].(avail := Add32(queues[i].avail, avail));
        newAvail := true;
      }
      ghost var q := queues[i];
      assert queues[..] == qs[i := q];
      SameLinksAt(qs, i, q);
      LinkedSame(qs, queues[..], headIdx[..], nolimitHead, nolimitTail, lvl, sorted, unlimited);
      assert AttrOf(q) == Updated(s.qs[i], rate, avail, maxChunk, tag, flags);
      assert Attrs(queues[..]) == s.qs[i := AttrOf(q)];
    }

    /** Update queue `i`, and list it if it has new credit. */
    method Set(i: int, rate: u32, avail: u32, maxChunk: u16, tag: int, flags: Flags) returns (ok: bool)
      requires Valid() && Inv(View()) && 0 <= i
      requires i < queues.Length ==> Paced(Updated(View().qs[i], rate, avail, maxChunk, tag, flags))
      modifies this, queues, headIdx
      ensures Valid() && ok == (i < queues.Length)
      ensures View() == if ok then QmanSpec.Set(old(View()), i, rate, avail, maxChunk, tag, flags) else old(View())
    {
      hide RelTime, W32, Add32, Delta, Linked, KeysInRange, SortedByKey, Distinct, Paced, Ids, QmanSpec.Activate,
        Updated;
      if i >= queues.Length {
        return false;
      }
      ghost var s := View();
      var newAvail := Overwrite(i, rate, avail, maxChunk, tag, flags);
      UpdatedTime(s.qs[i], rate, avail, maxChunk, tag, flags);
      SetInv(s, i, View().qs[i]);
      ListedFlags(i);
      if newAvail && queues[i].avail > 0 && !queues[i].inSkiplist && !queues[i].inNoLimit {
        Activate(i);
      }
      ok := true;
    }

    lemma ListedFlags(i: int)
      requires Valid() && 0 <= i < queues.Length
      ensures queues[i].inSkiplist <==> i in sorted
      ensures queues[i].inNoLimit <==> i in unlimited
    {
      assert queues[..][i] == queues[i];
    }
  }

  /** The lists are sorted whatever an unlisted queue holds. */
  lemma UnlistedSorted(s: State, i: int)
    requires InvBut(s, i)
    ensures 0 <= i < |s.qs| && SortedByKey(s) && (s.qs[i].rate == 0 || Paced(s.qs[i]))
    ensures i !in s.sorted && i !in s.unlimited
  {
    hide RelTime, W32, Delta;
    var z := s.(qs := s.qs[i := s.qs[i].(avail := 0)]);
    SameKeys(z, s);
    assert Paced(z.qs[i]);
  }

  /** Virtual time after the real time since the last poll. */
  lemma Elapsed(vt: int, rt: int, now: int)
    requires rt <= now < rt + TWO31
    ensures Add32(W32(vt), Sub32(W32(now), W32(rt))) == W32(vt + (now - rt))
  {
    hide W32;
    W32Shift(rt, now - rt);
    W32Range(W32(rt) + (now - rt));
    assert Sub32(W32(now), W32(rt)) == now - rt;
    Rebase(vt, now - rt);
  }

  lemma Rebase(vt: int, d: int)
    ensures W32(W32(vt) + d) == W32(vt + d)
  {
  }

  function Then(log: seq<Fired>, r: (State, seq<Fired>)): (State, seq<Fired>) { (r.0, log + r.1) }

  lemma ThenNone(r: (State, seq<Fired>))
    ensures Then([], r) == r
  {
    assert [] + r.1 == r.1;
  }

  lemma ShotsAppend(a: seq<Fired>, b: seq<Fired>)
    ensures Shots(a + b) == Shots(a) + Shots(b)
    ensures Shots([]) == []
  {
  }

  lemma UpdatedTime(q: Attr, rate: u32, avail: u32, maxChunk: u16, tag: int, f: Flags)
    ensures Updated(q, rate, avail, maxChunk, tag, f).nextTs == q.nextTs
  {
  }

  lemma SkipLoopEnd(s: State, maxVt: int, num: nat, log: seq<Fired>)
    requires Inv(s) && s.vt <= maxVt && Ids(|s.qs|, s.sorted)
    requires num == 0 || s.sorted == [] || Key(s, s.sorted[0]) > maxVt
    ensures Then(log, SkipLoop(s, maxVt, num)) == (Rest(s, maxVt), log)
  {
    assert log + [] == log;
  }

  lemma UnlimitedEnd(s: State, num: nat, log: seq<Fired>)
    requires Inv(s) && (num == 0 || s.unlimited == [])
    ensures Then(log, PollUnlimited(s, num)) == (s, log)
  {
    assert log + [] == log;
  }

  lemma ThenMore(log: seq<Fired>, f: seq<Fired>, r: (State, seq<Fired>))
    ensures Then(log, (r.0, f + r.1)) == Then(log + f, r)
  {
    assert log + (f + r.1) == (log + f) + r.1;
  }

  /** One round of the loop over due queues. */
  lemma SkipLoopStep(s: State, maxVt: int, num: nat, t: State, f: seq<Fired>)
    requires Inv(s) && num > 0 && s.sorted != [] && s.vt <= maxVt && Key(s, s.sorted[0]) <= maxVt && Inv(t)
    requires var p, i := Pop(s), s.sorted[0];
             if p.qs[i].avail > 0 then InvBut(p, i) && |f| == 1 && (t, f[0]) == QmanSpec.Fire(p, i)
             else t == p && f == []
    ensures t.vt <= maxVt && s.vt <= t.vt && t.rt == s.rt
    ensures SkipLoop(s, maxVt, num) == (SkipLoop(t, maxVt, num - |f|).0, f + SkipLoop(t, maxVt, num - |f|).1)
    ensures |f| > 0 || |t.sorted| < |s.sorted|
  {
    hide RelTime, W32, Delta, KeysInRange, SortedByKey, Distinct, Paced, QmanSpec.Fire, QmanSpec.Activate;
    PopInv(s);
    var p, i := Pop(s), s.sorted[0];
    if p.qs[i].avail > 0 {
      FireInv(p, i);
      assert f == [f[0]];
    } else {
      assert f + SkipLoop(t, maxVt, num).1 == SkipLoop(t, maxVt, num).1;
    }
  }

  /** One round of the loop over unlimited queues. */
  lemma UnlimitedStep(s: State, num: nat, t: State, f: seq<Fired>)
    requires Inv(s) && num > 0 && s.unlimited != [] && Inv(t)
    requires var p, i := s.(unlimited := s.unlimited[1..]), s.unlimited[0];
             if p.qs[i].avail > 0 then InvBut(p, i) && |f| == 1 && (t, f[0]) == QmanSpec.Fire(p, i)
             else t == p && f == []
    ensures PollUnlimited(s, num) == (PollUnlimited(t, num - |f|).0, f + PollUnlimited(t, num - |f|).1)
    ensures |f| > 0 || |t.unlimited| < |s.unlimited|
  {
    hide RelTime, W32, Delta, KeysInRange, SortedByKey, Distinct, Paced, QmanSpec.Fire, QmanSpec.Activate;
    DropInv(s);
    var p, i := s.(unlimited := s.unlimited[1..]), s.unlimited[0];
    if p.qs[i].avail > 0 {
      FireInv(p, i);
      assert f == [f[0]];
    } else {
      assert f + PollUnlimited(t, num).1 == PollUnlimited(t, num).1;
    }
  }

  lemma LevelIds(a: seq<int>, b: seq<int>, lvl: seq<int>, i: int)
    requires Ids(|lvl|, a) && Ids(|lvl|, b) && 0 <= i < |lvl|
    ensures Ids(|lvl|, a + [i] + b)
  {
  }

  /** One level before and after the insertion of `i` between `a` and `b`. */
  lemma LevelParts(a: seq<int>, b: seq<int>, lvl: seq<int>, l: int, i: int, level: int)
    requires Ids(|lvl|, a) && Ids(|lvl|, b) && 0 <= i < |lvl| && i !in a && i !in b && Distinct(a + b)
    ensures Ids(|lvl|, a + b) && Ids(|lvl|, a + [i] + b)
    ensures var fa, fb := Filter(a, lvl, l), Filter(b, lvl, l);
            && Filter(a + b, lvl, l) == fa + fb
            && Filter(a + [i] + b, lvl[i := level], l) == (if level >= l then fa + [i] + fb else fa + fb)
            && Distinct(fa + fb) && i !in fa + fb
            && (forall x :: x in fa ==> x in a)
  {
    FilterAppend(a, b, lvl, l);
    FilterInsert(a, b, lvl, l, i, level);
    FilterDistinct(a + b, lvl, l);
    FilterIn(a, lvl, l);
    FilterIn(b, lvl, l);
  }

  lemma IdsSplit(n: int, a: seq<int>, b: seq<int>)
    requires Ids(n, a + b)
    ensures Ids(n, a) && Ids(n, b)
  {
    assert forall j :: 0 <= j < |a| ==> a[j] == (a + b)[j];
    assert forall j :: 0 <= j < |b| ==> b[j] == (a + b)[|a| + j];
  }
}
