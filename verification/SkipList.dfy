/** Linked lists by index in an array of queues, and the sublists that form the levels of the skiplist. */
module SkipList {
  import opened Word
  import opened QmanSpec

  const LEVELS: int := 4
  const INVALID: int := -1

  /** Queue state: successors on each level, attributes, and which list the queue is on. */
  datatype Queue = Queue(
    next: seq<int>, nextTs: u32, rate: u32, avail: u32, maxChunk: u16, tag: int,
    inSkiplist: bool, inNoLimit: bool)

  function AttrOf(q: Queue): Attr { Attr(q.nextTs, q.rate, q.avail, q.maxChunk, q.tag) }

  function Attrs(qs: seq<Queue>): (r: seq<Attr>)
    ensures |r| == |qs|
    ensures forall i {:trigger r[i]} :: 0 <= i < |qs| ==> r[i] == AttrOf(qs[i])
  {
    seq(|qs|, i requires 0 <= i < |qs| => AttrOf(qs[i]))
  }

  predicate Levelled(qs: seq<Queue>) { forall i {:trigger qs[i]} :: 0 <= i < |qs| ==> |qs[i].next| == LEVELS }

  /** Element `j` of a list, or the invalid index past its end. */
  function At(list: seq<int>, j: int): int
    requires 0 <= j
  {
    if j < |list| then list[j] else INVALID
  }

  function LastOf(list: seq<int>): int {
    if list == [] then INVALID else list[|list| - 1]
  }

  /** Following the successors on level `l` from `first` visits exactly `list`. */
  ghost predicate Chain(qs: seq<Queue>, first: int, list: seq<int>, l: int)
    requires Levelled(qs) && 0 <= l < LEVELS
  {
    && first == At(list, 0)
    && Ids(|qs|, list)
    && forall j {:trigger qs[list[j]]} :: 0 <= j < |list| ==> qs[list[j]].next[l] == At(list, j + 1)
  }

  lemma ChainFirst(qs: seq<Queue>, first: int, list: seq<int>, l: int)
    requires Levelled(qs) && 0 <= l < LEVELS && Chain(qs, first, list, l)
    ensures first == At(list, 0) && Ids(|qs|, list)
  {
  }

  lemma ChainNext(qs: seq<Queue>, first: int, list: seq<int>, l: int, j: int)
    requires Levelled(qs) && 0 <= l < LEVELS && Chain(qs, first, list, l) && 0 <= j < |list|
    ensures 0 <= list[j] < |qs| && qs[list[j]].next[l] == At(list, j + 1)
    ensures At(list, j + 1) == INVALID || (j + 1 < |list| && 0 <= At(list, j + 1) < |qs|)
  {
  }

  lemma ChainFrame(qs: seq<Queue>, rs: seq<Queue>, first: int, list: seq<int>, l: int)
    requires Levelled(qs) && Levelled(rs) && 0 <= l < LEVELS && |rs| == |qs|
    requires Chain(qs, first, list, l)
    requires forall x :: x in list && 0 <= x < |qs| ==> rs[x].next[l] == qs[x].next[l]
    ensures Chain(rs, first, list, l)
  {
    forall j {:trigger rs[list[j]]} | 0 <= j < |list|
      ensures rs[list[j]].next[l] == At(list, j + 1)
    {
      assert list[j] in list && qs[list[j]].next[l] == At(list, j + 1);
    }
  }

  /** Linking `q` behind the elements of `a`. */
  lemma ChainInsert(qs: seq<Queue>, rs: seq<Queue>, first: int, first': int, a: seq<int>, b: seq<int>, q: int, l: int)
    requires Levelled(qs) && Levelled(rs) && 0 <= l < LEVELS && |rs| == |qs|
    requires Chain(qs, first, a + b, l) && Distinct(a + b) && q !in a + b && 0 <= q < |qs|
    requires rs[q].next[l] == At(b, 0)
    requires first' == if a == [] then q else first
    requires forall x :: x in a + b && 0 <= x < |qs| ==>
               rs[x].next[l] == if x == LastOf(a) then q else qs[x].next[l]
    ensures Chain(rs, first', a + [q] + b, l)
  {
    var old', new' := a + b, a + [q] + b;
    forall j {:trigger new'[j]} | 0 <= j < |new'|
      ensures 0 <= new'[j] < |rs| && rs[new'[j]].next[l] == At(new', j + 1)
    {
      assert new'[j] == if j < |a| then old'[j] else if j == |a| then q else old'[j - 1];
      if j < |a| {
        assert old'[j] in old' && qs[old'[j]].next[l] == At(old', j + 1);
        if j < |a| - 1 {
          assert old'[j] != old'[|a| - 1];
        }
      } else if j > |a| {
        assert old'[j - 1] in old' && qs[old'[j - 1]].next[l] == At(old', j);
        if a != [] {
          assert old'[|a| - 1] != old'[j - 1];
        } else {
          assert old'[j - 1] >= 0;
        }
      }
    }
  }

  /** Unlinking the first element. */
  lemma ChainTail(qs: seq<Queue>, first: int, list: seq<int>, l: int)
    requires Levelled(qs) && 0 <= l < LEVELS
    requires Chain(qs, first, list, l) && list != []
    ensures first == list[0] && 0 <= first < |qs|
    ensures Chain(qs, qs[first].next[l], list[1..], l)
  {
    var r := list[1..];
    IdsTail(|qs|, list);
    forall j {:trigger qs[r[j]]} | 0 <= j < |r|
      ensures qs[r[j]].next[l] == At(r, j + 1)
    {
      assert r[j] == list[j + 1] && qs[list[j + 1]].next[l] == At(list, j + 2);
    }
    assert qs[list[0]].next[l] == At(list, 1);
  }

  // ------------------------------------------------------------ levels

  /** The elements of a list whose level is at least `l`. */
  function Filter(list: seq<int>, lvl: seq<int>, l: int): seq<int>
    requires Ids(|lvl|, list)
  {
    if list == [] then []
    else
      IdsTail(|lvl|, list);
      if lvl[list[0]] >= l then [list[0]] + Filter(list[1..], lvl, l) else Filter(list[1..], lvl, l)
  }

  lemma IdsTail(n: int, list: seq<int>)
    requires Ids(n, list) && list != []
    ensures 0 <= list[0] < n && Ids(n, list[1..])
  {
  }

  lemma {:induction false} FilterAppend(a: seq<int>, b: seq<int>, lvl: seq<int>, l: int)
    requires Ids(|lvl|, a) && Ids(|lvl|, b)
    ensures Ids(|lvl|, a + b)
    ensures Filter(a + b, lvl, l) == Filter(a, lvl, l) + Filter(b, lvl, l)
  {
    if a == [] {
      assert a + b == b;
    } else {
      IdsTail(|lvl|, a);
      FilterAppend(a[1..], b, lvl, l);
      assert (a + b)[1..] == a[1..] + b;
    }
  }

  lemma {:induction false} FilterIn(list: seq<int>, lvl: seq<int>, l: int)
    requires Ids(|lvl|, list)
    ensures forall x :: x in Filter(list, lvl, l) <==> x in list && 0 <= x < |lvl| && lvl[x] >= l
  {
    if list != [] {
      IdsTail(|lvl|, list);
      FilterIn(list[1..], lvl, l);
      assert list == [list[0]] + list[1..];
    }
  }

  lemma {:induction false} FilterDistinct(list: seq<int>, lvl: seq<int>, l: int)
    requires Ids(|lvl|, list) && Distinct(list)
    ensures Distinct(Filter(list, lvl, l))
  {
    if list != [] {
      IdsTail(|lvl|, list);
      DistinctTail(list);
      FilterDistinct(list[1..], lvl, l);
      FilterIn(list[1..], lvl, l);
      DistinctCons(list[0], Filter(list[1..], lvl, l));
    }
  }

  lemma DistinctTail(list: seq<int>)
    requires Distinct(list) && list != []
    ensures Distinct(list[1..]) && list[0] !in list[1..]
  {
    var r := list[1..];
    assert forall a :: 0 <= a < |r| ==> r[a] == list[a + 1];
  }

  lemma DistinctCons(x: int, list: seq<int>)
    requires Distinct(list)
    ensures x !in list ==> Distinct([x] + list)
  {
    var r := [x] + list;
    assert forall a :: 1 <= a < |r| ==> r[a] == list[a - 1];
  }

  /** Every element has level 0, so the bottom level is the whole list. */
  lemma {:induction false} FilterBottom(list: seq<int>, lvl: seq<int>)
    requires Ids(|lvl|, list) && forall x :: 0 <= x < |lvl| ==> 0 <= lvl[x]
    ensures Filter(list, lvl, 0) == list
  {
    if list != [] {
      IdsTail(|lvl|, list);
      FilterBottom(list[1..], lvl);
    }
  }

  /** The level of a queue that is not in the list does not matter. */
  lemma {:induction false} FilterUpdate(list: seq<int>, lvl: seq<int>, l: int, q: int, level: int)
    requires Ids(|lvl|, list) && 0 <= q < |lvl| && q !in list
    ensures Filter(list, lvl[q := level], l) == Filter(list, lvl, l)
  {
    if list != [] {
      IdsTail(|lvl|, list);
      FilterUpdate(list[1..], lvl, l, q, level);
    }
  }

  /** The level-`l` sublist after an insertion. */
  lemma FilterInsert(a: seq<int>, b: seq<int>, lvl: seq<int>, l: int, q: int, level: int)
    requires Ids(|lvl|, a) && Ids(|lvl|, b) && 0 <= q < |lvl| && q !in a && q !in b
    ensures Ids(|lvl|, a + [q] + b)
    ensures Filter(a + [q] + b, lvl[q := level], l)
         == Filter(a, lvl, l) + (if level >= l then [q] else []) + Filter(b, lvl, l)
  {
    var m := lvl[q := level];
    FilterAppend(a, [q], m, l);
    FilterAppend(a + [q], b, m, l);
    FilterUpdate(a, lvl, l, q, level);
    FilterUpdate(b, lvl, l, q, level);
  }

  // ------------------------------------------------------------ the whole structure

  /** The two lists of the queue manager as linked structures: each level of the skiplist is the sublist of
      the queues of that level, and the unlimited queues are chained on level 0. */
  ghost predicate Linked(qs: seq<Queue>, head: seq<int>, noHead: int, noTail: int,
                         lvl: seq<int>, sorted: seq<int>, unlimited: seq<int>) {
    && Levelled(qs) && |head| == LEVELS && |lvl| == |qs|
    && (forall x :: 0 <= x < |lvl| ==> 0 <= lvl[x] < LEVELS)
    && Ids(|qs|, sorted) && Ids(|qs|, unlimited)
    && Distinct(sorted) && Distinct(unlimited)
    && (forall x :: x in sorted ==> x !in unlimited)
    && (forall l {:trigger head[l]} :: 0 <= l < LEVELS ==> Chain(qs, head[l], Filter(sorted, lvl, l), l))
    && Chain(qs, noHead, unlimited, 0)
    && noTail == LastOf(unlimited)
    && (forall i {:trigger qs[i]} :: 0 <= i < |qs| ==>
          (qs[i].inSkiplist <==> i in sorted) && (qs[i].inNoLimit <==> i in unlimited))
  }

  /** The chains of the levels above `l` on one list, of those below on another, and the unlimited chain. */
  ghost predicate ChainsBut(qs: seq<Queue>, hs: seq<int>, noHead: int, unlimited: seq<int>, l: int,
                            above: seq<seq<int>>, below: seq<seq<int>>) {
    && Levelled(qs) && |hs| == |above| == |below| == LEVELS
    && (forall k {:trigger hs[k]} :: l < k < LEVELS && 0 <= k ==> Chain(qs, hs[k], above[k], k))
    && (forall k {:trigger hs[k]} :: 0 <= k < l && k < LEVELS ==> Chain(qs, hs[k], below[k], k))
    && Chain(qs, noHead, unlimited, 0)
  }

  /** Changing level `l` leaves the other chains alone. */
  lemma OtherChains(qs: seq<Queue>, rs: seq<Queue>, hs: seq<int>, gs: seq<int>, noHead: int, unlimited: seq<int>,
                    l: int, above: seq<seq<int>>, below: seq<seq<int>>)
    requires 0 <= l < LEVELS && ChainsBut(qs, hs, noHead, unlimited, l, above, below)
    requires Levelled(rs) && |rs| == |qs| && |gs| == LEVELS
    requires forall k :: 0 <= k < LEVELS && k != l ==> gs[k] == hs[k]
    requires forall x, k :: 0 <= x < |qs| && 0 <= k < LEVELS && k != l ==> rs[x].next[k] == qs[x].next[k]
    requires forall x :: x in unlimited && 0 <= x < |qs| ==> rs[x] == qs[x]
    ensures ChainsBut(rs, gs, noHead, unlimited, l, above, below)
  {
    hide Chain;
    forall k {:trigger gs[k]} | 0 <= k < LEVELS && k != l
      ensures k > l ==> Chain(rs, gs[k], above[k], k)
      ensures k < l ==> Chain(rs, gs[k], below[k], k)
    {
      assert hs[k] == gs[k];
      if k > l {
        ChainFrame(qs, rs, hs[k], above[k], k);
      } else {
        ChainFrame(qs, rs, hs[k], below[k], k);
      }
    }
    ChainFrame(qs, rs, noHead, unlimited, 0);
  }

  /** The sublists of all levels. */
  ghost function Levels(list: seq<int>, lvl: seq<int>): (r: seq<seq<int>>)
    requires Ids(|lvl|, list)
    ensures |r| == LEVELS && forall l {:trigger r[l]} :: 0 <= l < LEVELS ==> r[l] == Filter(list, lvl, l)
  {
    seq(LEVELS, l requires 0 <= l < LEVELS => Filter(list, lvl, l))
  }

  /** Only attributes differ. */
  ghost predicate SameLinks(qs: seq<Queue>, rs: seq<Queue>) {
    && |rs| == |qs|
    && forall x {:trigger rs[x]} :: 0 <= x < |qs| ==>
         rs[x].next == qs[x].next && rs[x].inSkiplist == qs[x].inSkiplist && rs[x].inNoLimit == qs[x].inNoLimit
  }

  /** Changing other fields of a queue than its links. */
  lemma SameLinksAt(qs: seq<Queue>, i: int, q: Queue)
    requires 0 <= i < |qs|
    requires q.next == qs[i].next && q.inSkiplist == qs[i].inSkiplist && q.inNoLimit == qs[i].inNoLimit
    ensures SameLinks(qs, qs[i := q])
  {
  }

  lemma LinkedSame(qs: seq<Queue>, rs: seq<Queue>, head: seq<int>, noHead: int, noTail: int,
                   lvl: seq<int>, sorted: seq<int>, unlimited: seq<int>)
    requires Linked(qs, head, noHead, noTail, lvl, sorted, unlimited) && SameLinks(qs, rs)
    ensures Linked(rs, head, noHead, noTail, lvl, sorted, unlimited)
  {
    hide Filter, Chain, Distinct;
    forall l {:trigger head[l]} | 0 <= l < LEVELS
      ensures Chain(rs, head[l], Filter(sorted, lvl, l), l)
    {
      ChainFrame(qs, rs, head[l], Filter(sorted, lvl, l), l);
    }
    ChainFrame(qs, rs, noHead, unlimited, 0);
  }

  /** The structure after queue `i` has been linked into the skiplist and flagged. */
  lemma LinkedInserted(qs: seq<Queue>, ls: seq<Queue>, rs: seq<Queue>, head: seq<int>, gs: seq<int>,
                       noHead: int, noTail: int, lvl: seq<int>, lvl': seq<int>, sorted: seq<int>, sorted': seq<int>,
                       unlimited: seq<int>, i: int, p: int)
    requires Linked(qs, head, noHead, noTail, lvl, sorted, unlimited)
    requires 0 <= i < |qs| && i !in sorted && i !in unlimited && 0 <= p <= |sorted|
    requires sorted' == Insert(sorted, p, i)
    requires |lvl'| == |lvl| && forall x :: 0 <= x < |lvl'| ==> 0 <= lvl'[x] < LEVELS
    requires Ids(|lvl'|, sorted') && |ls| == |qs| && |rs| == |qs|
    requires ChainsBut(ls, gs, noHead, unlimited, -1, Levels(sorted', lvl'), Levels(sorted, lvl))
    requires forall x {:trigger ls[x]} :: 0 <= x < |qs| ==> ls[x] == qs[x].(next := ls[x].next)
    requires rs == ls[i := ls[i].(inSkiplist := true)]
    ensures Linked(rs, gs, noHead, noTail, lvl', sorted', unlimited)
  {
    hide Filter, Chain;
    InsertDistinct(sorted, p, i);
    forall l {:trigger gs[l]} | 0 <= l < LEVELS
      ensures Chain(rs, gs[l], Filter(sorted', lvl', l), l)
    {
      ChainFrame(ls, rs, gs[l], Levels(sorted', lvl')[l], l);
    }
    ChainFrame(ls, rs, noHead, unlimited, 0);
    forall x {:trigger rs[x]} | 0 <= x < |qs|
      ensures (rs[x].inSkiplist <==> x in sorted') && (rs[x].inNoLimit <==> x in unlimited)
    {
      assert ls[x] == qs[x].(next := ls[x].next);
    }
  }

  /** The structure after queue `i` has been appended to the unlimited list. */
  lemma LinkedAppended(qs: seq<Queue>, rs: seq<Queue>, head: seq<int>, noHead: int, noHead': int, noTail: int,
                       lvl: seq<int>, sorted: seq<int>, unlimited: seq<int>, i: int)
    requires Linked(qs, head, noHead, noTail, lvl, sorted, unlimited)
    requires 0 <= i < |qs| && i !in sorted && i !in unlimited && |rs| == |qs|
    requires noHead' == if unlimited == [] then i else noHead
    requires rs[i] == qs[i].(inNoLimit := true, next := qs[i].next[0 := INVALID])
    requires forall x {:trigger rs[x]} :: 0 <= x < |qs| && x != i ==>
               rs[x] == if x == noTail then qs[x].(next := qs[x].next[0 := i]) else qs[x]
    ensures Linked(rs, head, noHead', i, lvl, sorted, unlimited + [i])
  {
    hide Filter;
    assert unlimited + [] == unlimited && unlimited + [i] + [] == unlimited + [i];
    assert Levelled(rs) && Distinct(unlimited + [i]);
    ChainInsert(qs, rs, noHead, noHead', unlimited, [], i, 0);
    if unlimited != [] {
      assert noTail in unlimited;
    }
    forall l {:trigger head[l]} | 0 <= l < LEVELS
      ensures Chain(rs, head[l], Filter(sorted, lvl, l), l)
    {
      FilterIn(sorted, lvl, l);
      ChainFrame(qs, rs, head[l], Filter(sorted, lvl, l), l);
    }
  }

  /** The first queue heads exactly the levels it is on. */
  lemma LevelHead(qs: seq<Queue>, first: int, sorted: seq<int>, lvl: seq<int>, l: int)
    requires Levelled(qs) && 0 <= l < LEVELS && Ids(|lvl|, sorted) && Distinct(sorted) && sorted != []
    requires Chain(qs, first, Filter(sorted, lvl, l), l)
    ensures Ids(|lvl|, sorted[1..]) && 0 <= sorted[0] < |lvl|
    ensures first == sorted[0] <==> lvl[sorted[0]] >= l
    ensures lvl[sorted[0]] >= l ==> 0 <= first < |qs| && Chain(qs, qs[first].next[l], Filter(sorted[1..], lvl, l), l)
    ensures lvl[sorted[0]] < l ==> Filter(sorted, lvl, l) == Filter(sorted[1..], lvl, l)
  {
    IdsTail(|lvl|, sorted);
    DistinctTail(sorted);
    FilterIn(sorted[1..], lvl, l);
    var f := Filter(sorted, lvl, l);
    if lvl[sorted[0]] >= l {
      ChainTail(qs, first, f, l);
      assert f[1..] == Filter(sorted[1..], lvl, l);
    } else if f != [] {
      assert f[0] in f;
    }
  }

  /** The structure after the first queue has been unlinked from all its levels and its flag cleared. */
  lemma LinkedRemoved(qs: seq<Queue>, rs: seq<Queue>, head: seq<int>, gs: seq<int>, noHead: int, noTail: int,
                      lvl: seq<int>, sorted: seq<int>, unlimited: seq<int>, l: int)
    requires Linked(qs, head, noHead, noTail, lvl, sorted, unlimited) && sorted != []
    requires rs == qs[sorted[0] := qs[sorted[0]].(inSkiplist := false)]
    requires |gs| == LEVELS && 0 <= l <= LEVELS && Ids(|lvl|, sorted[1..])
    requires l < LEVELS ==> lvl[sorted[0]] < l
    requires forall k {:trigger gs[k]} :: 0 <= k < l ==> Chain(qs, gs[k], Filter(sorted[1..], lvl, k), k)
    requires forall k {:trigger gs[k]} :: l <= k < LEVELS ==> Chain(qs, gs[k], Filter(sorted, lvl, k), k)
    ensures Linked(rs, gs, noHead, noTail, lvl, sorted[1..], unlimited)
  {
    hide Chain;
    var rest := sorted[1..];
    DistinctTail(sorted);
    assert sorted == [sorted[0]] + rest;
    assert sorted[0] in sorted;
    forall k {:trigger gs[k]} | 0 <= k < LEVELS
      ensures Chain(rs, gs[k], Filter(rest, lvl, k), k)
    {
      ChainFrame(qs, rs, gs[k], Filter(rest, lvl, k), k);
    }
    ChainFrame(qs, rs, noHead, unlimited, 0);
  }

  /** The structure after the first unlimited queue has been unlinked. */
  lemma LinkedDropped(qs: seq<Queue>, rs: seq<Queue>, head: seq<int>, noHead: int, noHead': int,
                      noTail: int, noTail': int, lvl: seq<int>, sorted: seq<int>, unlimited: seq<int>)
    requires Linked(qs, head, noHead, noTail, lvl, sorted, unlimited) && unlimited != []
    requires rs == qs[unlimited[0] := qs[unlimited[0]].(inNoLimit := false)]
    requires noHead' == qs[unlimited[0]].next[0] && noTail' == if noHead' == INVALID then INVALID else noTail
    ensures Linked(rs, head, noHead', noTail', lvl, sorted, unlimited[1..])
  {
    hide Filter;
    var rest := unlimited[1..];
    DistinctTail(unlimited);
    IdsTail(|qs|, unlimited);
    ChainTail(qs, noHead, unlimited, 0);
    assert unlimited == [unlimited[0]] + rest;
    assert unlimited[0] in unlimited;
    ChainFrame(qs, rs, noHead', rest, 0);
    forall k {:trigger head[k]} | 0 <= k < LEVELS
      ensures Chain(rs, head[k], Filter(sorted, lvl, k), k)
    {
      ChainFrame(qs, rs, head[k], Filter(sorted, lvl, k), k);
    }
  }
}
