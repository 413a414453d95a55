/** The flow lookup table: a hopscotch hash table whose one writer moves entries while readers probe it
    without a lock. */
module FlowTable {
  import opened Word

  const ENTRIES: int := 0x4_0000
  const NBSZ: int := 4

  /** The first word of an entry: flow identifier and stored distance from the home slot, if valid. */
  datatype Id = Free | Held(disp: Disp, fid: int)

  /** The stored distance is kept in two bits. */
  type Disp = d: int | 0 <= d < NBSZ

  /** An entry is two words, written and read one at a time. */
  datatype Slot = Slot(id: Id, hash: u32)

  type Table = t: seq<Slot> | |t| == ENTRIES witness seq(ENTRIES, _ => Slot(Free, 0))

  // ------------------------------------------------------------ circular positions

  predicate IsSlot(x: int) { 0 <= x < ENTRIES }

  /** Distance going forward from `a` to `b`. */
  function Dist(a: int, b: int): (r: int)
    requires IsSlot(a) && IsSlot(b)
    ensures IsSlot(r) && r == W32(b - a) % ENTRIES
  {
    if b >= a then b - a else b - a + ENTRIES
  }

  function Forward(a: int, n: int): (r: int)
    requires IsSlot(a) && 0 <= n <= ENTRIES
    ensures IsSlot(r) && r == (a + n) % ENTRIES
  {
    if a + n < ENTRIES then a + n else a + n - ENTRIES
  }

  function Home(hash: u32): (r: int)
    ensures IsSlot(r)
  {
    hash % ENTRIES
  }

  // ------------------------------------------------------------ what readers see

  /** Slot `x` shows flow `fid` with this hash. */
  predicate Shows(t: Table, x: int, fid: int, hash: u32)
    requires IsSlot(x)
  {
    t[x].id.Held? && t[x].id.fid == fid && t[x].hash == hash
  }

  /** A reader's probes: when it reads the first and the second word of each slot, in the order of reading.
      `trace` are the contents of the table after each memory write. */
  datatype Probe = Probe(idTime: int, hashTime: int)

  ghost predicate IsLookup(trace: seq<Table>, probes: seq<Probe>) {
    && |probes| == NBSZ
    && (forall p {:trigger probes[p]} :: 0 <= p < NBSZ ==>
          0 <= probes[p].idTime <= probes[p].hashTime < |trace|)
    && (forall p, q {:trigger probes[p], probes[q]} :: 0 <= p < q < NBSZ ==>
          probes[p].hashTime <= probes[q].idTime)
  }

  /** Probe `p` of a reader looking for `hash` meets flow `fid`. */
  ghost predicate Hits(trace: seq<Table>, probes: seq<Probe>, p: int, fid: int, hash: u32)
    requires IsLookup(trace, probes) && 0 <= p < NBSZ
  {
    var x := Forward(Home(hash), p);
    var id := trace[probes[p].idTime][x].id;
    id.Held? && id.fid == fid && trace[probes[p].hashTime][x].hash == hash
  }

  /** The flow whose tuple the reader is looking for is found by a reader at whatever times it reads. */
  ghost predicate NeverMissed(trace: seq<Table>, fid: int, hash: u32) {
    forall probes: seq<Probe> {:trigger IsLookup(trace, probes)} :: IsLookup(trace, probes) ==>
      exists p :: 0 <= p < NBSZ && Hits(trace, probes, p, fid, hash)
  }

  // ------------------------------------------------------------ the invariant of the table

  /** The flow stored at slot `x` is exactly as far from home as the entry says. */
  ghost predicate ExactAt(t: Table, x: int)
    requires IsSlot(x)
  {
    t[x].id.Held? ==> x == Forward(Home(t[x].hash), t[x].id.disp)
  }

  ghost predicate Exact(t: Table) { forall x {:trigger t[x]} :: IsSlot(x) ==> ExactAt(t, x) }

  /** A flow is stored at slot `x`, and no further from home than the entry says. */
  predicate Safe(t: Table, x: int)
    requires IsSlot(x)
  {
    t[x].id.Held? && Dist(Home(t[x].hash), x) <= t[x].id.disp
  }

  /** A flow stays in slot `a` up to state `tau`, and is in slot `b`, further on but still within reach of
      its home, from state `tau` on. */
  ghost predicate Moves(trace: seq<Table>, fid: int, hash: u32, a: int, b: int, tau: int) {
    && IsSlot(a) && IsSlot(b) && 0 <= tau
    && Dist(Home(hash), a) <= Dist(Home(hash), b) < NBSZ
    && (a == b || Dist(Home(hash), a) < Dist(Home(hash), b))
    && (forall s {:trigger trace[s]} :: 0 <= s < |trace| && s <= tau ==> Shows(trace[s], a, fid, hash))
    && (forall s {:trigger trace[s]} :: 0 <= s < |trace| && tau <= s ==> Shows(trace[s], b, fid, hash))
  }

  /** A reader meets the flow in its old slot, or else later in its new one. */
  lemma MovesFound(trace: seq<Table>, fid: int, hash: u32, a: int, b: int, tau: int)
    requires Moves(trace, fid, hash, a, b, tau)
    ensures NeverMissed(trace, fid, hash)
  {
    forall probes: seq<Probe> | IsLookup(trace, probes)
      ensures exists p :: 0 <= p < NBSZ && Hits(trace, probes, p, fid, hash)
    {
      var pa, pb := Dist(Home(hash), a), Dist(Home(hash), b);
      assert Forward(Home(hash), pa) == a && Forward(Home(hash), pb) == b;
      if probes[pa].hashTime <= tau {
        assert Hits(trace, probes, pa, fid, hash);
      } else if pa == pb {
        assert Shows(trace[probes[pa].hashTime], a, fid, hash);
        if probes[pa].idTime <= tau {
          assert Shows(trace[probes[pa].idTime], a, fid, hash);
        } else {
          assert Shows(trace[probes[pa].idTime], b, fid, hash);
        }
        assert Hits(trace, probes, pa, fid, hash);
      } else {
        assert probes[pa].hashTime <= probes[pb].idTime;
        assert Hits(trace, probes, pb, fid, hash);
      }
    }
  }

  // ------------------------------------------------------------ moving one entry

  /** The three writes that move the entry of slot `i` to the free slot `k`: hash, then identifier with its
      old stored distance, then clearing the old slot. */
  function MoveWrites(t: Table, i: int, k: int): (r: (Table, Table, Table))
    requires IsSlot(i) && IsSlot(k) && i != k
  {
    var t1: Table := t[k := t[k].(hash := t[i].hash)];
    var t2: Table := t1[k := t1[k].(id := t[i].id)];
    var t3: Table := t2[i := t2[i].(id := Free)];
    (t1, t2, t3)
  }

  /** The flow registered in one slot, if any. */
  ghost function One(s: Slot): multiset<(int, u32)> {
    if s.id.Held? then multiset{(s.id.fid, s.hash)} else multiset{}
  }

  /** The registered flows, as a multiset of identifier and hash. */
  ghost function Entries(t: seq<Slot>): multiset<(int, u32)> {
    if t == [] then multiset{} else One(t[0]) + Entries(t[1..])
  }

  lemma {:induction false} EntriesUpdate(t: seq<Slot>, x: int, s: Slot)
    requires 0 <= x < |t|
    ensures Entries(t[x := s]) + One(t[x]) == Entries(t) + One(s)
  {
    hide One;
    var u := t[x := s];
    if x == 0 {
      assert u[1..] == t[1..];
    } else {
      EntriesUpdate(t[1..], x - 1, s);
      assert u[1..] == t[1..][x - 1 := s] && u[0] == t[0];
      assert One(t[0]) + Entries(u[1..]) + One(t[x]) == One(t[0]) + (Entries(u[1..]) + One(t[x]));
      assert One(t[0]) + Entries(t[1..]) + One(s) == One(t[0]) + (Entries(t[1..]) + One(s));
    }
  }

  lemma Cancel<T>(a: multiset<T>, b: multiset<T>, c: multiset<T>)
    requires a + c == b + c
    ensures a == b
  {
    assert a == (a + c) - c && b == (b + c) - c;
  }

  /** Moving an entry registers nothing new and loses nothing. */
  lemma MoveConserves(t: Table, i: int, k: int)
    requires IsSlot(i) && IsSlot(k) && i != k && t[i].id.Held? && t[k].id.Free?
    ensures Entries(MoveWrites(t, i, k).2) == Entries(t)
  {
    var (t1, t2, t3) := MoveWrites(t, i, k);
    EntriesUpdate(t, k, t1[k]);
    EntriesUpdate(t1, k, t2[k]);
    EntriesUpdate(t2, i, t3[i]);
    Cancel(Entries(t1), Entries(t), multiset{});
    Cancel(Entries(t3), Entries(t1), One(t[i]));
  }

  /** A quiet reader finds a flow if and only if one of the slots within reach of its home shows it. */
  lemma FoundExactly(t: Table, fid: int, hash: u32)
    ensures NeverMissed([t], fid, hash)
       <==> exists p :: 0 <= p < NBSZ && Shows(t, Forward(Home(hash), p), fid, hash)
  {
    var probes := [Probe(0, 0), Probe(0, 0), Probe(0, 0), Probe(0, 0)];
    assert IsLookup([t], probes);
    if p :| 0 <= p < NBSZ && Shows(t, Forward(Home(hash), p), fid, hash) {
      var x := Forward(Home(hash), p);
      MovesFound([t], fid, hash, x, x, 0);
    }
    if NeverMissed([t], fid, hash) {
      var p :| 0 <= p < NBSZ && Hits([t], probes, p, fid, hash);
      assert Shows(t, Forward(Home(hash), p), fid, hash);
    }
  }

  /** After a move a quiet reader finds the flow if and only if its true distance from home stays within
      reach; the code checks the stored distance instead. */
  lemma MoveFindable(t: Table, i: int, k: int)
    requires IsSlot(i) && IsSlot(k) && i != k && t[i].id.Held? && t[k].id.Free?
    requires forall x :: IsSlot(x) && x != i && t[x].id.Held? ==> t[x].id.fid != t[i].id.fid
    ensures NeverMissed([MoveWrites(t, i, k).2], t[i].id.fid, t[i].hash)
       <==> Dist(Home(t[i].hash), k) < NBSZ
  {
    hide NeverMissed;
    var t3 := MoveWrites(t, i, k).2;
    var fid, hash := t[i].id.fid, t[i].hash;
    FoundExactly(t3, fid, hash);
    if Dist(Home(hash), k) < NBSZ {
      assert Shows(t3, Forward(Home(hash), Dist(Home(hash), k)), fid, hash);
    } else {
      forall p | 0 <= p < NBSZ
        ensures !Shows(t3, Forward(Home(hash), p), fid, hash)
      {
        ForwardDist(Home(hash), p, k);
        var x := Forward(Home(hash), p);
        assert x != i ==> t3[x] == t[x];
      }
    }
  }

  /** Slots within reach of `a` are those at a distance below the reach. */
  lemma ForwardDist(a: int, p: int, b: int)
    requires IsSlot(a) && 0 <= p < NBSZ && IsSlot(b) && Dist(a, b) >= NBSZ
    ensures Forward(a, p) != b
  {
  }

  // ------------------------------------------------------------ a whole call

  ghost predicate UniqueIds(t: Table) {
    forall x, y {:trigger t[x], t[y]} :: IsSlot(x) && IsSlot(y) && x != y && t[x].id.Held? && t[y].id.Held? ==>
      t[x].id.fid != t[y].id.fid
  }

  /** The flow that was in slot `a` at first has stayed within reach of its home all along. */
  ghost predicate Tracked(trace: seq<Table>, a: int)
    requires trace != [] && IsSlot(a) && trace[0][a].id.Held?
  {
    exists b, tau :: 0 <= tau < |trace| && Moves(trace, trace[0][a].id.fid, trace[0][a].hash, a, b, tau)
  }

  /** All flows that were safe at first have. */
  ghost predicate AllTracked(trace: seq<Table>) {
    trace != [] && forall a :: IsSlot(a) && Safe(trace[0], a) ==> Tracked(trace, a)
  }

  /** Slots before the hole, going forward from `j`, are as they were in every state. */
  ghost predicate Untouched(trace: seq<Table>, j: int, dist: int)
    requires trace != [] && IsSlot(j)
  {
    forall x {:trigger trace[0][x]} :: IsSlot(x) && Dist(j, x) < dist ==>
      trace[0][x].id.Held? && forall s {:trigger trace[s]} :: 0 <= s < |trace| ==> trace[s][x] == trace[0][x]
  }

  /** The state between two moves: the hole is at distance `dist` from `j`. */
  ghost predicate MoveInv(trace: seq<Table>, j: int, hole: int) {
    && trace != [] && IsSlot(j) && IsSlot(hole)
    && (UniqueIds(trace[0]) ==> AllTracked(trace))
    && Untouched(trace, j, Dist(j, hole))
    && trace[|trace| - 1][hole].id.Free?
    && Entries(trace[|trace| - 1]) == Entries(trace[0])
  }

  /** Slots closer to `j` than `dist` are all taken. */
  ghost predicate TakenUpTo(t: Table, j: int, dist: int)
    requires IsSlot(j)
  {
    forall x {:trigger t[x]} :: IsSlot(x) && Dist(j, x) < dist ==> t[x].id.Held?
  }

  lemma StartInv(t: Table, j: int, hole: int)
    requires IsSlot(j) && IsSlot(hole) && t[hole].id.Free?
    requires TakenUpTo(t, j, Dist(j, hole))
    ensures MoveInv([t], j, hole)
  {
    hide UniqueIds, AllTracked, Dist;
    EmptyTrace(t);
  }

  lemma EmptyTrace(t: Table)
    ensures AllTracked([t])
  {
    var trace: seq<Table> := [t];
    assert trace[0] == t;
    forall a | IsSlot(a) && Safe(trace[0], a)
      ensures Tracked(trace, a)
    {
      StaysTracked(trace, a);
    }
  }

  lemma StaysTracked(trace: seq<Table>, a: int)
    requires |trace| == 1 && IsSlot(a) && Safe(trace[0], a)
    ensures Tracked(trace, a)
  {
    assert Moves(trace, trace[0][a].id.fid, trace[0][a].hash, a, a, 0);
  }

  /** What is known of a slot before the hole. */
  lemma BeforeHole(trace: seq<Table>, j: int, hole: int, x: int)
    requires MoveInv(trace, j, hole) && IsSlot(x) && Dist(j, x) < Dist(j, hole)
    ensures trace[0][x].id.Held? && trace[|trace| - 1][x] == trace[0][x]
    ensures forall s {:trigger trace[s]} :: 0 <= s < |trace| ==> trace[s][x] == trace[0][x]
    ensures trace[|trace| - 1][hole].id.Free? && x != hole
  {
    hide UniqueIds, AllTracked, Entries;
    assert trace[0][x].id.Held?;
  }

  lemma BeforeHoleTaken(trace: seq<Table>, j: int, hole: int, x: int)
    requires MoveInv(trace, j, hole) && IsSlot(x) && Dist(j, x) < Dist(j, hole)
    ensures trace[|trace| - 1][x].id.Held?
  {
    hide UniqueIds, AllTracked, Entries, Dist, MoveInv;
    BeforeHole(trace, j, hole, x);
  }

  lemma MovesExtend(trace: seq<Table>, more: seq<Table>, fid: int, hash: u32, a: int, b: int, tau: int)
    requires Moves(trace, fid, hash, a, b, tau) && tau < |trace|
    requires forall s :: 0 <= s < |more| ==> Shows(more[s], b, fid, hash)
    ensures Moves(trace + more, fid, hash, a, b, tau)
  {
    var all := trace + more;
    forall s {:trigger all[s]} | 0 <= s < |all|
      ensures s <= tau ==> Shows(all[s], a, fid, hash)
      ensures tau <= s ==> Shows(all[s], b, fid, hash)
    {
      assert all[s] == if s < |trace| then trace[s] else more[s - |trace|];
    }
  }

  /** One move keeps every flow within reach at all times; the hole moves back. */
  lemma MoveKeeps(trace: seq<Table>, j: int, k: int, i: int)
    requires MoveInv(trace, j, k) && IsSlot(i)
    requires Dist(j, i) < Dist(j, k)
    requires var t := trace[|trace| - 1]; t[i].id.Held? && Dist(i, k) <= NBSZ - 1 - t[i].id.disp
    ensures var (t1, t2, t3) := MoveWrites(trace[|trace| - 1], i, k);
            MoveInv(trace + [t1, t2, t3], j, i)
  {
    hide UniqueIds, AllTracked, Dist, Untouched, Entries, Tracked;
    BeforeHole(trace, j, k, i);
    MoveConserves(trace[|trace| - 1], i, k);
    MoveUntouched(trace, j, k, i);
    if UniqueIds(trace[0]) {
      MoveTracked(trace, j, k, i);
    }
    assert (trace + [MoveWrites(trace[|trace| - 1], i, k).0])[0] == trace[0];
  }

  lemma MoveTracked(trace: seq<Table>, j: int, k: int, i: int)
    requires MoveInv(trace, j, k) && UniqueIds(trace[0]) && IsSlot(i) && Dist(j, i) < Dist(j, k)
    requires var t := trace[|trace| - 1]; t[i].id.Held? && Dist(i, k) <= NBSZ - 1 - t[i].id.disp
    ensures i != k
    ensures var (t1, t2, t3) := MoveWrites(trace[|trace| - 1], i, k);
            AllTracked(trace + [t1, t2, t3])
  {
    hide Untouched, Entries, Tracked, Dist;
    BeforeHole(trace, j, k, i);
    var (t1, t2, t3) := MoveWrites(trace[|trace| - 1], i, k);
    var all := trace + [t1, t2, t3];
    assert all[0] == trace[0];
    forall a | IsSlot(a) && Safe(all[0], a)
      ensures Tracked(all, a)
    {
      if a == i {
        MovedTracked(trace, k, i);
      } else {
        OtherTracked(trace, k, i, a);
      }
    }
  }

  lemma MovedTracked(trace: seq<Table>, k: int, i: int)
    requires trace != [] && IsSlot(i) && IsSlot(k) && i != k
    requires Safe(trace[0], i) && Dist(i, k) <= NBSZ - 1 - trace[0][i].id.disp
    requires forall s {:trigger trace[s]} :: 0 <= s < |trace| ==> trace[s][i] == trace[0][i]
    ensures var (t1, t2, t3) := MoveWrites(trace[|trace| - 1], i, k);
            Tracked(trace + [t1, t2, t3], i)
  {
    var t, t0 := trace[|trace| - 1], trace[0];
    var (t1, t2, t3) := MoveWrites(t, i, k);
    var all := trace + [t1, t2, t3];
    var fid, hash := t0[i].id.fid, t0[i].hash;
    DistAdd(Home(hash), i, k);
    var tau := |trace| + 1;
    forall s {:trigger all[s]} | 0 <= s < |all|
      ensures s <= tau ==> Shows(all[s], i, fid, hash)
      ensures tau <= s ==> Shows(all[s], k, fid, hash)
    {
      assert all[s] == if s < |trace| then trace[s] else [t1, t2, t3][s - |trace|];
    }
    assert all[0] == t0;
    assert Moves(all, fid, hash, i, k, tau);
  }

  /** Distances add up as long as they stay within one turn. */
  lemma DistAdd(h: int, i: int, k: int)
    requires IsSlot(h) && IsSlot(i) && IsSlot(k) && i != k && Dist(h, i) + Dist(i, k) < ENTRIES
    ensures Dist(h, k) == Dist(h, i) + Dist(i, k) > Dist(h, i)
  {
  }

  lemma OtherTracked(trace: seq<Table>, k: int, i: int, a: int)
    requires trace != [] && IsSlot(i) && IsSlot(a) && IsSlot(k) && i != k
    requires trace[0][a].id.Held? && Tracked(trace, a)
    requires var t := trace[|trace| - 1];
             t[k].id.Free? && t[i].id.Held? && t[i].id.fid != trace[0][a].id.fid
    ensures var (t1, t2, t3) := MoveWrites(trace[|trace| - 1], i, k);
            Tracked(trace + [t1, t2, t3], a)
  {
    hide Dist, Home;
    var t, t0 := trace[|trace| - 1], trace[0];
    var (t1, t2, t3) := MoveWrites(t, i, k);
    var fid, hash := t0[a].id.fid, t0[a].hash;
    var b, tau :| 0 <= tau < |trace| && Moves(trace, fid, hash, a, b, tau);
    assert Shows(t, b, fid, hash);
    MovesExtend(trace, [t1, t2, t3], fid, hash, a, b, tau);
    assert (trace + [t1, t2, t3])[0] == t0;
  }

  lemma MoveUntouched(trace: seq<Table>, j: int, k: int, i: int)
    requires trace != [] && IsSlot(j) && IsSlot(k) && IsSlot(i) && Dist(j, i) < Dist(j, k)
    requires Untouched(trace, j, Dist(j, k))
    ensures var (t1, t2, t3) := MoveWrites(trace[|trace| - 1], i, k);
            Untouched(trace + [t1, t2, t3], j, Dist(j, i))
  {
    var t := trace[|trace| - 1];
    var (t1, t2, t3) := MoveWrites(t, i, k);
    var all := trace + [t1, t2, t3];
    forall x {:trigger all[0][x]} | IsSlot(x) && Dist(j, x) < Dist(j, i)
      ensures all[0][x].id.Held? && forall s {:trigger all[s]} :: 0 <= s < |all| ==> all[s][x] == all[0][x]
    {
      assert trace[0][x].id.Held?;
      forall s {:trigger all[s]} | 0 <= s < |all|
        ensures all[s][x] == all[0][x]
      {
        assert t[x] == trace[0][x] && x != i && x != k;
        assert all[s] == if s < |trace| then trace[s] else [t1, t2, t3][s - |trace|];
      }
    }
  }

  /** Whenever a reader probes during the call, it finds every flow that was safe at its start. */
  lemma TrackedFound(trace: seq<Table>, a: int)
    requires AllTracked(trace) && IsSlot(a) && Safe(trace[0], a)
    ensures NeverMissed(trace, trace[0][a].id.fid, trace[0][a].hash)
  {
    var fid, hash := trace[0][a].id.fid, trace[0][a].hash;
    assert Tracked(trace, a);
    var b, tau :| 0 <= tau < |trace| && Moves(trace, fid, hash, a, b, tau);
    MovesFound(trace, fid, hash, a, b, tau);
  }

  /** Whenever a reader probes, it finds every flow that was safe at the start. */
  ghost predicate AllFound(trace: seq<Table>) {
    trace != [] && forall a {:trigger trace[0][a]} :: IsSlot(a) && Safe(trace[0], a) ==>
      NeverMissed(trace, trace[0][a].id.fid, trace[0][a].hash)
  }

  lemma FoundAll(trace: seq<Table>)
    requires AllTracked(trace)
    ensures AllFound(trace)
  {
    hide Tracked, NeverMissed;
    forall a {:trigger trace[0][a]} | IsSlot(a) && Safe(trace[0], a)
      ensures NeverMissed(trace, trace[0][a].id.fid, trace[0][a].hash)
    {
      TrackedFound(trace, a);
    }
  }

  /** If all stored distances were exact at the start, then that is every registered flow. */
  lemma ExactAllFound(trace: seq<Table>, a: int)
    requires AllFound(trace) && Exact(trace[0]) && IsSlot(a) && trace[0][a].id.Held?
    ensures NeverMissed(trace, trace[0][a].id.fid, trace[0][a].hash)
  {
    hide NeverMissed;
    assert ExactAt(trace[0], a);
    assert Safe(trace[0], a);
  }

  // ------------------------------------------------------------ registering a new flow

  /** The two writes that register a flow in the free slot `x`: hash, then identifier and distance. */
  function AddWrites(t: Table, x: int, disp: Disp, fid: int, hash: u32): (r: (Table, Table))
    requires IsSlot(x)
  {
    var t1: Table := t[x := t[x].(hash := hash)];
    var t2: Table := t1[x := t1[x].(id := Held(disp, fid))];
    (t1, t2)
  }

  lemma AddTracked(trace: seq<Table>, x: int, disp: Disp, fid: int, hash: u32)
    requires AllTracked(trace) && IsSlot(x) && trace[|trace| - 1][x].id.Free?
    ensures var (t1, t2) := AddWrites(trace[|trace| - 1], x, disp, fid, hash);
            AllTracked(trace + [t1, t2])
  {
    hide Dist, Home;
    var t := trace[|trace| - 1];
    var (t1, t2) := AddWrites(t, x, disp, fid, hash);
    var all := trace + [t1, t2];
    assert all[0] == trace[0];
    forall a | IsSlot(a) && Safe(all[0], a)
      ensures Tracked(all, a)
    {
      assert Tracked(trace, a);
      var f, h := trace[0][a].id.fid, trace[0][a].hash;
      var b, tau :| 0 <= tau < |trace| && Moves(trace, f, h, a, b, tau);
      assert Shows(t, b, f, h);
      MovesExtend(trace, [t1, t2], f, h, a, b, tau);
    }
  }

  /** The new flow is the only addition, its entry tells its true distance, and from the last write on every
      reader finds it. */
  lemma AddRegisters(t: Table, disp: Disp, fid: int, hash: u32)
    requires t[Forward(Home(hash), disp)].id.Free?
    ensures var x := Forward(Home(hash), disp);
            var t2 := AddWrites(t, x, disp, fid, hash).1;
            && Entries(t2) == Entries(t) + multiset{(fid, hash)}
            && ExactAt(t2, x)
            && forall later: seq<Table> :: later != [] && (forall s :: 0 <= s < |later| ==> later[s][x] == t2[x]) ==>
                 NeverMissed(later, fid, hash)
  {
    hide Entries, NeverMissed, Moves;
    var x := Forward(Home(hash), disp);
    var t2 := AddWrites(t, x, disp, fid, hash).1;
    AddEntries(t, x, disp, fid, hash);
    DistForward(Home(hash), disp);
    forall later: seq<Table> | later != [] && forall s :: 0 <= s < |later| ==> later[s][x] == t2[x]
      ensures NeverMissed(later, fid, hash)
    {
      StaysFound(later, x, fid, hash);
    }
  }

  lemma AddEntries(t: Table, x: int, disp: Disp, fid: int, hash: u32)
    requires IsSlot(x) && t[x].id.Free?
    ensures Entries(AddWrites(t, x, disp, fid, hash).1) == Entries(t) + multiset{(fid, hash)}
  {
    var (t1, t2) := AddWrites(t, x, disp, fid, hash);
    EntriesUpdate(t, x, t1[x]);
    EntriesUpdate(t1, x, t2[x]);
    Cancel(Entries(t1), Entries(t), One(t[x]));
    Cancel(Entries(t2), Entries(t1) + One(t2[x]), multiset{});
    assert One(t2[x]) == multiset{(fid, hash)};
  }

  lemma StaysFound(trace: seq<Table>, x: int, fid: int, hash: u32)
    requires IsSlot(x) && Dist(Home(hash), x) < NBSZ
    requires forall s :: 0 <= s < |trace| ==> Shows(trace[s], x, fid, hash)
    ensures NeverMissed(trace, fid, hash)
  {
    hide NeverMissed;
    MovesFound(trace, fid, hash, x, x, 0);
  }

  // ------------------------------------------------------------ after the call

  /** A moved entry keeps its old stored distance, so after any move the table is no longer exact. */
  lemma MoveStale(t: Table, i: int, k: int)
    requires Exact(t) && IsSlot(i) && IsSlot(k) && t[i].id.Held? && t[k].id.Free?
    requires 0 < Dist(i, k) <= NBSZ - 1 - t[i].id.disp
    ensures !Exact(MoveWrites(t, i, k).2)
  {
    var t3 := MoveWrites(t, i, k).2;
    assert ExactAt(t, i);
    DistAdd(Home(t[i].hash), i, k);
    DistForward(Home(t[i].hash), t[i].id.disp);
    assert !ExactAt(t3, k);
  }

  /** Two calls that each move the same flow, each allowed by the stored distance: afterwards it is found if
      and only if its three true steps from home together stay within reach. */
  lemma TwoMovesFindable(t: Table, i: int, k: int, m: int)
    requires Exact(t) && UniqueIds(t) && IsSlot(i) && IsSlot(k) && IsSlot(m) && m != i
    requires t[i].id.Held? && t[k].id.Free? && t[m].id.Free?
    requires 0 < Dist(i, k) <= NBSZ - 1 - t[i].id.disp
    requires 0 < Dist(k, m) <= NBSZ - 1 - MoveWrites(t, i, k).2[k].id.disp
    ensures NeverMissed([MoveWrites(MoveWrites(t, i, k).2, k, m).2], t[i].id.fid, t[i].hash)
       <==> t[i].id.disp + Dist(i, k) + Dist(k, m) < NBSZ
  {
    hide NeverMissed;
    var t3 := MoveWrites(t, i, k).2;
    var fid, home := t[i].id.fid, Home(t[i].hash);
    assert t3[i].id.Free?;
    forall x | IsSlot(x) && x != k && t3[x].id.Held?
      ensures t3[x].id.fid != t3[k].id.fid
    {
      assert t3[x] == t[x];
    }
    MoveFindable(t3, k, m);
    assert ExactAt(t, i);
    DistForward(home, t[i].id.disp);
    DistAdd(home, i, k);
    DistAdd(home, k, m);
  }

  // ------------------------------------------------------------ the code

  /** The guard of the displacement loop, written with the two ends `j` and `l` of the neighbourhood, says
      that the hole is out of reach of its home slot. */
  lemma OutOfReach(j: int, l: int, i: int)
    requires IsSlot(j) && IsSlot(i) && l == Forward(j, NBSZ)
    ensures (j > l || (i < j || i >= l)) && (j < l || (i >= l && i < j)) <==> Dist(j, i) >= NBSZ
  {
  }

  lemma NextSlot(j: int, d: int)
    requires IsSlot(j) && 0 <= d < ENTRIES - 1
    ensures (Forward(j, d) + 1) % ENTRIES == Forward(j, d + 1) && Dist(j, Forward(j, d)) == d
    ensures forall x {:trigger Dist(j, x)} :: IsSlot(x) && Dist(j, x) == d ==> x == Forward(j, d)
  {
  }

  lemma ForwardInjective(j: int, d: int, e: int)
    requires IsSlot(j) && 0 <= d < ENTRIES && 0 <= e < ENTRIES
    ensures Forward(j, d) == Forward(j, e) <==> d == e
  {
  }

  lemma TakenNext(t: Table, j: int, d: int)
    requires IsSlot(j) && 0 <= d < ENTRIES - 1 && TakenUpTo(t, j, d) && t[Forward(j, d)].id.Held?
    ensures TakenUpTo(t, j, d + 1)
  {
    hide Dist;
    NextSlot(j, d);
  }

  /** No entry more than `n`, and less than NBSZ, slots before the free slot `k` may be moved there, by its
      stored distance. */
  ghost predicate Unmovable(t: Table, k: int, n: int)
    requires IsSlot(k)
  {
    forall x {:trigger t[x]} :: IsSlot(x) && n < Dist(x, k) < NBSZ ==>
      t[x].id.Held? && Dist(x, k) > NBSZ - 1 - t[x].id.disp
  }

  /** The hole at `k` is out of reach of home slot `j`, and none of the entries before it can take its place. */
  ghost predicate Stuck(t: Table, j: int, k: int)
    requires IsSlot(j)
  {
    IsSlot(k) && t[k].id.Free? && NBSZ <= Dist(j, k) < 5 * NBSZ && Unmovable(t, k, 0)
  }

  datatype Alloc = Failed | Allocated(slot: int, disp: Disp)

  // ------------------------------------------------------------ one call as a function

  /** Distance from `j` of the first free slot from distance `from` on, or `limit` if there is none below. */
  function FirstFree(t: Table, j: int, from: int, limit: int): (d: int)
    requires IsSlot(j) && 0 <= from <= limit < ENTRIES - 1
    ensures from <= d <= limit
    ensures forall e {:trigger Forward(j, e)} :: from <= e < d ==> t[Forward(j, e)].id.Held?
    ensures d < limit ==> t[Forward(j, d)].id.Free?
    decreases limit - from
  {
    if from == limit || t[Forward(j, from)].id.Free? then from else FirstFree(t, j, from + 1, limit)
  }

  /** The slot `n` steps before `k`. */
  function Back(k: int, n: int): (r: int)
    requires IsSlot(k) && 0 <= n <= NBSZ
    ensures IsSlot(r) && Dist(r, k) == n
  {
    Forward(k, ENTRIES - n)
  }

  /** How many steps, at most `n`, before the free slot `k` the furthest entry lies that may be moved there by
      its stored distance; 0 if there is none. */
  function Mover(t: Table, k: int, n: int): (m: int)
    requires IsSlot(k) && 0 <= n <= NBSZ
    ensures 0 <= m <= n
    ensures m > 0 ==> t[Back(k, m)].id.Held? && m <= NBSZ - 1 - t[Back(k, m)].id.disp
    ensures forall x {:trigger Back(k, x)} :: m < x <= n && t[Back(k, x)].id.Held? ==>
              x > NBSZ - 1 - t[Back(k, x)].id.disp
  {
    if n == 0 then 0
    else
      var x := t[Back(k, n)].id;
      if x.Held? && n <= NBSZ - 1 - x.disp then n else Mover(t, k, n - 1)
  }

  /** Move entries into the hole at distance `dist` from `j` until the hole is within reach or nothing can be
      moved: the table, and the distance of the hole. */
  function Displace(t: Table, j: int, dist: int): (r: (Table, int))
    requires IsSlot(j) && 0 <= dist < 5 * NBSZ
    ensures 0 <= r.1 <= dist
    decreases dist
  {
    var k := Forward(j, dist);
    var n := Mover(t, k, NBSZ);
    if dist < NBSZ || n == 0 then (t, dist)
    else Displace(MoveWrites(t, Back(k, n), k).2, j, dist - n)
  }

  lemma DisplaceNext(t: Table, j: int, dist: int)
    requires IsSlot(j) && NBSZ <= dist < 5 * NBSZ
    ensures var k := Forward(j, dist);
            var n := Mover(t, k, NBSZ);
            n > 0 ==> Displace(t, j, dist) == Displace(MoveWrites(t, Back(k, n), k).2, j, dist - n)
  {
  }

  lemma DisplaceEnd(t: Table, j: int, dist: int)
    requires IsSlot(j) && 0 <= dist < 5 * NBSZ
    ensures dist < NBSZ || Mover(t, Forward(j, dist), NBSZ) == 0 ==> Displace(t, j, dist) == (t, dist)
  {
  }

  function SlotAlloc(t: Table, h: u32): (r: (Alloc, Table))
    ensures r.0.Allocated? ==> r.0.slot == Forward(Home(h), r.0.disp)
  {
    var j := Home(h);
    var d := FirstFree(t, j, 0, NBSZ);
    var e := FirstFree(t, j, NBSZ, 5 * NBSZ);
    if d < NBSZ then (Allocated(Forward(j, d), d), t)
    else if e == 5 * NBSZ then (Failed, t)
    else
      var (u, f) := Displace(t, j, e);
      (if f < NBSZ then Allocated(Forward(j, f), f) else Failed, u)
  }

  function AddFlow(t: Table, hash: u32, fid: int): (bool, Table) {
    match SlotAlloc(t, hash)
    case (Failed, u) => (false, u)
    case (Allocated(i, d), u) => (true, AddWrites(u, i, d, fid, hash).1)
  }

  // ------------------------------------------------------------ the methods

  class FlowHashTable {
    const hte: array<Slot>

    ghost predicate Valid()
      reads this
    {
      hte.Length == ENTRIES
    }

    /** The first free slot from distance `from` on below distance `limit`; `limit` if there is none. */
    method FindFree(j: int, from: int, limit: int) returns (i: int, d: int)
      requires Valid() && IsSlot(j) && 0 <= from <= limit < ENTRIES - 1 && TakenUpTo(hte[..], j, from)
      ensures from <= d <= limit && i == Forward(j, d) && TakenUpTo(hte[..], j, d)
      ensures d == FirstFree(hte[..], j, from, limit)
    {
      hide Dist, TakenUpTo, Forward;
      var l := (j + limit) % ENTRIES;
      i := (j + from) % ENTRIES;
      d := from;
      ForwardInjective(j, d, limit);
      while i != l
        invariant from <= d <= limit
        invariant i == Forward(j, d)
        invariant l == Forward(j, limit)
        invariant i == l <==> d == limit
        invariant TakenUpTo(hte[..], j, d)
        invariant FirstFree(hte[..], j, d, limit) == FirstFree(hte[..], j, from, limit)
        decreases limit - d
      {
        if hte[i].id.Free? {
          return;
        }
        TakenNext(hte[..], j, d);
        NextSlot(j, d);
        i := (i + 1) % ENTRIES;
        d := d + 1;
        ForwardInjective(j, d, limit);
      }
    }

    /** Find a free slot for a new flow within reach of its home, moving other entries if need be. `trace`
        are the contents of the table after each memory write. */
    method FlowSlotAlloc(h: u32) returns (r: Alloc, ghost trace: seq<Table>)
      requires Valid()
      modifies hte
      ensures (r, hte[..]) == SlotAlloc(old(hte[..]), h)
      ensures trace != [] && trace[0] == old(hte[..]) && trace[|trace| - 1] == hte[..]
      ensures UniqueIds(trace[0]) ==> AllTracked(trace) && AllFound(trace)
      ensures Entries(hte[..]) == Entries(old(hte[..]))
      ensures r.Allocated? ==> r.slot == Forward(Home(h), r.disp) && hte[r.slot].id.Free?
      ensures r.Failed? ==> TakenUpTo(old(hte[..]), Home(h), 5 * NBSZ) || exists k :: Stuck(hte[..], Home(h), k)
      ensures r.Failed? ==> TakenUpTo(old(hte[..]), Home(h), NBSZ)
      ensures !TakenUpTo(old(hte[..]), Home(h), NBSZ) ==> hte[..] == old(hte[..])
    {
      hide Dist, UniqueIds, AllTracked, AllFound, Entries, MoveInv, TakenUpTo, Forward, Stuck, FirstFree, Mover,
        Displace, MoveWrites;
      var j := h % ENTRIES;
      var l := (j + NBSZ) % ENTRIES;
      trace := [hte[..]];
      ghost var t: Table := hte[..];
      EmptyTrace(t);
      NoneTaken(t, j);
      FoundAll(trace);
      var i, d := FindFree(j, 0, NBSZ);
      if d < NBSZ {
        return Allocated(i, d), trace;
      }
      i, d := FindFree(j, NBSZ, 5 * NBSZ);
      if d == 5 * NBSZ {
        return Failed, trace;
      }
      DistForward(j, d);
      StartInv(t, j, i);
      var ok;
      i, ok, trace := MakeRoom(j, l, i, trace);
      AllocDone(trace, j, i);
      DistForward(j, Dist(j, i));
      r := if ok then Allocated(i, W32(i - j) % ENTRIES) else Failed;
    }

    /** Move entries into the hole until it is within reach of `j`; `l` is the end of the neighbourhood. */
    method MakeRoom(j: int, l: int, hole: int, ghost before: seq<Table>)
      returns (i: int, ok: bool, ghost trace: seq<Table>)
      requires Valid() && IsSlot(j) && l == Forward(j, NBSZ)
      requires MoveInv(before, j, hole) && IsSlot(hole) && Dist(j, hole) < 5 * NBSZ && hole == Forward(j, Dist(j, hole))
      requires before != [] && before[|before| - 1] == hte[..]
      modifies hte
      ensures IsSlot(i) && MoveInv(trace, j, i)
      ensures trace != [] && trace[0] == before[0] && trace[|trace| - 1] == hte[..]
      ensures (hte[..], Dist(j, i)) == Displace(old(hte[..]), j, Dist(j, hole))
      ensures ok <==> Dist(j, i) < NBSZ
      ensures !ok ==> Stuck(hte[..], j, i)
    {
      hide Dist, UniqueIds, AllTracked, AllFound, Entries, MoveInv, TakenUpTo, Forward, Stuck, Mover, Displace,
        MoveWrites;
      ghost var t: Table := hte[..];
      i, trace := hole, before;
      OutOfReach(j, l, i);
      while (j > l || (i < j || i >= l)) && (j < l || (i >= l && i < j))
        invariant MoveInv(trace, j, i) && IsSlot(i) && Dist(j, i) < 5 * NBSZ
        invariant (j > l || (i < j || i >= l)) && (j < l || (i >= l && i < j)) <==> Dist(j, i) >= NBSZ
        invariant trace != [] && trace[0] == before[0] && trace[|trace| - 1] == hte[..]
        invariant i == Forward(j, Dist(j, i))
        invariant Displace(hte[..], j, Dist(j, i)) == Displace(t, j, Dist(j, hole))
        decreases Dist(j, i)
      {
        var k := i;
        i := FindMovable(j, k, trace);
        if i == k {
          DisplaceEnd(hte[..], j, Dist(j, k));
          return i, false, trace;
        }
        MoveKeeps(trace, j, k, i);
        DisplaceNext(hte[..], j, Dist(j, k));
        trace := Move(i, k, trace);
        DistForward(j, Dist(j, i));
        OutOfReach(j, l, i);
      }
      DisplaceEnd(hte[..], j, Dist(j, i));
      ok := true;
    }

    /** Register flow `fid`. */
    method ConnectionAdd(hash: u32, fid: int) returns (ok: bool, ghost trace: seq<Table>)
      requires Valid()
      modifies hte
      ensures (ok, hte[..]) == AddFlow(old(hte[..]), hash, fid)
      ensures trace != [] && trace[0] == old(hte[..]) && trace[|trace| - 1] == hte[..]
      ensures UniqueIds(trace[0]) ==> AllFound(trace)
      ensures !ok ==> TakenUpTo(old(hte[..]), Home(hash), NBSZ) && Entries(hte[..]) == Entries(old(hte[..]))
      ensures !ok ==> TakenUpTo(old(hte[..]), Home(hash), 5 * NBSZ) || exists k :: Stuck(hte[..], Home(hash), k)
      ensures ok ==>
                && Entries(hte[..]) == Entries(old(hte[..])) + multiset{(fid, hash)}
                && NeverMissed([hte[..]], fid, hash)
    {
      hide Dist, UniqueIds, AllTracked, AllFound, Entries, TakenUpTo, Forward, NeverMissed, Stuck, SlotAlloc;
      var r;
      r, trace := FlowSlotAlloc(hash);
      match r
      case Failed => ok := false;
      case Allocated(i, d) =>
        ghost var t: Table := hte[..];
        ghost var writes := AddWrites(t, i, d, fid, hash);
        hte[i] := hte[i].(hash := hash);
        assert hte[..] == writes.0;
        hte[i] := hte[i].(id := Held(d, fid));
        assert hte[..] == writes.1;
        AddRegisters(t, d, fid, hash);
        if UniqueIds(trace[0]) {
          AddTracked(trace, i, d, fid, hash);
          FoundAll(trace + [writes.0, writes.1]);
        }
        trace := trace + [writes.0, writes.1];
        ok := true;
    }

    /** Move the entry of slot `i` to the free slot `k`. */
    method Move(i: int, k: int, ghost trace: seq<Table>) returns (ghost after: seq<Table>)
      requires Valid() && IsSlot(i) && IsSlot(k) && i != k && hte[i].id.Held?
      requires trace != [] && trace[|trace| - 1] == hte[..]
      modifies hte
      ensures var (t1, t2, t3) := MoveWrites(old(hte[..]), i, k);
              after == trace + [t1, t2, t3] && hte[..] == t3
    {
      ghost var writes := MoveWrites(hte[..], i, k);
      hte[k] := hte[k].(hash := hte[i].hash);
      assert hte[..] == writes.0;
      hte[k] := hte[k].(id := Held(hte[i].id.disp, hte[i].id.fid));
      assert hte[..] == writes.1;
      hte[i] := hte[i].(id := Free);
      assert hte[..] == writes.2;
      after := trace + [writes.0, writes.1, writes.2];
    }

    /** The first of the entries just before the free slot `k` that can be moved there, or `k` itself. */
    method FindMovable(j: int, k: int, ghost trace: seq<Table>) returns (i: int)
      requires Valid() && IsSlot(j) && IsSlot(k) && NBSZ <= Dist(j, k) < 5 * NBSZ
      requires MoveInv(trace, j, k) && trace[|trace| - 1] == hte[..]
      ensures IsSlot(i) && Dist(j, k) - NBSZ <= Dist(j, i) <= Dist(j, k)
      ensures i != k ==>
                && Dist(j, i) < Dist(j, k) && hte[i].id.Held?
                && Dist(i, k) <= NBSZ - 1 - hte[i].id.disp
      ensures i == Back(k, Mover(hte[..], k, NBSZ)) && Dist(i, k) == Mover(hte[..], k, NBSZ)
      ensures Dist(j, i) == Dist(j, k) - Dist(i, k)
      ensures i == k ==> Stuck(hte[..], j, k)
    {
      hide MoveInv, Dist, Forward, Home, W32, Unmovable;
      UnmovableStart(hte[..], k);
      i := W32(k - NBSZ) % ENTRIES;
      ghost var n := NBSZ;
      StepsBack(j, k, n, i);
      while i != k
        invariant IsSlot(i) && 0 <= n <= NBSZ && Dist(i, k) == n && Dist(j, i) == Dist(j, k) - n
        invariant (i == k <==> n == 0) && i == W32(k - n) % ENTRIES
        invariant Unmovable(hte[..], k, n) && i == Back(k, n)
        invariant Mover(hte[..], k, n) == Mover(hte[..], k, NBSZ)
        decreases n
      {
        BeforeHoleTaken(trace, j, k, i);
        var d := NBSZ - 1 - hte[i].id.disp;
        if W32(k - i) % ENTRIES <= d {
          break;
        }
        StepsBack(j, k, n, i);
        UnmovableNext(hte[..], k, n, i);
        i := (i + 1) % ENTRIES;
        n := n - 1;
        StepsBack(j, k, n, i);
      }
      if i == k {
        InvFacts(trace, j, k);
      }
    }
  }

  lemma UnmovableStart(t: Table, k: int)
    requires IsSlot(k)
    ensures Unmovable(t, k, NBSZ)
  {
  }

  lemma UnmovableNext(t: Table, k: int, n: int, i: int)
    requires IsSlot(k) && IsSlot(i) && 0 < n <= NBSZ && Dist(i, k) == n && Unmovable(t, k, n)
    requires t[i].id.Held? && n > NBSZ - 1 - t[i].id.disp
    ensures Unmovable(t, k, n - 1)
  {
    forall x {:trigger t[x]} | IsSlot(x) && Dist(x, k) == n
      ensures x == i
    {
    }
  }

  /** The slot `n` steps before `k`, and the one after it. */
  lemma StepsBack(j: int, k: int, n: int, i: int)
    requires IsSlot(j) && IsSlot(k) && NBSZ <= Dist(j, k) && 0 <= n <= NBSZ
    requires i == W32(k - n) % ENTRIES
    ensures IsSlot(i) && Dist(i, k) == n && Dist(j, i) == Dist(j, k) - n && (i == k <==> n == 0)
    ensures i == Back(k, n)
    ensures n > 0 ==> (i + 1) % ENTRIES == W32(k - (n - 1)) % ENTRIES
  {
    hide W32;
    SlotBefore(k, n);
    if n > 0 {
      SlotBefore(k, n - 1);
    }
  }

  lemma SlotBefore(k: int, n: int)
    requires IsSlot(k) && 0 <= n <= NBSZ
    ensures W32(k - n) % ENTRIES == if k >= n then k - n else k - n + ENTRIES
  {
    if k >= n {
      ModSmall(k - n, ENTRIES);
      assert W32(k - n) == k - n;
    } else {
      assert W32(k - n) == k - n + TWO32;
      ModUnique(k - n + TWO32, ENTRIES, TWO32 / ENTRIES - 1, k - n + ENTRIES);
    }
  }

  lemma AllocDone(trace: seq<Table>, j: int, hole: int)
    requires MoveInv(trace, j, hole)
    ensures UniqueIds(trace[0]) ==> AllTracked(trace) && AllFound(trace)
    ensures trace[|trace| - 1][hole].id.Free?
    ensures Entries(trace[|trace| - 1]) == Entries(trace[0])
  {
    hide UniqueIds, AllTracked, AllFound, MoveInv, Entries;
    InvFacts(trace, j, hole);
    if UniqueIds(trace[0]) {
      FoundAll(trace);
    }
  }

  lemma NoneTaken(t: Table, j: int)
    requires IsSlot(j)
    ensures TakenUpTo(t, j, 0)
  {
  }

  lemma DistForward(j: int, d: int)
    requires IsSlot(j) && 0 <= d < ENTRIES
    ensures Dist(j, Forward(j, d)) == d
    ensures forall x {:trigger Dist(j, x)} :: IsSlot(x) && Dist(j, x) == d ==> x == Forward(j, d)
  {
  }

  lemma InvFacts(trace: seq<Table>, j: int, hole: int)
    requires MoveInv(trace, j, hole)
    ensures trace != [] && trace[|trace| - 1][hole].id.Free?
    ensures UniqueIds(trace[0]) ==> AllTracked(trace)
    ensures Entries(trace[|trace| - 1]) == Entries(trace[0])
  {
  }
}
