/** The queue manager as a priority queue over unbounded virtual time, plus a list of unlimited queues. */
module QmanSpec {
  import opened Word

  /** Queue attributes. `nextTs` is the 32-bit time at which the queue may fire next. */
  datatype Attr = Attr(nextTs: u32, rate: u32, avail: u32, maxChunk: u16, tag: int)

  /** `sorted` are the rate-limited active queues by key, `unlimited` the others in order of activation;
      `vt` and `rt` are virtual and real time in nanoseconds, without wrap-around. */
  datatype State = State(qs: seq<Attr>, sorted: seq<int>, unlimited: seq<int>, vt: int, rt: int)

  /** A queue that fired `bytes` bytes at virtual time `at`. */
  datatype Fired = Fired(idx: int, bytes: int, tag: int, at: int)

  /** What a poll returns of it. */
  datatype Shot = Shot(idx: int, bytes: int, tag: int)

  function ShotOf(f: Fired): Shot { Shot(f.idx, f.bytes, f.tag) }

  function Shots(log: seq<Fired>): (r: seq<Shot>)
    ensures |r| == |log|
  {
    seq(|log|, k requires 0 <= k < |log| => ShotOf(log[k]))
  }

  datatype Flags = Flags(setRate: bool, setChunk: bool, setTag: bool, setAvail: bool, addAvail: bool)

  // ------------------------------------------------------------ time

  /** Time relative to `cur`, ignoring wrap-arounds; the cases of the code. */
  function RelTime(cur: u32, ts: u32): int {
    if cur < TWO31 then
      var start := Sub32(cur, TWO31);
      if start <= ts then ts - start - TWO31 else ts - cur
    else if cur == TWO31 then
      ts - cur
    else
      var end := Add32(cur, TWO31) + 1;
      if ts < end then ts + (TWO32 - cur) else ts - cur
  }

  /** For times less than 2^31 ns apart this is their distance. */
  lemma RelTimeExact(vt: int, t: int)
    requires -TWO31 < t - vt < TWO31
    ensures RelTime(W32(vt), W32(t)) == t - vt
  {
    hide W32;
    W32Range(W32(vt) + (t - vt));
    W32Range(W32(vt) - TWO31);
    W32Range(W32(vt) + TWO31);
    W32Shift(vt, t - vt);
  }

  lemma RelTimeRange(cur: u32, ts: u32)
    ensures -TWO31 <= RelTime(cur, ts) <= TWO31
    ensures W32(cur + RelTime(cur, ts)) == ts
  {
    hide W32;
    W32Range(cur - TWO31);
    W32Range(cur + TWO31);
    W32Range(cur + RelTime(cur, ts));
  }

  function LessEq(now: u32, a: u32, b: u32): bool { RelTime(now, a) <= RelTime(now, b) }

  /** Nanoseconds that `bytes` bytes take at `rate` kbps. */
  function Delta(bytes: int, rate: u32): (r: int)
    requires 0 <= bytes && 0 < rate
    ensures 0 <= r
  {
    bytes * 8 * 1000000 / rate
  }

  lemma DeltaMonotone(a: int, b: int, rate: u32)
    requires 0 <= a <= b && 0 < rate
    ensures Delta(a, rate) <= Delta(b, rate)
  {
    var x, y := a * 8 * 1000000, b * 8 * 1000000;
    assert x == rate * (x / rate) + x % rate;
    assert y == rate * (y / rate) + y % rate;
    MulGap(rate, y / rate - x / rate);
    assert rate * (y / rate - x / rate) == rate * (y / rate) - rate * (x / rate);
  }

  /** Keys stay in range: the queue's rate is not so low that one chunk takes 2^31 ns. */
  predicate Paced(q: Attr) { q.rate == 0 || Delta(q.maxChunk, q.rate) < TWO31 }

  // ------------------------------------------------------------ invariant

  /** Time at which a queue may fire, in virtual time. */
  function Key(s: State, i: int): int
    requires 0 <= i < |s.qs|
  {
    s.vt + RelTime(W32(s.vt), s.qs[i].nextTs)
  }

  predicate Ids(n: int, q: seq<int>) { forall j {:trigger q[j]} :: 0 <= j < |q| ==> 0 <= q[j] < n }

  predicate Distinct(q: seq<int>) { forall a, b {:trigger q[a], q[b]} :: 0 <= a < b < |q| ==> q[a] != q[b] }

  /** No listed key lies in the past or 2^31 ns ahead. */
  ghost predicate KeysInRange(s: State)
    requires Ids(|s.qs|, s.sorted)
  {
    forall i :: i in s.sorted ==> s.vt <= Key(s, i) < s.vt + TWO31
  }

  ghost predicate SortedByKey(s: State)
    requires Ids(|s.qs|, s.sorted)
  {
    forall a, b {:trigger s.sorted[a], s.sorted[b]} :: 0 <= a < b < |s.sorted| ==>
      Key(s, s.sorted[a]) <= Key(s, s.sorted[b])
  }

  /** Every queue with credit is listed, and no queue is listed twice. */
  ghost predicate Inv(s: State) {
    && Ids(|s.qs|, s.sorted) && Ids(|s.qs|, s.unlimited)
    && Distinct(s.sorted) && Distinct(s.unlimited)
    && (forall i :: i in s.sorted ==> i !in s.unlimited)
    && (forall i {:trigger s.qs[i]} :: 0 <= i < |s.qs| && s.qs[i].avail > 0 ==> i in s.sorted || i in s.unlimited)
    && (forall i {:trigger s.qs[i]} :: 0 <= i < |s.qs| ==> Paced(s.qs[i]))
    && KeysInRange(s) && SortedByKey(s)
  }

  /** All credit is listed except perhaps that of queue `i`, which is not listed. */
  ghost predicate InvBut(s: State, i: int) {
    && 0 <= i < |s.qs| && i !in s.sorted && i !in s.unlimited
    && Inv(s.(qs := s.qs[i := s.qs[i].(avail := 0)]))
  }

  // ------------------------------------------------------------ activation

  /** A reasonable time to fire next: not in the past, and not later than after a full chunk. */
  function Clamp(now: u32, ts: u32, maxTs: u32): u32 {
    if LessEq(now, ts, now) then now
    else if !LessEq(now, ts, maxTs) then maxTs
    else ts
  }

  /** How many leading queues of `sorted` may fire no later than `ts`. */
  function Ahead(qs: seq<Attr>, now: u32, sorted: seq<int>, ts: u32): (r: int)
    requires Ids(|qs|, sorted)
    ensures 0 <= r <= |sorted|
    ensures forall j {:trigger sorted[j]} :: 0 <= j < r ==> LessEq(now, qs[sorted[j]].nextTs, ts)
    ensures r < |sorted| ==> !LessEq(now, qs[sorted[r]].nextTs, ts)
  {
    if sorted == [] || !LessEq(now, qs[sorted[0]].nextTs, ts) then 0
    else 1 + Ahead(qs, now, sorted[1..], ts)
  }

  function NewTs(now: u32, bytes: int, rate: u32): u32
    requires 0 <= bytes && 0 < rate
  {
    W32(now + Delta(bytes, rate))
  }

  /** Put queue `i` into the list its rate asks for; among equal keys it comes last. */
  function Activate(s: State, i: int): (r: State)
    requires 0 <= i < |s.qs| && Ids(|s.qs|, s.sorted)
    ensures |r.qs| == |s.qs| && r.vt == s.vt && r.rt == s.rt
  {
    var q := s.qs[i];
    if q.rate == 0 then
      s.(unlimited := s.unlimited + [i])
    else
      var now := W32(s.vt);
      var ts := Clamp(now, q.nextTs, NewTs(now, q.maxChunk, q.rate));
      var p := Ahead(s.qs, now, s.sorted, ts);
      s.(qs := s.qs[i := q.(nextTs := ts)], sorted := s.sorted[..p] + [i] + s.sorted[p..])
  }

  /** The 32-bit time after `bytes` bytes stands for the exact virtual time if and only if the bytes take less
      than 2^31 ns (at exactly 2^31 ns it depends on the current time). */
  lemma NewTsExact(now: u32, bytes: int, rate: u32)
    requires 0 <= bytes && 0 < rate
    ensures RelTime(now, NewTs(now, bytes, rate)) == Delta(bytes, rate)
       <==> Delta(bytes, rate) < TWO31 || (Delta(bytes, rate) == TWO31 && now > TWO31)
  {
    hide Delta;
    var d := Delta(bytes, rate);
    RelTimeRange(now, NewTs(now, bytes, rate));
    if d < TWO31 {
      RelTimeExact(now, now + d);
      assert W32(now) == now;
    }
  }

  /** One full segment at 1 kbps: the computed time lies in the past, so the queue fires again at once. */
  lemma SlowRateCounterexample()
    ensures RelTime(0, NewTs(0, 1448, 1)) < 0 < Delta(1448, 1)
  {
    assert Delta(1448, 1) == 11_584_000_000;
  }

  /** The clamped time in virtual time. */
  lemma ClampKey(vt: int, ts: u32, maxChunk: u16, rate: u32)
    requires 0 < rate && Delta(maxChunk, rate) < TWO31
    ensures var now := W32(vt);
            var d := Delta(maxChunk, rate);
            RelTime(now, Clamp(now, ts, NewTs(now, maxChunk, rate))) == Max(0, Min(d, RelTime(now, ts)))
  {
    hide Delta, RelTime, W32;
    var now := W32(vt);
    var d := Delta(maxChunk, rate);
    W32Shift(vt, d);
    RelTimeExact(vt, vt + d);
    RelTimeExact(vt, vt);
    RelTimeRange(now, ts);
  }

  lemma ActivateInv(s: State, i: int)
    requires InvBut(s, i)
    ensures Inv(Activate(s, i))
    ensures forall j :: 0 <= j < |s.qs| && j != i ==> Activate(s, i).qs[j] == s.qs[j]
    ensures Activate(s, i).qs[i] == s.qs[i].(nextTs := Activate(s, i).qs[i].nextTs)
  {
    var q := s.qs[i];
    var r := Activate(s, i);
    assert Paced(s.(qs := s.qs[i := s.qs[i].(avail := 0)]).qs[i]);
    if q.rate == 0 {
      assert forall j :: j in r.unlimited <==> j in s.unlimited || j == i;
      ActivateUnlimitedInv(s, i);
    } else {
      ClampKey(s.vt, q.nextTs, q.maxChunk, q.rate);
      ActivateSortedInv(s, i);
    }
  }

  lemma ActivateUnlimitedInv(s: State, i: int)
    requires InvBut(s, i) && s.qs[i].rate == 0
    ensures Inv(s.(unlimited := s.unlimited + [i]))
  {
    var z := s.(qs := s.qs[i := s.qs[i].(avail := 0)]);
    var r := s.(unlimited := s.unlimited + [i]);
    assert i == r.unlimited[|s.unlimited|];
    forall j | 0 <= j < |s.qs|
      ensures Paced(s.qs[j]) && (s.qs[j].avail > 0 ==> j in r.sorted || j in r.unlimited)
    {
      assert Paced(z.qs[j]);
    }
    SameKeys(z, r);
  }

  /** Keys depend only on virtual time and the queues' times. */
  lemma SameKeys(s: State, r: State)
    requires |r.qs| == |s.qs| && r.vt == s.vt && r.sorted == s.sorted && Ids(|s.qs|, s.sorted)
    requires forall i {:trigger r.qs[i]} :: 0 <= i < |s.qs| ==> r.qs[i].nextTs == s.qs[i].nextTs
    ensures KeysInRange(s) ==> KeysInRange(r)
    ensures SortedByKey(s) ==> SortedByKey(r)
  {
    assert forall i :: 0 <= i < |s.qs| ==> Key(r, i) == Key(s, i);
  }

  function Insert(q: seq<int>, p: int, i: int): seq<int>
    requires 0 <= p <= |q|
  {
    q[..p] + [i] + q[p..]
  }

  lemma InsertDistinct(q: seq<int>, p: int, i: int)
    requires 0 <= p <= |q| && Distinct(q) && i !in q
    ensures Distinct(Insert(q, p, i))
    ensures forall x :: x in Insert(q, p, i) <==> x in q || x == i
  {
    hide Insert;
    var r := Insert(q, p, i);
    InsertMembers(q, p, i);
    InsertIs(q, p, i);
    forall a, b {:trigger r[a], r[b]} | 0 <= a < b < |r|
      ensures r[a] != r[b]
    {
    }
  }

  lemma InsertIs(q: seq<int>, p: int, i: int)
    requires 0 <= p <= |q|
    ensures var r := Insert(q, p, i);
            && |r| == |q| + 1
            && forall j {:trigger r[j]} :: 0 <= j < |r| ==>
                 r[j] == if j < p then q[j] else if j == p then i else q[j - 1]
  {
    var r := Insert(q, p, i);
    forall j {:trigger r[j]} | 0 <= j < |r|
      ensures r[j] == if j < p then q[j] else if j == p then i else q[j - 1]
    {
      if j > p {
        assert r[j] == q[p..][j - p - 1];
      }
    }
  }

  lemma InsertMembers(q: seq<int>, p: int, i: int)
    requires 0 <= p <= |q|
    ensures forall x :: x in Insert(q, p, i) <==> x in q || x == i
  {
    assert q == q[..p] + q[p..];
  }

  /** Activation of a rate-limited queue: its key is its old time clamped to the next full chunk, and it goes
      behind all queues whose key is not greater. */
  lemma Activated(s: State, i: int) returns (p: int)
    requires 0 <= i < |s.qs| && Ids(|s.qs|, s.sorted) && i !in s.sorted
    requires s.qs[i].rate > 0 && Paced(s.qs[i])
    ensures 0 <= p <= |s.sorted|
    ensures var r := Activate(s, i);
            && r == State(s.qs[i := s.qs[i].(nextTs := r.qs[i].nextTs)], Insert(s.sorted, p, i), s.unlimited,
                          s.vt, s.rt)
            && Key(r, i) == s.vt + Max(0, Min(Delta(s.qs[i].maxChunk, s.qs[i].rate), Key(s, i) - s.vt))
            && (forall a :: 0 <= a < p ==> Key(s, s.sorted[a]) <= Key(r, i))
            && (p < |s.sorted| ==> Key(r, i) < Key(s, s.sorted[p]))
  {
    hide RelTime, W32, Delta;
    var q := s.qs[i];
    var now := W32(s.vt);
    var ts := Clamp(now, q.nextTs, NewTs(now, q.maxChunk, q.rate));
    p := Ahead(s.qs, now, s.sorted, ts);
    ClampKey(s.vt, q.nextTs, q.maxChunk, q.rate);
    forall a | 0 <= a < p
      ensures Key(s, s.sorted[a]) <= Key(Activate(s, i), i)
    {
      assert LessEq(now, s.qs[s.sorted[a]].nextTs, ts);
    }
  }

  /** Inserting a queue with a key in range at its place keeps keys in range and sorted. */
  lemma InsertKeys(s: State, r: State, p: int, i: int)
    requires |r.qs| == |s.qs| && 0 <= i < |s.qs| && Ids(|s.qs|, s.sorted) && i !in s.sorted
    requires KeysInRange(s) && SortedByKey(s)
    requires 0 <= p <= |s.sorted| && r.sorted == Insert(s.sorted, p, i) && r.vt == s.vt
    requires forall j {:trigger r.qs[j]} :: 0 <= j < |s.qs| && j != i ==> r.qs[j].nextTs == s.qs[j].nextTs
    requires s.vt <= Key(r, i) < s.vt + TWO31
    requires forall a :: 0 <= a < p ==> Key(s, s.sorted[a]) <= Key(r, i)
    requires p < |s.sorted| ==> Key(r, i) < Key(s, s.sorted[p])
    ensures Ids(|r.qs|, r.sorted) && KeysInRange(r) && SortedByKey(r)
  {
    hide RelTime, W32, Key, KeysInRange, SortedByKey;
    forall j | 0 <= j < |s.sorted|
      ensures s.sorted[j] != i && Key(r, s.sorted[j]) == Key(s, s.sorted[j])
      ensures s.vt <= Key(s, s.sorted[j]) < s.vt + TWO31
    {
      SameKey(s, r, s.sorted[j]);
      KeyInRange(s, j);
    }
    InsertedKeys(s, r, p, i);
  }

  lemma SameKey(s: State, r: State, j: int)
    requires |r.qs| == |s.qs| && 0 <= j < |s.qs| && r.vt == s.vt && r.qs[j].nextTs == s.qs[j].nextTs
    ensures Key(r, j) == Key(s, j)
  {
  }

  lemma KeyInRange(s: State, j: int)
    requires Ids(|s.qs|, s.sorted) && KeysInRange(s) && 0 <= j < |s.sorted|
    ensures s.vt <= Key(s, s.sorted[j]) < s.vt + TWO31
  {
    assert s.sorted[j] in s.sorted;
  }

  lemma KeysOrdered(s: State, a: int, b: int)
    requires Ids(|s.qs|, s.sorted) && SortedByKey(s) && 0 <= a <= b < |s.sorted|
    ensures Key(s, s.sorted[a]) <= Key(s, s.sorted[b])
  {
  }

  lemma InsertedKeys(s: State, r: State, p: int, i: int)
    requires |r.qs| == |s.qs| && 0 <= i < |s.qs| && Ids(|s.qs|, s.sorted) && SortedByKey(s)
    requires 0 <= p <= |s.sorted| && r.sorted == Insert(s.sorted, p, i) && r.vt == s.vt
    requires forall j {:trigger s.sorted[j]} :: 0 <= j < |s.sorted| ==>
               Key(r, s.sorted[j]) == Key(s, s.sorted[j]) && s.vt <= Key(s, s.sorted[j]) < s.vt + TWO31
    requires s.vt <= Key(r, i) < s.vt + TWO31
    requires forall a :: 0 <= a < p ==> Key(s, s.sorted[a]) <= Key(r, i)
    requires p < |s.sorted| ==> Key(r, i) < Key(s, s.sorted[p])
    ensures Ids(|r.qs|, r.sorted) && KeysInRange(r) && SortedByKey(r)
  {
    hide RelTime, W32, Key, SortedByKey;
    InsertIs(s.sorted, p, i);
    forall a, b {:trigger r.sorted[a], r.sorted[b]} | 0 <= a < b < |r.sorted|
      ensures Key(r, r.sorted[a]) <= Key(r, r.sorted[b])
    {
      if a != p && b != p {
        KeysOrdered(s, if a < p then a else a - 1, if b < p then b else b - 1);
      } else if a == p {
        KeysOrdered(s, p, b - 1);
      }
    }
    SortedFrom(r);
    forall j | j in r.sorted
      ensures s.vt <= Key(r, j) < s.vt + TWO31
    {
      var a :| 0 <= a < |r.sorted| && r.sorted[a] == j;
    }
  }

  lemma SortedFrom(s: State)
    requires Ids(|s.qs|, s.sorted)
    requires forall a, b {:trigger s.sorted[a], s.sorted[b]} :: 0 <= a < b < |s.sorted| ==>
               Key(s, s.sorted[a]) <= Key(s, s.sorted[b])
    ensures SortedByKey(s)
  {
  }

  lemma ActivateSortedInv(s: State, i: int)
    requires InvBut(s, i) && s.qs[i].rate > 0
    ensures Inv(Activate(s, i))
  {
    hide RelTime, W32, Delta, Activate;
    var z := s.(qs := s.qs[i := s.qs[i].(avail := 0)]);
    assert Paced(z.qs[i]);
    var p := Activated(s, i);
    var r := Activate(s, i);
    InsertDistinct(s.sorted, p, i);
    SameKeys(z, s);
    InsertKeys(s, r, p, i);
    forall j | 0 <= j < |s.qs|
      ensures Paced(r.qs[j])
      ensures r.qs[j].avail > 0 ==> j in r.sorted || j in r.unlimited
    {
      assert Paced(z.qs[j]);
    }
  }

  // ------------------------------------------------------------ firing

  /** Queue `i`, taken off its list, sends one chunk and is listed again if it has credit left. */
  function Fire(s: State, i: int): (r: (State, Fired))
    requires 0 <= i < |s.qs| && Ids(|s.qs|, s.sorted)
    ensures |r.0.qs| == |s.qs| && r.0.vt == s.vt && r.0.rt == s.rt
  {
    var q := s.qs[i];
    var bytes := Min(q.avail, q.maxChunk);
    var left := q.(avail := q.avail - bytes,
                   nextTs := if q.rate > 0 then NewTs(W32(s.vt), bytes, q.rate) else q.nextTs);
    var t := s.(qs := s.qs[i := left]);
    (if left.avail > 0 then Activate(t, i) else t, Fired(i, bytes, q.tag, s.vt))
  }

  lemma FireInv(s: State, i: int)
    requires InvBut(s, i)
    ensures Inv(Fire(s, i).0)
    ensures var r := Fire(s, i).0;
            && (forall j :: 0 <= j < |s.qs| && j != i ==> r.qs[j] == s.qs[j])
            && r.qs[i] == s.qs[i].(avail := s.qs[i].avail - Fire(s, i).1.bytes, nextTs := r.qs[i].nextTs)
  {
    hide RelTime, W32, Delta, Activate;
    var q := s.qs[i];
    var bytes := Min(q.avail, q.maxChunk);
    var left := q.(avail := q.avail - bytes,
                   nextTs := if q.rate > 0 then NewTs(W32(s.vt), bytes, q.rate) else q.nextTs);
    var t := s.(qs := s.qs[i := left]);
    Requeue(s, i, left);
    if left.avail > 0 {
      ActivateInv(t, i);
    } else {
      assert t.qs[i := t.qs[i].(avail := 0)] == t.qs;
    }
  }

  /** The attributes of an unlisted queue do not matter to the lists. */
  lemma Requeue(s: State, i: int, q: Attr)
    requires InvBut(s, i)
    requires q.rate == s.qs[i].rate && q.maxChunk == s.qs[i].maxChunk
    ensures InvBut(s.(qs := s.qs[i := q]), i)
  {
    hide RelTime, W32, Delta;
    var z := s.(qs := s.qs[i := s.qs[i].(avail := 0)]);
    var t := s.(qs := s.qs[i := q]);
    var y := t.(qs := t.qs[i := t.qs[i].(avail := 0)]);
    assert Paced(z.qs[i]);
    forall j | 0 <= j < |s.qs|
      ensures Paced(y.qs[j])
      ensures y.qs[j].avail > 0 ==> j in y.sorted || j in y.unlimited
    {
      assert Paced(z.qs[j]);
    }
    forall j | j in s.sorted
      ensures 0 <= j < |s.qs| && Key(y, j) == Key(z, j)
    {
      var a :| 0 <= a < |s.sorted| && s.sorted[a] == j;
    }
    forall a, b {:trigger y.sorted[a], y.sorted[b]} | 0 <= a < b < |y.sorted|
      ensures Key(y, y.sorted[a]) <= Key(y, y.sorted[b])
    {
      assert Key(z, z.sorted[a]) <= Key(z, z.sorted[b]);
      assert y.sorted[a] in s.sorted && y.sorted[b] in s.sorted;
    }
  }

  /** Virtual time may advance up to the smallest key without moving any key. */
  lemma AdvanceVt(s: State, vt: int)
    requires Ids(|s.qs|, s.sorted) && KeysInRange(s) && SortedByKey(s)
    requires s.vt <= vt && forall i :: i in s.sorted ==> vt <= Key(s, i)
    ensures var r := s.(vt := vt);
            && KeysInRange(r) && SortedByKey(r)
            && forall i :: i in s.sorted ==> Key(r, i) == Key(s, i)
  {
    var r := s.(vt := vt);
    forall i | i in s.sorted
      ensures Key(r, i) == Key(s, i)
    {
      var k := Key(s, i);
      RelTimeRange(W32(s.vt), s.qs[i].nextTs);
      assert s.qs[i].nextTs == W32(k) by {
        assert W32(W32(s.vt) + (k - s.vt)) == W32(k);
      }
      RelTimeExact(vt, k);
    }
    forall a, b {:trigger r.sorted[a], r.sorted[b]} | 0 <= a < b < |r.sorted|
      ensures Key(r, r.sorted[a]) <= Key(r, r.sorted[b])
    {
      assert Key(s, s.sorted[a]) <= Key(s, s.sorted[b]);
    }
  }

  /** The queue with the smallest key is taken off the list, and virtual time advances to its key. */
  function Pop(s: State): State
    requires s.sorted != [] && Ids(|s.qs|, s.sorted)
  {
    s.(sorted := s.sorted[1..], vt := Key(s, s.sorted[0]))
  }

  lemma PopInv(s: State)
    requires Inv(s) && s.sorted != []
    ensures InvBut(Pop(s), s.sorted[0])
    ensures s.vt <= Pop(s).vt && Pop(s).qs == s.qs
    ensures s.qs[s.sorted[0]].avail == 0 ==> Inv(Pop(s))
    ensures forall i :: i in s.sorted ==> Key(Pop(s), i) == Key(s, i)
  {
    hide RelTime, W32, Delta;
    var i := s.sorted[0];
    var p := Pop(s);
    var k := Key(s, i);
    assert i in s.sorted;
    forall j | j in s.sorted
      ensures k <= Key(s, j)
    {
      var a :| 0 <= a < |s.sorted| && s.sorted[a] == j;
      if a > 0 {
        assert Key(s, s.sorted[0]) <= Key(s, s.sorted[a]);
      }
    }
    AdvanceVt(s, k);
    var z := p.(qs := p.qs[i := p.qs[i].(avail := 0)]);
    PoppedKeys(s.(vt := k), z);
    PoppedKeys(s.(vt := k), p);
    Popped(s, z, i);
    if s.qs[i].avail == 0 {
      assert z == p;
    }
  }

  lemma PoppedKeys(s: State, r: State)
    requires Ids(|s.qs|, s.sorted) && KeysInRange(s) && SortedByKey(s) && s.sorted != []
    requires |r.qs| == |s.qs| && r.vt == s.vt && r.sorted == s.sorted[1..]
    requires forall i {:trigger r.qs[i]} :: 0 <= i < |s.qs| ==> r.qs[i].nextTs == s.qs[i].nextTs
    ensures Ids(|r.qs|, r.sorted) && KeysInRange(r) && SortedByKey(r)
  {
    hide RelTime, W32;
    assert forall i :: 0 <= i < |s.qs| ==> Key(r, i) == Key(s, i);
    assert forall a :: 0 <= a < |r.sorted| ==> r.sorted[a] == s.sorted[a + 1];
    assert forall i :: i in r.sorted ==> i in s.sorted;
  }

  /** The rest of a list without its head. */
  lemma TailDistinct(q: seq<int>)
    requires q != [] && Distinct(q)
    ensures Distinct(q[1..]) && q[0] !in q[1..]
    ensures forall x :: x in q <==> x == q[0] || x in q[1..]
  {
    var r := q[1..];
    assert q == [q[0]] + r;
    forall a | 0 <= a < |r|
      ensures r[a] == q[a + 1]
    {
    }
  }

  lemma Popped(s: State, z: State, i: int)
    requires Inv(s) && s.sorted != [] && i == s.sorted[0]
    requires z.qs == s.qs[i := s.qs[i].(avail := 0)] && z.sorted == s.sorted[1..] && z.unlimited == s.unlimited
    requires Ids(|z.qs|, z.sorted) && KeysInRange(z) && SortedByKey(z)
    ensures Inv(z) && i !in z.sorted && i !in z.unlimited
  {
    hide RelTime, W32, Delta, KeysInRange, SortedByKey;
    TailDistinct(s.sorted);
    forall j | 0 <= j < |z.qs|
      ensures Paced(z.qs[j])
      ensures z.qs[j].avail > 0 ==> j in z.sorted || j in z.unlimited
    {
      assert Paced(s.qs[j]);
    }
    assert i in s.sorted;
  }

  // ------------------------------------------------------------ polling

  function Rest(s: State, maxVt: int): State
    requires Ids(|s.qs|, s.sorted)
  {
    s.(vt := if s.sorted != [] && Key(s, s.sorted[0]) <= maxVt then Key(s, s.sorted[0]) else maxVt)
  }

  /** Fire up to `num` due queues in order of their keys, up to virtual time `maxVt`. */
  function SkipLoop(s: State, maxVt: int, num: nat): (r: (State, seq<Fired>))
    requires Inv(s) && s.vt <= maxVt
    ensures Inv(r.0) && s.vt <= r.0.vt <= maxVt && r.0.rt == s.rt && |r.0.qs| == |s.qs| && |r.1| <= num
    decreases num, |s.sorted|
  {
    if num == 0 || s.sorted == [] || Key(s, s.sorted[0]) > maxVt then
      RestInv(s, maxVt);
      (Rest(s, maxVt), [])
    else
      PopInv(s);
      var i := s.sorted[0];
      var p := Pop(s);
      if s.qs[i].avail > 0 then
        FireInv(p, i);
        var (t, f) := Fire(p, i);
        var (r, fs) := SkipLoop(t, maxVt, num - 1);
        (r, [f] + fs)
      else
        SkipLoop(p, maxVt, num)
  }

  lemma RestInv(s: State, maxVt: int)
    requires Inv(s) && s.vt <= maxVt
    ensures Inv(Rest(s, maxVt)) && s.vt <= Rest(s, maxVt).vt <= maxVt
    ensures forall i :: i in s.sorted ==> Key(Rest(s, maxVt), i) == Key(s, i)
  {
    hide RelTime, W32, Delta;
    var r := Rest(s, maxVt);
    if s.sorted != [] {
      assert s.sorted[0] in s.sorted;
    }
    forall j | j in s.sorted
      ensures r.vt <= Key(s, j)
    {
      var a :| 0 <= a < |s.sorted| && s.sorted[a] == j;
      if a > 0 {
        assert Key(s, s.sorted[0]) <= Key(s, s.sorted[a]);
      }
    }
    AdvanceVt(s, r.vt);
  }

  /** Poll the rate-limited queues at real time `now`. Virtual time runs no faster than real time. */
  function PollSkip(s: State, now: int, num: nat): (r: (State, seq<Fired>))
    requires Inv(s) && s.rt <= now
    ensures Inv(r.0) && r.0.rt == now && |r.0.qs| == |s.qs| && |r.1| <= num
    ensures 0 <= r.0.vt - s.vt <= now - s.rt
  {
    var (t, fs) := SkipLoop(s, s.vt + (now - s.rt), num);
    RealTimeInv(t, now);
    (t.(rt := now), fs)
  }

  lemma RealTimeInv(s: State, now: int)
    requires Inv(s)
    ensures Inv(s.(rt := now))
  {
    hide RelTime, W32, Delta;
    var r := s.(rt := now);
    SameKeys(s, r);
  }

  /** Fire up to `num` unlimited queues in order of activation. */
  function PollUnlimited(s: State, num: nat): (r: (State, seq<Fired>))
    requires Inv(s)
    ensures Inv(r.0) && r.0.vt == s.vt && r.0.rt == s.rt && |r.0.qs| == |s.qs| && |r.1| <= num
    decreases num, |s.unlimited|
  {
    if num == 0 || s.unlimited == [] then
      (s, [])
    else
      DropInv(s);
      var i := s.unlimited[0];
      var p := s.(unlimited := s.unlimited[1..]);
      if s.qs[i].avail > 0 then
        FireInv(p, i);
        var (t, f) := Fire(p, i);
        var (r, fs) := PollUnlimited(t, num - 1);
        (r, [f] + fs)
      else
        PollUnlimited(p, num)
  }

  lemma DropInv(s: State)
    requires Inv(s) && s.unlimited != []
    ensures var p := s.(unlimited := s.unlimited[1..]);
            && InvBut(p, s.unlimited[0])
            && (s.qs[s.unlimited[0]].avail == 0 ==> Inv(p))
  {
    hide RelTime, W32, Delta;
    var i := s.unlimited[0];
    var p := s.(unlimited := s.unlimited[1..]);
    var z := p.(qs := p.qs[i := p.qs[i].(avail := 0)]);
    TailDistinct(s.unlimited);
    assert Ids(|s.qs|, p.unlimited);
    forall j | 0 <= j < |z.qs|
      ensures Paced(z.qs[j])
      ensures z.qs[j].avail > 0 ==> j in z.sorted || j in z.unlimited
    {
      assert Paced(s.qs[j]);
    }
    SameKeys(s, z);
    SameKeys(s, p);
    if s.qs[i].avail == 0 {
      assert z == p;
    }
  }

  /** Both lists, alternating which comes first. */
  function Poll(s: State, now: int, num: nat, unlimitedFirst: bool): (r: (State, seq<Fired>))
    requires Inv(s) && s.rt <= now
    ensures Inv(r.0) && r.0.rt == now && |r.0.qs| == |s.qs| && |r.1| <= num
    ensures 0 <= r.0.vt - s.vt <= now - s.rt
  {
    if unlimitedFirst then
      var (t, fs) := PollUnlimited(s, num);
      var (r, gs) := PollSkip(t, now, num - |fs|);
      (r, fs + gs)
    else
      var (t, fs) := PollSkip(s, now, num);
      var (r, gs) := PollUnlimited(t, num - |fs|);
      (r, fs + gs)
  }

  // ------------------------------------------------------------ setting

  /** The attributes after an update. */
  function Updated(q: Attr, rate: u32, avail: u32, maxChunk: u16, tag: int, f: Flags): Attr {
    q.(rate := if f.setRate then rate else q.rate,
       maxChunk := if f.setChunk then maxChunk else q.maxChunk,
       tag := if f.setTag then tag else q.tag,
       avail := if f.setAvail then avail else if f.addAvail then Add32(q.avail, avail) else q.avail)
  }

  predicate Listed(s: State, i: int) { i in s.sorted || i in s.unlimited }

  /** Update a queue; list it if it now has credit and is not listed yet. */
  function Set(s: State, i: int, rate: u32, avail: u32, maxChunk: u16, tag: int, f: Flags): (r: State)
    requires 0 <= i < |s.qs| && Inv(s) && Paced(Updated(s.qs[i], rate, avail, maxChunk, tag, f))
    ensures Inv(r) && |r.qs| == |s.qs| && r.vt == s.vt && r.rt == s.rt
  {
    var q := Updated(s.qs[i], rate, avail, maxChunk, tag, f);
    var t := s.(qs := s.qs[i := q]);
    SetInv(s, i, q);
    if (f.setAvail || f.addAvail) && q.avail > 0 && !Listed(s, i) then
      ActivateInv(t, i);
      Activate(t, i)
    else
      t
  }

  lemma SetInv(s: State, i: int, q: Attr)
    requires 0 <= i < |s.qs| && Inv(s) && Paced(q) && q.nextTs == s.qs[i].nextTs
    ensures var t := s.(qs := s.qs[i := q]);
            if Listed(s, i) || q.avail == 0 then Inv(t) else InvBut(t, i)
  {
    hide RelTime, W32, Delta;
    var t := s.(qs := s.qs[i := q]);
    var z := t.(qs := t.qs[i := t.qs[i].(avail := 0)]);
    forall j | 0 <= j < |s.qs|
      ensures Paced(t.qs[j]) && Paced(z.qs[j])
      ensures j != i && t.qs[j].avail > 0 ==> j in s.sorted || j in s.unlimited
    {
      assert Paced(s.qs[j]);
    }
    SameKeys(s, t);
    SameKeys(s, z);
  }
}
