/** The redirection table of the NIC and its copies, as cores come and go. */
module Rss {
  import opened RssBalance

  /** Steering table and bucket counts agree with the redirection table. */
  ghost predicate Agree(reta: seq<nat>, steering: seq<nat>, buckets: seq<nat>, cur: nat) {
    steering == reta && Counts(reta, buckets, cur)
  }

  /** The NIC has the same table up to the masked entries. */
  ghost predicate HwUpTo(hw: seq<nat>, reta: seq<nat>, mask: seq<bool>) {
    && |hw| == |reta| == |mask|
    && forall k :: 0 <= k < |reta| ==> mask[k] || hw[k] == reta[k]
  }

  class NicRss {
    const reta: array<nat>
    const mask: array<bool>
    const steering: array<nat>
    const buckets: array<nat>
    /** What the NIC was told. */
    const hw: array<nat>

    ghost predicate Shape()
      reads this
    {
      && reta != steering && reta != buckets && reta != hw && steering != buckets && steering != hw && buckets != hw
      && reta.Length == mask.Length == steering.Length == hw.Length < 0x1_0000
      && reta.Length > 0 && buckets.Length <= 256
    }

    ghost predicate Inside(cur: nat)
      reads this, reta, mask, steering, buckets, hw
    {
      && Shape() && 0 < cur
      && Agree(reta[..], steering[..], buckets[..], cur)
      && HwUpTo(hw[..], reta[..], mask[..])
    }

    /** Between calls all copies agree, and only the first `cur` cores have buckets. */
    ghost predicate Valid(cur: nat)
      reads this, reta, mask, steering, buckets, hw
    {
      Inside(cur) && hw[..] == reta[..]
    }

    /** Tables for `size` buckets and up to `cores` cores, not yet set up. */
    constructor (size: nat, cores: nat)
      requires 0 < size < 0x1_0000 && cores <= 256
      ensures Shape() && reta.Length == size && buckets.Length == cores && buckets[..] == seq(cores, _ => 0)
      ensures fresh(reta) && fresh(mask) && fresh(steering) && fresh(buckets) && fresh(hw)
    {
      reta := new nat[size];
      mask := new bool[size];
      steering := new nat[size];
      buckets := new nat[cores](_ => 0);
      hw := new nat[size];
    }

    /** The first core with fewer buckets than all before, counting from 255. */
    method CoreMin(num: nat) returns (min: nat)
      requires 0 < num <= buckets.Length
      ensures IsCoreMin(buckets[..], num, min)
    {
      min := 0;
      var v := 255;
      var i := 0;
      while i < num
        invariant i <= num && min < num && v <= LIMIT
        invariant forall j :: 0 <= j < i ==> v <= buckets[j]
        invariant if v < LIMIT then min < i && buckets[min] == v else min == 0
      {
        if buckets[i] < v {
          v := buckets[i];
          min := i;
        }
        i := i + 1;
      }
    }

    /** The last core with the most buckets. */
    method CoreMax(num: nat) returns (max: nat)
      requires 0 < num <= buckets.Length
      ensures max < num && forall i :: 0 <= i < num ==> buckets[i] <= buckets[max]
    {
      max := 0;
      var v := 0;
      var i := 0;
      while i < num
        invariant i <= num && max < num
        invariant i > 0 ==> max < i && v == buckets[max]
        invariant i == 0 ==> v == 0
        invariant forall j :: 0 <= j < i ==> buckets[j] <= v
      {
        if buckets[i] >= v {
          v := buckets[i];
          max := i;
        }
        i := i + 1;
      }
    }

    /** Give bucket `k` to core `to`. */
    method Give(k: nat, to: nat, ghost cur: nat)
      requires Inside(cur) && k < reta.Length && to < cur && to != reta[k]
      modifies reta, mask, steering, buckets
      ensures Inside(cur) && reta[..] == old(reta[..])[k := to] && hw[..] == old(hw[..])
      ensures old(buckets[..][reta[k]]) > 0
      ensures buckets[..] == Transfer(old(buckets[..]), old(reta[k]), to)
    {
      ghost var r, b := reta[..], buckets[..];
      MoveCounts(r, b, cur, k, to);
      var from := reta[k];
      mask[k] := true;
      reta[k] := to;
      steering[k] := to;
      assert reta[..] == r[k := to] && steering[..] == r[k := to];
      buckets[from] := buckets[from] - 1;
      buckets[to] := buckets[to] + 1;
      assert buckets[..] == Transfer(b, from, to);
    }

    /** The next bucket of core `c`, searching in a circle from `start`. */
    method Search(start: nat, c: nat, ghost cur: nat) returns (k: nat)
      requires Inside(cur) && start < reta.Length && c < cur && buckets[c] > 0
      ensures k < reta.Length && reta[k] == c
    {
      hide Count, HwUpTo;
      assert Count(reta[..], c) == buckets[..][c] > 0;
      CountPositive(reta[..], c);
      ghost var hit :| 0 <= hit < reta.Length && reta[..][hit] == c;
      k := start;
      while reta[k] != c
        invariant k < reta.Length && hit < reta.Length && reta[hit] == c
        decreases if k <= hit then hit - k else hit + reta.Length - k
      {
        NextInCircle(k, reta.Length);
        k := (k + 1) % reta.Length;
      }
    }

    method ClearMask()
      requires Shape() && hw[..] == reta[..]
      modifies mask
      ensures HwUpTo(hw[..], reta[..], mask[..])
    {
      var k := 0;
      while k < mask.Length
        invariant k <= mask.Length && hw[..] == reta[..]
      {
        mask[k] := false;
        k := k + 1;
      }
      forall i | 0 <= i < reta.Length
        ensures hw[i] == reta[i]
      {
        assert hw[..][i] == reta[..][i];
      }
    }

    /** The NIC takes over the masked entries. */
    method RetaUpdate()
      requires Shape() && HwUpTo(hw[..], reta[..], mask[..])
      modifies hw
      ensures hw[..] == reta[..]
    {
      var k := 0;
      while k < hw.Length
        invariant k <= hw.Length && reta[..] == old(reta[..])
        invariant forall i :: 0 <= i < k ==> hw[i] == reta[i]
        invariant forall i :: k <= i < hw.Length ==> hw[i] == old(hw[i])
      {
        assert old(mask[..][k]) || old(hw[..][k]) == old(reta[..][k]);
        if mask[k] {
          hw[k] := reta[k];
        }
        k := k + 1;
      }
    }

    /** Give each new core its share of the buckets, each taken from a core that has the most. */
    method ScaleUp(was: nat, now: nat)
      requires Valid(was) && was < now <= buckets.Length
      modifies reta, mask, steering, buckets, hw
      ensures Valid(now)
      ensures forall c :: was <= c < now ==> buckets[c] == reta.Length / now
      ensures forall k :: 0 <= k < reta.Length && reta[k] < was ==> reta[k] == old(reta[k])
      ensures old(Balanced(buckets[..], was)) ==> (Balanced(buckets[..], now) <==> reta.Length % now <= was)
    {
      var share := reta.Length / now;
      StartUp(reta[..], buckets[..], was, now);
      ClearMask();
      var j, k := was, 0;
      while j < now
        invariant was <= j <= now && Inside(now) && 0 <= k < reta.Length
        invariant UpInv(buckets[..], old(buckets[..]), was, now, j, 0, share, reta.Length)
        invariant forall x :: 0 <= x < reta.Length && reta[x] < was ==> reta[x] == old(reta[x])
      {
        k := GiveShare(was, now, j, share, k, old(buckets[..]), old(reta[..]));
        j := j + 1;
      }
      EndUp(buckets[..], old(buckets[..]), was, now, share, reta.Length);
      RetaUpdate();
    }

    /** The inner loop: `share` buckets for core `j`. */
    method GiveShare(was: nat, now: nat, j: nat, share: nat, start: nat, ghost b0: seq<nat>, ghost r0: seq<nat>)
      returns (k: nat)
      requires Inside(now) && 0 < was <= j < now <= buckets.Length && start < reta.Length && share == reta.Length / now
      requires UpInv(buckets[..], b0, was, now, j, 0, share, reta.Length)
      requires |r0| == reta.Length && forall x :: 0 <= x < reta.Length && reta[x] < was ==> reta[x] == r0[x]
      modifies reta, mask, steering, buckets
      ensures Inside(now) && k < reta.Length && hw[..] == old(hw[..])
      ensures UpInv(buckets[..], b0, was, now, j + 1, 0, share, reta.Length)
      ensures forall x :: 0 <= x < reta.Length && reta[x] < was ==> reta[x] == r0[x]
    {
      hide Count, HwUpTo, Sum, Balanced, UpInv, Agree;
      k := start;
      var i := 0;
      while i < share
        invariant 0 <= i <= share && Inside(now) && k < reta.Length && hw[..] == old(hw[..])
        invariant UpInv(buckets[..], b0, was, now, j, i, share, reta.Length)
        invariant forall x :: 0 <= x < reta.Length && reta[x] < was ==> reta[x] == r0[x]
      {
        var c := CoreMax(was);
        UpStep(buckets[..], b0, was, now, j, i, share, reta.Length, c);
        k := Search(k, c, now);
        ghost var r := reta[..];
        Give(k, j, now);
        assert forall x :: 0 <= x < reta.Length ==> reta[x] == if x == k then j else r[x];
        i := i + 1;
      }
      UpNext(buckets[..], b0, was, now, j, share, reta.Length);
    }

    /** Move every bucket of the upper cores to a core that has the fewest. */
    method ScaleDown(was: nat, now: nat)
      requires Valid(was) && 0 < now < was
      modifies reta, mask, steering, buckets, hw
      ensures Valid(now)
      ensures forall k :: 0 <= k < reta.Length && old(reta[k]) < now ==> reta[k] == old(reta[k])
      ensures old(Balanced(buckets[..], was)) ==>
                (Balanced(buckets[..], now) <==> now == 1 || reta.Length <= LIMIT * now + 1)
    {
      StartDown(reta[..], buckets[..], was, now);
      ClearMask();
      var i := 0;
      while i < reta.Length
        invariant 0 <= i <= reta.Length && Inside(was)
        invariant DownInv(reta[..], buckets[..], old(reta[..]), old(buckets[..]), was, now, i)
      {
        hide Count, HwUpTo, Sum, Balanced, Given, Agree;
        var from := reta[i];
        if from >= now {
          var to := CoreMin(now);
          DownStep(reta[..], buckets[..], old(reta[..]), old(buckets[..]), was, now, i, to);
          Give(i, to, was);
        } else {
          DownSkip(reta[..], buckets[..], old(reta[..]), old(buckets[..]), was, now, i);
        }
        i := i + 1;
      }
      EndDown(reta[..], buckets[..], old(reta[..]), old(buckets[..]), was, now);
      RetaUpdate();
    }

    /** Bucket `i` is the next one of core `c`. */
    method SetupOne(i: nat, c: nat, ghost cur: nat)
      requires Shape() && i < reta.Length && c < cur <= buckets.Length
      requires Counts(reta[..i], buckets[..], cur) && steering[..i] == reta[..i]
      modifies reta, mask, steering, buckets
      ensures Counts(reta[..i + 1], buckets[..], cur) && steering[..i + 1] == reta[..i + 1]
      ensures buckets[..] == old(buckets[..])[c := old(buckets[c]) + 1]
      ensures mask[..i + 1] == old(mask[..i]) + [true]
    {
      hide Count, Counts;
      ghost var r, b, s := reta[..i], buckets[..], mask[..i];
      buckets[c] := buckets[c] + 1;
      mask[i] := true;
      reta[i] := c;
      steering[i] := c;
      assert buckets[..] == b[c := b[c] + 1];
      assert reta[..i + 1] == r + [c] && steering[..i + 1] == r + [c] && mask[..i + 1] == s + [true];
      CountAppend(r, b, c, cur);
    }

    /** Spread the buckets over `cur` cores in turn. */
    method RetaSetup(cur: nat)
      requires Shape() && 0 < cur <= buckets.Length && forall c :: 0 <= c < buckets.Length ==> buckets[c] == 0
      modifies reta, mask, steering, buckets, hw
      ensures Valid(cur) && Balanced(buckets[..], cur)
    {
      var i, c := 0, 0;
      hide Count, InTurn;
      CountEmpty(reta[..0], buckets[..]);
      TurnStarts(buckets[..], cur);
      while i < reta.Length
        invariant 0 <= i <= reta.Length && 0 <= c < cur <= buckets.Length
        invariant Counts(reta[..i], buckets[..], cur) && steering[..i] == reta[..i]
        invariant InTurn(buckets[..], cur, c)
        invariant forall k :: 0 <= k < i ==> mask[..i][k]
      {
        ghost var b := buckets[..];
        SetupOne(i, c, cur);
        TurnNext(b, cur, c);
        NextInCircle(c, cur);
        c := (c + 1) % cur;
        i := i + 1;
      }
      assert reta[..i] == reta[..] && steering[..i] == steering[..] && mask[..i] == mask[..];
      TurnBalanced(buckets[..], cur, c);
      RetaUpdate();
    }
  }

  // ------------------------------------------------------------ two tables that end up unbalanced

  /** A table of 512 buckets, spread evenly over three cores and then scaled down to two. */
  method UnbalancedDown() returns (nic: NicRss)
    ensures nic.Valid(2) && nic.reta.Length == 512 && !Balanced(nic.buckets[..], 2)
  {
    nic := new NicRss(512, 3);
    assert forall c :: 0 <= c < 3 ==> nic.buckets[..][c] == 0;
    nic.RetaSetup(3);
    nic.ScaleDown(3, 2);
  }

  /** A table of 128 buckets on one core, scaled up to seven. */
  method UnbalancedUp() returns (nic: NicRss)
    ensures nic.Valid(7) && nic.reta.Length == 128 && !Balanced(nic.buckets[..], 7)
  {
    nic := new NicRss(128, 7);
    assert forall c :: 0 <= c < 7 ==> nic.buckets[..][c] == 0;
    nic.RetaSetup(1);
    nic.ScaleUp(1, 7);
  }

  // ------------------------------------------------------------ scaling up

  /** `i` buckets were given to core `j`, and `share` to each of the new ones before. */
  ghost predicate UpInv(b: seq<nat>, b0: seq<nat>, was: nat, now: nat, j: nat, i: nat, share: nat, size: nat) {
    && 0 < was <= j <= now <= |b| == |b0| && i <= share && (j < now || i == 0)
    && (forall c :: was <= c < now ==> b[c] == if c < j then share else if c == j then i else 0)
    && Sum(b, was) + (j - was) * share + i == size
    && share * now <= size
    && (Balanced(b0, was) ==> Balanced(b, was))
  }

  lemma StartUp(reta: seq<nat>, b: seq<nat>, was: nat, now: nat)
    requires Counts(reta, b, was) && 0 < was < now <= |b|
    ensures Counts(reta, b, now)
    ensures UpInv(b, b, was, now, was, 0, |reta| / now, |reta|)
  {
    hide Sum, Balanced, Count;
    forall c | was <= c < now
      ensures b[c] == 0
    {
      CountAbsent(reta, c);
    }
    SumCounts(reta, was, b);
    DivMod(|reta|, now);
    var share := |reta| / now;
    assert (was - was) * share == 0;
  }

  lemma UpStep(b: seq<nat>, b0: seq<nat>, was: nat, now: nat, j: nat, i: nat, share: nat, size: nat, c: nat)
    requires UpInv(b, b0, was, now, j, i, share, size) && j < now && i < share
    requires c < was && forall x :: 0 <= x < was ==> b[x] <= b[c]
    ensures b[c] > 0 && c != j && UpInv(Transfer(b, c, j), b0, was, now, j, i + 1, share, size)
  {
    hide Sum, Balanced;
    assert (j - was) * share + i < share * now by {
      assert (j - was) * share + share == (j - was + 1) * share;
      MulLe(j - was + 1, now, share);
    }
    SumPositive(b, was, c);
    var d := b[c := b[c] - 1];
    if Balanced(b0, was) {
      TakeFromMax(b, was, c);
      BalancedFrame(d, d[j := d[j] + 1], was);
    }
    SumUpdate(b, was, c, b[c] - 1);
    SumUpdate(d, was, j, d[j] + 1);
  }

  lemma BalancedFrame(b: seq<nat>, d: seq<nat>, n: nat)
    requires n <= |b| && n <= |d| && Balanced(b, n) && forall i :: 0 <= i < n ==> b[i] == d[i]
    ensures Balanced(d, n)
  {
  }

  lemma MulLe(x: int, y: int, z: int)
    requires x <= y && 0 <= z
    ensures x * z <= z * y
  {
  }

  lemma UpNext(b: seq<nat>, b0: seq<nat>, was: nat, now: nat, j: nat, share: nat, size: nat)
    requires UpInv(b, b0, was, now, j, share, share, size) && j < now
    ensures UpInv(b, b0, was, now, j + 1, 0, share, size)
  {
    assert (j + 1 - was) * share == (j - was) * share + share;
  }

  lemma EndUp(b: seq<nat>, b0: seq<nat>, was: nat, now: nat, share: nat, size: nat)
    requires UpInv(b, b0, was, now, now, 0, share, size) && was < now && share == size / now
    ensures Balanced(b0, was) ==> (Balanced(b, now) <==> size % now <= was)
  {
    hide Sum, Balanced;
    if Balanced(b0, was) {
      UpBalancedExactly(b, was, now, size);
    }
  }

  // ------------------------------------------------------------ scaling down

  /** The first `i` buckets are those of the lower cores; the others are as before. */
  ghost predicate DownInv(reta: seq<nat>, b: seq<nat>, r0: seq<nat>, b0: seq<nat>, was: nat, now: nat, i: nat) {
    && |reta| == |r0| && i <= |reta| && 0 < now < was <= |b| == |b0|
    && Counts(reta, b, was)
    && (forall k :: 0 <= k < |reta| && (k >= i || r0[k] < now) ==> reta[k] == r0[k])
    && (forall k :: 0 <= k < i ==> reta[k] < now)
    && Sum(b0, was) == |reta|
    && Given(b0, b, now)
    && (Balanced(b0, was) && |reta| <= LIMIT * now + 1 ==> Balanced(b, now))
  }

  lemma StartDown(reta: seq<nat>, b: seq<nat>, was: nat, now: nat)
    requires Counts(reta, b, was) && 0 < now < was
    ensures DownInv(reta, b, reta, b, was, now, 0)
  {
    SumCounts(reta, was, b);
  }

  lemma DownStep(reta: seq<nat>, b: seq<nat>, r0: seq<nat>, b0: seq<nat>, was: nat, now: nat, i: nat, c: nat)
    requires DownInv(reta, b, r0, b0, was, now, i) && i < |reta| && reta[i] >= now && IsCoreMin(b, now, c)
    ensures b[reta[i]] > 0 && c != reta[i]
    ensures DownInv(reta[i := c], Transfer(b, reta[i], c), r0, b0, was, now, i + 1)
  {
    hide Sum, Balanced, IsCoreMin;
    assert c < now by {
      MinBound(b, now, c);
    }
    MoveCounts(reta, b, was, i, c);
    var d := b[reta[i] := b[reta[i]] - 1];
    assert forall x :: 0 <= x < now ==> b[x] == d[x];
    GiveGiven(b0, b, now, c);
    if Balanced(b0, was) && |reta| <= LIMIT * now + 1 {
      SumLess(reta, b, was, now, i);
      GiveKeepsBalance(b, now, c);
      BalancedFrame(b[c := b[c] + 1], d[c := d[c] + 1], now);
    }
  }

  lemma MinBound(b: seq<nat>, n: nat, c: nat)
    requires n <= |b| && IsCoreMin(b, n, c)
    ensures c < n
  {
  }

  /** While a bucket is left above, the lower cores hold fewer than all. */
  lemma SumLess(reta: seq<nat>, b: seq<nat>, was: nat, now: nat, i: nat)
    requires Counts(reta, b, was) && i < |reta| && now <= reta[i] < was
    ensures Sum(b, now) < |reta|
  {
    SumCounts(reta, was, b);
    CountUpdate(reta, i, was, reta[i]);
    assert b[reta[i]] > 0;
    SumMono(b, now, was, reta[i]);
  }

  lemma {:induction false} SumMono(b: seq<nat>, n: nat, m: nat, c: nat)
    requires n <= c < m <= |b| && b[c] > 0
    ensures Sum(b, n) < Sum(b, m)
    decreases m
  {
    if c < m - 1 {
      SumMono(b, n, m - 1, c);
    } else {
      SumGrows(b, n, m - 1);
    }
  }

  lemma {:induction false} SumGrows(b: seq<nat>, n: nat, m: nat)
    requires n <= m <= |b|
    ensures Sum(b, n) <= Sum(b, m)
    decreases m
  {
    if n < m {
      SumGrows(b, n, m - 1);
    }
  }

  lemma DownSkip(reta: seq<nat>, b: seq<nat>, r0: seq<nat>, b0: seq<nat>, was: nat, now: nat, i: nat)
    requires DownInv(reta, b, r0, b0, was, now, i) && i < |reta| && reta[i] < now
    ensures DownInv(reta, b, r0, b0, was, now, i + 1)
  {
    hide Sum, Balanced, Given, Counts;
  }

  lemma EndDown(reta: seq<nat>, b: seq<nat>, r0: seq<nat>, b0: seq<nat>, was: nat, now: nat)
    requires DownInv(reta, b, r0, b0, was, now, |reta|)
    ensures Counts(reta, b, now)
    ensures forall k :: 0 <= k < |reta| && r0[k] < now ==> reta[k] == r0[k]
    ensures Balanced(b0, was) ==> (Balanced(b, now) <==> now == 1 || |reta| <= LIMIT * now + 1)
  {
    hide Sum, Balanced, Given;
    SumCounts(reta, now, b);
    if now == 1 {
      OneBalanced(b);
    } else if Balanced(b0, was) && |reta| > LIMIT * now + 1 {
      DownUnbalanced(b0, b, was, now, |reta|);
    }
  }

  lemma OneBalanced(b: seq<nat>)
    requires |b| > 0
    ensures Balanced(b, 1)
  {
  }

  lemma NextInCircle(k: nat, n: nat)
    requires k < n
    ensures (k + 1) % n == if k + 1 < n then k + 1 else 0
  {
    if k + 1 < n {
      assert (k + 1) % n == k + 1;
    }
  }

  /** The first `c` cores have one bucket more than the others. */
  ghost predicate InTurn(b: seq<nat>, cur: nat, c: nat) {
    cur <= |b| && forall d, e {:trigger b[d], b[e]} :: 0 <= d < cur && 0 <= e < cur ==>
      b[d] as int - b[e] == (if d < c then 1 else 0) - (if e < c then 1 else 0)
  }

  lemma TurnStarts(b: seq<nat>, cur: nat)
    requires cur <= |b| && forall c :: 0 <= c < |b| ==> b[c] == 0
    ensures InTurn(b, cur, 0)
  {
  }

  lemma TurnNext(b: seq<nat>, cur: nat, c: nat)
    requires InTurn(b, cur, c) && c < cur
    ensures InTurn(b[c := b[c] + 1], cur, if c + 1 < cur then c + 1 else 0)
  {
  }

  lemma TurnBalanced(b: seq<nat>, cur: nat, c: nat)
    requires InTurn(b, cur, c)
    ensures cur <= |b| && Balanced(b, cur)
  {
  }

  lemma CountEmpty(reta: seq<nat>, b: seq<nat>)
    requires reta == [] && forall c :: 0 <= c < |b| ==> b[c] == 0
    ensures forall c :: 0 <= c < |b| ==> b[c] == Count(reta, c)
  {
  }

  lemma CountAppend(reta: seq<nat>, b: seq<nat>, d: nat, cur: nat)
    requires Counts(reta, b, cur) && d < cur
    ensures Counts(reta + [d], b[d := b[d] + 1], cur)
  {
    var u := reta + [d];
    assert u[..|reta|] == reta;
    forall c | 0 <= c < |b|
      ensures b[d := b[d] + 1][c] == Count(u, c)
    {
    }
  }
}
