/** Distributing the buckets of a redirection table over cores. */
module RssBalance {
  /** The number of buckets of core `c`. */
  function Count(reta: seq<nat>, c: nat): (n: nat)
    ensures n <= |reta|
  {
    if reta == [] then 0
    else Count(reta[..|reta| - 1], c) + if reta[|reta| - 1] == c then 1 else 0
  }

  function Sum(b: seq<nat>, n: nat): nat
    requires n <= |b|
  {
    if n == 0 then 0 else Sum(b, n - 1) + b[n - 1]
  }

  /** The counts agree with the table, which names only the first `cur` cores. */
  ghost predicate Counts(reta: seq<nat>, b: seq<nat>, cur: nat) {
    && (forall k :: 0 <= k < |reta| ==> reta[k] < cur)
    && cur <= |b|
    && forall c :: 0 <= c < |b| ==> b[c] == Count(reta, c)
  }

  /** The counts of the first `n` cores differ by at most one. */
  ghost predicate Balanced(b: seq<nat>, n: nat)
    requires n <= |b|
  {
    forall i, j {:trigger b[i], b[j]} :: 0 <= i < n && 0 <= j < n ==> b[i] <= b[j] + 1
  }

  function Transfer(b: seq<nat>, c: nat, d: nat): (r: seq<nat>)
    requires c < |b| && d < |b| && c != d && b[c] > 0
    ensures |r| == |b|
  {
    b[c := b[c] - 1][d := b[d] + 1]
  }

  lemma {:induction false} CountUpdate(reta: seq<nat>, k: nat, to: nat, c: nat)
    requires k < |reta|
    ensures Count(reta[k := to], c)
         == Count(reta, c) - (if reta[k] == c then 1 else 0) + (if to == c then 1 else 0)
    decreases |reta|
  {
    var n, u := |reta| - 1, reta[k := to];
    if k < n {
      CountUpdate(reta[..n], k, to, c);
      assert u[..n] == reta[..n][k := to];
    } else {
      assert u[..n] == reta[..n];
    }
  }

  /** Moving one bucket. */
  lemma MoveCounts(reta: seq<nat>, b: seq<nat>, cur: nat, k: nat, to: nat)
    requires Counts(reta, b, cur) && k < |reta| && to < cur && to != reta[k]
    ensures b[reta[k]] > 0 && Counts(reta[k := to], Transfer(b, reta[k], to), cur)
  {
    var u := reta[k := to];
    CountUpdate(reta, k, to, reta[k]);
    var t := Transfer(b, reta[k], to);
    forall c | 0 <= c < |t|
      ensures t[c] == Count(u, c)
    {
      CountUpdate(reta, k, to, c);
    }
  }

  lemma {:induction false} CountPositive(reta: seq<nat>, c: nat)
    requires Count(reta, c) > 0
    ensures exists k :: 0 <= k < |reta| && reta[k] == c
    decreases |reta|
  {
    var n := |reta| - 1;
    if reta[n] != c {
      CountPositive(reta[..n], c);
      var k :| 0 <= k < n && reta[..n][k] == c;
      assert reta[k] == c;
    }
  }

  lemma {:induction false} CountAbsent(reta: seq<nat>, c: nat)
    requires forall k :: 0 <= k < |reta| ==> reta[k] != c
    ensures Count(reta, c) == 0
    decreases |reta|
  {
    if reta != [] {
      CountAbsent(reta[..|reta| - 1], c);
    }
  }

  lemma {:induction false} SumUpdate(b: seq<nat>, n: nat, c: nat, v: nat)
    requires n <= |b| && c < |b|
    ensures Sum(b[c := v], n) == Sum(b, n) + (if c < n then v - b[c] else 0)
    decreases n
  {
    if n > 0 {
      SumUpdate(b, n - 1, c, v);
    }
  }

  lemma {:induction false} SumBounds(b: seq<nat>, n: nat, lo: int, hi: int)
    requires n <= |b| && forall c :: 0 <= c < n ==> lo <= b[c] <= hi
    ensures n * lo <= Sum(b, n) <= n * hi
    decreases n
  {
    if n > 0 {
      SumBounds(b, n - 1, lo, hi);
      assert n * lo == (n - 1) * lo + lo && n * hi == (n - 1) * hi + hi;
    }
  }

  lemma {:induction false} SumCounts(reta: seq<nat>, n: nat, b: seq<nat>)
    requires n <= |b| && forall k :: 0 <= k < |reta| ==> reta[k] < n
    requires forall c :: 0 <= c < n ==> b[c] == Count(reta, c)
    ensures Sum(b, n) == |reta|
    decreases |reta|
  {
    if reta == [] {
      SumBounds(b, n, 0, 0);
      assert n * 0 == 0;
    } else {
      var m := |reta| - 1;
      var d := reta[m];
      var before := b[d := b[d] - 1];
      SumCounts(reta[..m], n, before);
      SumUpdate(b, n, d, b[d] - 1);
    }
  }

  /** Taking from a largest core, or giving to a smallest one, keeps the balance. */
  lemma TakeFromMax(b: seq<nat>, n: nat, c: nat)
    requires n <= |b| && Balanced(b, n) && c < n && b[c] > 0
    requires forall i :: 0 <= i < n ==> b[i] <= b[c]
    ensures Balanced(b[c := b[c] - 1], n)
  {
  }

  lemma GiveToMin(b: seq<nat>, n: nat, c: nat)
    requires n <= |b| && Balanced(b, n) && c < n
    requires forall i :: 0 <= i < n ==> b[c] <= b[i]
    ensures Balanced(b[c := b[c] + 1], n)
  {
  }

  /** Balanced counts of a total of `n * s + r` are `s` or `s + 1`. */
  lemma BalancedRange(b: seq<nat>, n: nat, s: int, r: int)
    requires n <= |b| && Balanced(b, n) && Sum(b, n) == n * s + r && 0 <= r <= n
    ensures forall c :: 0 <= c < n ==> s <= b[c] <= s + 1
  {
    hide Sum;
    MulNext(n, s);
    forall c | 0 <= c < n
      ensures s <= b[c] <= s + 1
    {
      if b[c] >= s + 2 {
        SumAbove(b, n, s + 1, c);
      } else if b[c] <= s - 1 {
        SumBelow(b, n, s, c);
      }
    }
  }

  lemma MulNext(n: int, s: int)
    ensures n * (s + 1) == n * s + n
  {
  }

  lemma {:induction false} SumAbove(b: seq<nat>, n: nat, lo: int, c: nat)
    requires n <= |b| && c < n && b[c] > lo && forall i :: 0 <= i < n ==> lo <= b[i]
    ensures Sum(b, n) > n * lo
    decreases n
  {
    assert n * lo == (n - 1) * lo + lo;
    if c == n - 1 {
      SumBounds(b, n - 1, lo, Max(b, n - 1));
    } else {
      SumAbove(b, n - 1, lo, c);
    }
  }

  function Max(b: seq<nat>, n: nat): (m: nat)
    requires n <= |b|
    ensures forall i :: 0 <= i < n ==> b[i] <= m
  {
    if n == 0 then 0 else var m := Max(b, n - 1); if m < b[n - 1] then b[n - 1] else m
  }

  lemma {:induction false} SumBelow(b: seq<nat>, n: nat, hi: int, c: nat)
    requires n <= |b| && c < n && b[c] < hi && forall i :: 0 <= i < n ==> b[i] <= hi
    ensures Sum(b, n) < n * hi
    decreases n
  {
    assert n * hi == (n - 1) * hi + hi;
    if c == n - 1 {
      SumBounds(b, n - 1, 0, hi);
    } else {
      SumBelow(b, n - 1, hi, c);
    }
  }

  lemma {:induction false} SumPositive(b: seq<nat>, n: nat, c: nat)
    requires c < n <= |b| && Sum(b, n) > 0 && forall i :: 0 <= i < n ==> b[i] <= b[c]
    ensures b[c] > 0
  {
    SumBounds(b, n, 0, b[c]);
    var m := b[c];
    assert m == 0 ==> n * m == 0;
  }

  // ------------------------------------------------------------ scaling up

  /** After a balanced table of `size` buckets on `was` cores gave `size / n` of them, largest cores first, to
      each of the new ones, it is balanced if and only if the remainder is no more than `was`. */
  lemma UpBalancedExactly(b: seq<nat>, was: nat, n: nat, size: nat)
    requires 0 < was < n <= |b| && Balanced(b, was)
    requires forall c :: was <= c < n ==> b[c] == size / n
    requires Sum(b, was) + (n - was) * (size / n) == size
    ensures Balanced(b, n) <==> size % n <= was
  {
    hide Sum, Balanced;
    var s, r := size / n, size % n;
    DivMod(size, n);
    MulSub(n, was, s);
    UpBalanced(b, was, n, s, r);
  }

  lemma DivMod(size: nat, n: nat)
    requires 0 < n
    ensures size == n * (size / n) + size % n && 0 <= size % n < n
    ensures n * (size / n) == size / n * n <= size
  {
  }

  lemma MulSub(n: nat, m: nat, s: int)
    ensures (n - m) * s == n * s - m * s
  {
  }

  lemma UpBalanced(b: seq<nat>, was: nat, n: nat, s: int, r: int)
    requires 0 < was < n <= |b| && Balanced(b, was)
    requires forall c :: was <= c < n ==> b[c] == s
    requires Sum(b, was) == was * s + r && 0 <= r < n
    ensures Balanced(b, n) <==> r <= was
  {
    assert was * (s + 1) == was * s + was;
    if r <= was {
      BalancedRange(b, was, s, r);
      forall c | 0 <= c < n
        ensures s <= b[c] <= s + 1
      {
      }
    } else if Balanced(b, n) {
      assert b[was] == s;
      forall c | 0 <= c < was
        ensures 0 <= b[c] <= s + 1
      {
        assert b[c] <= b[was] + 1;
      }
      SumBounds(b, was, 0, s + 1);
    }
  }

  /** Adding one core always keeps the balance. */
  lemma OneCoreKeepsBalance(b: seq<nat>, was: nat, size: nat)
    requires 0 < was < |b| && Balanced(b, was)
    requires b[was] == size / (was + 1) && Sum(b, was) + size / (was + 1) == size
    ensures Balanced(b, was + 1)
  {
    assert (was + 1 - was) * (size / (was + 1)) == size / (was + 1);
    UpBalancedExactly(b, was, was + 1, size);
  }

  // ------------------------------------------------------------ scaling down

  const LIMIT: int := 255

  /** The core that the search for a minimum finds; it starts from 255 and looks for smaller counts. */
  ghost predicate IsCoreMin(b: seq<nat>, n: nat, c: nat)
    requires n <= |b|
  {
    && c < n
    && (forall i :: 0 <= i < n ==> b[i] >= LIMIT || b[c] <= b[i])
    && (c == 0 || b[c] < LIMIT)
    && ((exists i :: 0 <= i < n && b[i] < LIMIT) ==> b[c] < LIMIT)
  }

  /** Below the limit the choice keeps the balance. */
  lemma GiveKeepsBalance(b: seq<nat>, n: nat, c: nat)
    requires 0 < n <= |b| && Balanced(b, n) && IsCoreMin(b, n, c) && Sum(b, n) <= LIMIT * n
    ensures Balanced(b[c := b[c] + 1], n)
  {
    if exists i :: 0 <= i < n && b[i] < LIMIT {
      forall i | 0 <= i < n
        ensures b[c] <= b[i]
      {
      }
    } else {
      forall i | 0 <= i < n
        ensures b[i] == LIMIT
      {
        if b[i] > LIMIT {
          SumAbove(b, n, LIMIT, i);
        }
      }
    }
    GiveToMin(b, n, c);
  }

  /** What giving buckets to the remaining cores did to their counts `b0`: only core 0 can have grown beyond
      the limit. */
  ghost predicate Given(b0: seq<nat>, b: seq<nat>, n: nat) {
    && n <= |b0| == |b|
    && (0 < n ==> b0[0] <= b[0])
    && forall c :: 1 <= c < n ==> b0[c] <= b[c] && (b[c] <= b0[c] || b[c] <= LIMIT)
  }

  lemma GiveGiven(b0: seq<nat>, b: seq<nat>, n: nat, c: nat)
    requires 0 < n && Given(b0, b, n) && IsCoreMin(b, n, c)
    ensures Given(b0, b[c := b[c] + 1], n)
  {
  }

  /** After a balanced table on `was` cores gave the buckets of the upper ones to the `n` lower ones, it is no
      longer balanced if more than one core is left and its size is more than 255 per core plus one. */
  lemma DownUnbalanced(b0: seq<nat>, b: seq<nat>, was: nat, n: nat, size: nat)
    requires 1 < n < was <= |b0| && Balanced(b0, was) && Sum(b0, was) == size
    requires Given(b0, b, n) && Sum(b, n) == size && size > LIMIT * n + 1
    ensures !Balanced(b, n)
  {
    if c: nat :| 1 <= c < n && b0[c] > LIMIT {
      OverLimit(b0, b, was, n, c);
    } else {
      forall c | 1 <= c < n
        ensures b[c] <= LIMIT
      {
      }
      FirstRest(b, n, LIMIT);
      assert b[0] > b[1] + 1;
    }
  }

  lemma {:induction false} FirstRest(b: seq<nat>, n: nat, hi: int)
    requires 0 < n <= |b| && forall c :: 1 <= c < n ==> b[c] <= hi
    ensures Sum(b, n) <= b[0] + (n - 1) * hi
    decreases n
  {
    if n > 1 {
      FirstRest(b, n - 1, hi);
      assert (n - 1) * hi == (n - 2) * hi + hi;
    } else {
      assert Sum(b, 1) == Sum(b, 0) + b[0];
    }
  }

  /** If all counts started at the limit or above, all buckets went to core 0. */
  lemma OverLimit(b0: seq<nat>, b: seq<nat>, was: nat, n: nat, c: nat)
    requires 1 < n < was <= |b0| && Balanced(b0, was) && Given(b0, b, n) && Sum(b, n) == Sum(b0, was)
    requires 1 <= c < n && b0[c] > LIMIT
    ensures !Balanced(b, n)
  {
    forall i | 0 <= i < was
      ensures b0[i] >= LIMIT
    {
      assert b0[c] <= b0[i] + 1;
    }
    SumTail(b0, n, was);
    SumSameTail(b0, b, n);
    assert b0[c] <= b0[0] + 1;
    assert b[0] > b[c] + 1;
  }

  lemma {:induction false} SumTail(b: seq<nat>, n: nat, was: nat)
    requires n < was <= |b| && forall i :: 0 <= i < was ==> b[i] >= LIMIT
    ensures Sum(b, was) >= Sum(b, n) + LIMIT
    decreases was
  {
    if n + 1 < was {
      SumTail(b, n, was - 1);
    }
  }

  lemma {:induction false} SumSameTail(b0: seq<nat>, b: seq<nat>, n: nat)
    requires 0 < n && Given(b0, b, n) && forall i :: 0 <= i < n ==> b0[i] >= LIMIT
    ensures Sum(b, n) - b[0] == Sum(b0, n) - b0[0]
    decreases n
  {
    if n > 1 {
      SumSameTail(b0, b, n - 1);
    } else {
      assert Sum(b, 1) == Sum(b, 0) + b[0] && Sum(b0, 1) == Sum(b0, 0) + b0[0];
    }
  }
}
