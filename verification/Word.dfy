/** Unsigned machine words, and the arithmetic of positions in a ring whose length is not a power of two. */
module Word {
  const TWO16: int := 0x1_0000
  const TWO31: int := 0x8000_0000
  const TWO32: int := 0x1_0000_0000

  type u16 = x: int | 0 <= x < 0x1_0000
  type u32 = x: int | 0 <= x < 0x1_0000_0000

  newtype byte = x: int | 0 <= x < 256

  datatype Option<+T> = None | Some(value: T)

  function W16(x: int): u16 { x % 0x1_0000 }

  function W32(x: int): u32 { x % 0x1_0000_0000 }

  /** 32-bit addition and subtraction, wrapping around. */
  function Add32(a: u32, b: u32): (r: u32)
    ensures r == W32(a + b)
  {
    if a + b < TWO32 then a + b else a + b - TWO32
  }

  function Sub32(a: u32, b: u32): (r: u32)
    ensures r == W32(a - b)
  {
    if a >= b then a - b else a - b + TWO32
  }

  lemma W32Shift(x: int, d: int)
    ensures W32(x + d) == W32(W32(x) + d)
  {
  }

  /** Words within one turn of the range. */
  lemma W32Range(x: int)
    requires -TWO32 <= x < 2 * TWO32
    ensures W32(x) == if x < 0 then x + TWO32 else if x < TWO32 then x else x - TWO32
  {
  }

  function Min(a: int, b: int): int { if a <= b then a else b }

  function Max(a: int, b: int): int { if a <= b then b else a }

  lemma MulGap(n: int, d: int)
    requires 0 < n
    ensures d >= 1 ==> n * d >= n
    ensures d <= -1 ==> n * d <= -n
    ensures d == 0 ==> n * d == 0
  {
  }

  /** `k` written as a multiple of `n` plus a remainder determines the remainder. */
  lemma ModUnique(k: int, n: int, q: int, r: int)
    requires 0 < n && 0 <= r < n && k == q * n + r
    ensures k % n == r
  {
    var d := k / n - q;
    assert n * d == n * (k / n) - n * q == r - k % n;
    MulGap(n, d);
  }

  /** Moving a position forward by at most one turn costs at most one subtraction. */
  lemma ModAdd(a: int, i: int, n: int)
    requires 0 < n && 0 <= i <= n
    ensures (a + i) % n == if a % n + i < n then a % n + i else a % n + i - n
  {
    var q := a / n;
    assert a == q * n + a % n;
    if a % n + i < n {
      ModUnique(a + i, n, q, a % n + i);
    } else {
      assert (q + 1) * n == q * n + n;
      ModUnique(a + i, n, q + 1, a % n + i - n);
    }
  }

  lemma ModSmall(a: int, n: int)
    requires 0 <= a < n
    ensures a % n == a
  {
    ModUnique(a, n, 0, a);
  }

  /** Two offsets less than one turn apart never share a position. */
  lemma ModInjective(a: int, b: int, n: int)
    requires 0 < n && a <= b < a + n && a % n == b % n
    ensures a == b
  {
    ModAdd(a, b - a, n);
  }

  /** The distance between two positions of offsets less than one turn apart. */
  lemma ModDistance(a: int, b: int, n: int)
    requires 0 < n && a <= b < a + n
    ensures b - a == if a % n <= b % n then b % n - a % n else n - a % n + b % n
  {
    ModAdd(a, b - a, n);
  }
}
