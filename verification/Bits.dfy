/** The bit operations of the C sources on unsigned values, and their arithmetic meaning. */
module Bits {

  function Pow2(k: nat): (r: nat)
    ensures r > 0
  {
    if k == 0 then 1 else 2 * Pow2(k - 1)
  }

  /** a & b */
  function And(a: nat, b: nat): (r: nat)
    ensures r <= b
    decreases b
  {
    if b == 0 then 0 else (if a % 2 == 1 && b % 2 == 1 then 1 else 0) + 2 * And(a / 2, b / 2)
  }

  /** a >> k */
  function Shr(a: nat, k: nat): nat {
    if k == 0 then a else Shr(a / 2, k - 1)
  }

  lemma AndOdd(a: nat, m: nat)
    requires m > 0
    ensures And(a, 2 * m - 1) == a % 2 + 2 * And(a / 2, m - 1)
  {
    var b := 2 * m - 1;
    assert b / 2 == m - 1 && b % 2 == 1;
  }

  /** Shift and mask split a number into quotient and remainder. */
  lemma {:induction false} SplitBits(a: nat, k: nat)
    ensures a == Shr(a, k) * Pow2(k) + And(a, Pow2(k) - 1)
  {
    if k > 0 {
      SplitBits(a / 2, k - 1);
      AndOdd(a, Pow2(k - 1));
      Doubled(a, Shr(a / 2, k - 1), Pow2(k - 1), And(a / 2, Pow2(k - 1) - 1), And(a, Pow2(k) - 1));
    }
  }

  lemma Doubled(a: nat, q: nat, m: nat, r: nat, r': nat)
    requires a / 2 == q * m + r && r' == a % 2 + 2 * r
    ensures a == q * (2 * m) + r'
  {
    assert q * (2 * m) == 2 * (q * m);
  }

  lemma MulAtLeast(d: int, m: int)
    requires m > 0
    ensures d > 0 ==> d * m >= m
    ensures d < 0 ==> d * m <= -m
  {
    if d > 0 { assert (d - 1) * m >= 0; }
    if d < 0 { assert (-d - 1) * m >= 0; }
  }

  lemma ModUnique(a: int, m: int, q: int, r: int)
    requires m > 0 && a == q * m + r && 0 <= r < m
    ensures a / m == q && a % m == r
  {
    var d := a / m - q;
    assert a == (a / m) * m + a % m;
    assert d * m == r - a % m;
    MulAtLeast(d, m);
  }

  /** Masking with a power of two less one is the remainder. */
  lemma AndMask(a: nat, k: nat)
    ensures And(a, Pow2(k) - 1) == a % Pow2(k)
  {
    SplitBits(a, k);
    ModUnique(a, Pow2(k), Shr(a, k), And(a, Pow2(k) - 1));
  }

  /** Shifting right divides by a power of two. */
  lemma ShrDiv(a: nat, k: nat)
    ensures Shr(a, k) == a / Pow2(k)
  {
    SplitBits(a, k);
    ModUnique(a, Pow2(k), Shr(a, k), And(a, Pow2(k) - 1));
  }

  /** The least c with c * m >= n. */
  ghost predicate IsCeilDiv(n: nat, m: nat, c: nat) {
    n <= c * m && (c > 0 ==> (c - 1) * m < n)
  }

  lemma CeilDivMod(n: nat, m: nat, q: nat, r: nat)
    requires m > 0 && n == q * m + r && r < m
    ensures IsCeilDiv(n, m, q + if r != 0 then 1 else 0)
  {
    if r != 0 {
      assert (q + 1) * m == q * m + m;
    } else if q > 0 {
      assert (q - 1) * m == q * m - m;
    }
  }

  /** The shift-and-mask idiom of HASH_EXPAND_BUCKETS is the ceiling of n / 2^k. */
  lemma ShiftMaskCeil(n: nat, k: nat)
    ensures IsCeilDiv(n, Pow2(k), Shr(n, k) + if And(n, Pow2(k) - 1) != 0 then 1 else 0)
  {
    SplitBits(n, k);
    CeilDivMod(n, Pow2(k), Shr(n, k), And(n, Pow2(k) - 1));
  }
}
