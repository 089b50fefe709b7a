/** Powers of two, and division facts that the solver does not find by itself. */
module Arithmetic {

  const U16 := 0x1_0000
  const U32 := 0x1_0000_0000
  const I32 := 0x8000_0000

  function Pow2(k: nat): nat {
    if k == 0 then 1 else 2 * Pow2(k - 1)
  }

  lemma {:induction false} NonZeroMultiple(e: int, m: int)
    requires e != 0 && m >= 0
    ensures e * m >= m || e * m <= -m
    decreases if e < 0 then -e else e
  {
    if e > 1 {
      NonZeroMultiple(e - 1, m);
      assert e * m == (e - 1) * m + m;
    } else if e < -1 {
      NonZeroMultiple(e + 1, m);
      assert e * m == (e + 1) * m - m;
    }
  }

  /** The remainder is the only number from 0 to `m - 1` that is `x` less a
      multiple of `m`. */
  lemma ModIs(x: int, d: int, m: int, r: int)
    requires m > 0 && x == d * m + r && 0 <= r < m
    ensures x % m == r
  {
    var e := x / m - d;
    assert e * m == r - x % m by {
      assert x == (x / m) * m + x % m;
    }
    if e != 0 {
      NonZeroMultiple(e, m);
    }
  }

  /** Numbers less than `m` apart that leave the same remainder are equal. */
  lemma SameResidue(a: int, b: int, m: int)
    requires m > 0 && a % m == b % m && a - b < m && b - a < m
    ensures a == b
  {
    var q := a / m - b / m;
    assert a - b == q * m by {
      assert a == (a / m) * m + a % m && b == (b / m) * m + b % m;
    }
    if q != 0 {
      NonZeroMultiple(q, m);
    }
  }
}
