/** Bitwise and, and the sizes for which a mask is a remainder. */
module Bits {

  /** The bits that both numbers have. */
  function And(x: nat, y: nat): nat {
    if x == 0 || y == 0 then 0 else 2 * And(x / 2, y / 2) + if x % 2 == 1 && y % 2 == 1 then 1 else 0
  }

  /** The powers of two, by the test that the ring makes of its size. */
  type Size = n: nat | n > 0 && And(n, n - 1) == 0 witness 1

  lemma {:induction false} AndSame(x: nat)
    ensures And(x, x) == x
  {
    if x > 0 {
      AndSame(x / 2);
    }
  }

  /** Every size but 1 is twice another size. */
  lemma HalfSize(n: nat)
    requires n > 1 && And(n, n - 1) == 0
    ensures n % 2 == 0 && And(n / 2, n / 2 - 1) == 0
  {
    assert (n - 1) / 2 == if n % 2 == 1 then n / 2 else n / 2 - 1;
    AndSame(n / 2);
  }

  lemma AtLeast(n: nat, k: int)
    requires k >= 1
    ensures n * k >= n
  {
    assert n * (k - 1) >= 0;
  }

  lemma ModIs(x: nat, n: nat, q: nat, r: nat)
    requires x == n * q + r && r < n
    ensures x % n == r
  {
    var p := x / n;
    assert x == n * p + x % n;
    if p < q {
      assert n * (q - p) == n * q - n * p;
      AtLeast(n, q - p);
    } else if q < p {
      assert n * (p - q) == n * p - n * q;
      AtLeast(n, p - q);
    }
  }

  lemma ModDouble(x: nat, m: nat)
    requires m > 0
    ensures x % (2 * m) == 2 * (x / 2 % m) + x % 2
  {
    var q, r := x / 2 / m, x / 2 % m;
    assert x / 2 == m * q + r;
    assert x == (2 * m) * q + (2 * r + x % 2);
    ModIs(x, 2 * m, q, 2 * r + x % 2);
  }

  /** Masking with `m - 1` is the remainder for every power of two. */
  lemma {:induction false} MaskIsRemainder(x: nat, m: Size)
    ensures And(x, m - 1) == x % m
    decreases m
  {
    if m > 1 {
      HalfSize(m);
      MaskIsRemainder(x / 2, m / 2);
      ModDouble(x, m / 2);
      assert (m - 1) / 2 == m / 2 - 1 && (m - 1) % 2 == 1;
    }
  }
}
