/**
 * `uint32_t` arithmetic, which wraps modulo 2^32, and the index arithmetic of
 * row-major transition tables (row `i`, column `x` of a table with `k` columns is
 * entry `i * k + x`).
 */
module Uint32 {

  /** 2^32: `uint32_t` arithmetic is taken modulo this. */
  const U32: nat := 0x1_0000_0000

  /** `x - y` on `uint32_t`. */
  function Sub32(x: nat, y: nat): (r: nat)
    ensures r < U32
    ensures y <= x < U32 ==> r == x - y
  {
    (x - y) % U32
  }

  /** `x * y` on `uint32_t`. */
  function Mul32(x: nat, y: nat): (r: nat)
    ensures r < U32
    ensures x * y < U32 ==> r == x * y
  {
    (x * y) % U32
  }

  /** `x + y` on `uint32_t`. */
  function Add32(x: nat, y: nat): (r: nat)
    ensures r < U32
    ensures x + y < U32 ==> r == x + y
  {
    (x + y) % U32
  }

  /** A count below 2^32 is unchanged by the cast to 32 bits. */
  lemma ModSmall(x: nat)
    requires x < U32
    ensures x % U32 == x
  {
  }

  lemma MulNonneg(i: nat, k: nat)
    ensures 0 <= i * k
  {
  }

  /** An entry of row `i` lies inside a table of `n` rows, after the rows before it. */
  lemma RowBound(i: nat, x: nat, n: nat, k: nat)
    requires i < n && x < k
    ensures 0 <= i * k <= i * k + x < (i + 1) * k <= n * k
  {
    MulNonneg(i, k);
    MulNonneg(n - i - 1, k);
    assert (i + 1) * k == i * k + k;
    assert n * k == (i + 1) * k + (n - i - 1) * k;
  }

  /** Dividing a size by the number of rows gives the row width exactly when the
    * rows divide it. */
  lemma DivExact(size: nat, n: nat)
    requires n != 0
    ensures 0 <= size / n && n * (size / n) <= size
    ensures n * (size / n) == size <==> size % n == 0
  {
  }

  /** A positive factor times a non-zero integer is at least that factor in size. */
  lemma MulAway(n: nat, m: int)
    requires n != 0
    ensures m >= 1 ==> n * m >= n
    ensures m <= -1 ==> n * m + n <= 0
  {
    if m >= 1 {
      assert n * m == n + n * (m - 1);
    } else if m <= -1 {
      assert n * m + n == n * (m + 1);
    }
  }

  /** Dividing a product by one factor gives the other. */
  lemma DivOfProduct(n: nat, k: nat)
    requires n != 0
    ensures (n * k) / n == k && (n * k) % n == 0
  {
    var q, r := (n * k) / n, (n * k) % n;
    assert n * (k - q) == r;
    MulAway(n, k - q);
  }

  /** Division by a fixed positive number does not decrease. */
  lemma DivMono(m: nat, n: nat, d: nat)
    requires m <= n && d != 0
    ensures m / d <= n / d
  {
    var qm, qn := m / d, n / d;
    assert d * qm + m % d == m && d * qn + n % d == n;
    MulAway(d, qm - qn);
  }

  /** One more row of `w` entries adds `w`. */
  lemma MulSucc(n: nat, w: nat)
    ensures (n + 1) * w == n * w + w
  {
  }
}
