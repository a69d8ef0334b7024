/** Division facts the solver does not find by itself. */
module Arith {

  /** A quotient and a remainder are determined by the number they recompose. */
  lemma QuotientUnique(x: nat, n: nat, k: nat, r: nat)
    requires n > 0 && r < n && x == k * n + r
    ensures x % n == r && x / n == k
  {
    var q, s := x / n, x % n;
    assert x == q * n + s && s < n;
    if q < k {
      Gap(q, k, n);
    } else if k < q {
      Gap(k, q, n);
    }
  }

  lemma Gap(q: nat, k: nat, n: nat)
    requires q < k
    ensures q * n + n <= k * n
  {
    assert (q + 1) * n <= k * n;
    assert (q + 1) * n == q * n + n;
  }

  lemma RegroupBlocks(k: nat, j: nat, n: nat)
    ensures (512 * k + j) * n == k * (512 * n) + j * n
  {
    assert (512 * k) * n == 512 * (k * n);
    assert k * (512 * n) == 512 * (k * n);
    assert (512 * k + j) * n == (512 * k) * n + j * n;
  }

  lemma WithinBlocks(j: nat, r: nat, n: nat)
    requires j < 512 && r < n
    ensures j * n + r < 512 * n
  {
    assert j * n <= 511 * n;
  }

  lemma RemainderSplits(x: nat, n: nat)
    requires n > 0
    ensures x % (512 * n) == (x / n % 512) * n + x % n
  {
    var q, r := x / n, x % n;
    var k, j := q / 512, q % 512;
    RegroupBlocks(k, j, n);
    WithinBlocks(j, r, n);
    assert x == q * n + r;
    QuotientUnique(x, 512 * n, k, j * n + r);
  }

  lemma QuotientOfQuotient(x: nat, m: nat, n: nat)
    requires m > 0 && n > 0 && m * n > 0
    ensures x / m / n == x / (m * n)
  {
    var q, r := x / m, x % m;
    var k, j := q / n, q % n;
    assert q == k * n + j && x == m * q + r;
    Regroup(m, k, n, j, r);
    QuotientUnique(x, m * n, k, m * j + r);
  }

  lemma Regroup(m: nat, k: nat, n: nat, j: nat, r: nat)
    requires j < n && r < m
    ensures m * (k * n + j) + r == k * (m * n) + (m * j + r)
    ensures m * j + r < m * n
  {
    Distribute(m, k * n, j);
    Exchange(m, k, n);
    Within(m, j, n);
  }

  lemma Distribute(m: nat, a: nat, b: nat)
    ensures m * (a + b) == m * a + m * b
  {
  }

  lemma Exchange(m: nat, k: nat, n: nat)
    ensures m * (k * n) == k * (m * n)
  {
  }

  lemma Within(m: nat, j: nat, n: nat)
    requires j < n
    ensures m * j + m <= m * n
  {
    Distribute(m, j, 1);
    Distribute(m, j + 1, n - j - 1);
  }
}
