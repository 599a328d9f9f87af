/** Positions in a stream cut into blocks or sections of a variable size. */
module Positions {
  import ModArith

  /** Moving d places inside one section. */
  lemma SameSection(p: nat, d: nat, m: nat)
    requires m > 0 && p % m + d < m
    ensures (p + d) / m == p / m && (p + d) % m == p % m + d
  {
    ModArith.ModUnique(p + d, m, p / m, p % m + d);
  }

  /** The position before p. */
  lemma Before(p: nat, m: nat)
    requires m > 0 && p > 0
    ensures p % m == 0 ==> (p - 1) % m == m - 1 && (p - 1) / m + 1 == p / m
    ensures p % m != 0 ==> (p - 1) % m == p % m - 1 && (p - 1) / m == p / m
  {
    var q, r := p / m, p % m;
    assert p == q * m + r;
    if r == 0 {
      assert (q - 1) * m + (m - 1) == p - 1;
      ModArith.ModUnique(p - 1, m, q - 1, m - 1);
    } else {
      ModArith.ModUnique(p - 1, m, q, r - 1);
    }
  }

  lemma After(p: nat, m: nat)
    requires m > 0
    ensures (p + 1) % m == if p % m + 1 == m then 0 else p % m + 1
    ensures (p + 1) / m == if p % m + 1 == m then p / m + 1 else p / m
  {
    var q, r := p / m, p % m;
    if r + 1 == m {
      assert (q + 1) * m == q * m + m;
      ModArith.ModUnique(p + 1, m, q + 1, 0);
    } else {
      ModArith.ModUnique(p + 1, m, q, r + 1);
    }
  }

  /** Moving over whole blocks from a block boundary. */
  lemma WholeBlocks(p: nat, n: nat, b: nat, d: nat)
    requires n > 0 && p % n == 0 && d < n
    ensures (p + b * n + d) / n == p / n + b && (p + b * n + d) % n == d
  {
    assert (p / n + b) * n == p / n * n + b * n;
    ModArith.ModUnique(p + b * n + d, n, p / n + b, d);
  }

  /** Moving an arbitrary distance from a block boundary. */
  lemma FromBoundary(p: nat, n: nat, d: nat)
    requires n > 0 && p % n == 0
    ensures (p + d) / n == p / n + d / n && (p + d) % n == d % n
  {
    WholeBlocks(p, n, d / n, d % n);
    assert d == d / n * n + d % n;
  }

  lemma MulOrder(a: nat, b: nat, n: nat)
    requires a <= b
    ensures a * n <= b * n
  {
    assert (b - a) * n >= 0;
    assert (b - a) * n == b * n - a * n;
  }

  lemma DivBelow(a: nat, n: nat)
    requires n > 0
    ensures a / n * n <= a
  {
  }

  lemma MultipleOfMultiple(p: nat, section: nat, n: nat)
    requires n > 0 && section > 0 && p % section == 0 && section % n == 0
    ensures p % n == 0
  {
    var a, c := p / section, section / n;
    assert p == a * section && section == c * n;
    assert a * (c * n) == (a * c) * n;
    ModArith.ModUnique(p, n, a * c, 0);
  }
}
