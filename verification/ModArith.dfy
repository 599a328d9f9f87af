/** Modular arithmetic over the integers: congruences with explicit quotients,
    modular inverses, primes and Fermat's little theorem. */
module ModArith {

  datatype Option<+T> = None | Some(value: T)

  // ---------------------------------------------------------------- powers

  function Pow(b: int, e: nat): int
  {
    if e == 0 then 1 else b * Pow(b, e - 1)
  }

  lemma {:induction false} PowPositive(b: int, e: nat)
    requires b > 0
    ensures Pow(b, e) > 0
  {
    if e > 0 {
      PowPositive(b, e - 1);
      MulPositive(b, Pow(b, e - 1));
    }
  }

  lemma {:induction false} PowAdd(b: int, m: nat, n: nat)
    ensures Pow(b, m + n) == Pow(b, m) * Pow(b, n)
  {
    if m > 0 {
      PowAdd(b, m - 1, n);
      MulAssoc(b, Pow(b, m - 1), Pow(b, n));
    }
  }

  lemma MulPositive(x: int, y: int)
    requires x > 0 && y > 0
    ensures x * y > 0
  {
  }

  lemma MulAssoc(x: int, y: int, z: int)
    ensures x * (y * z) == (x * y) * z
  {
  }

  lemma MulMono(x: int, y: int, z: int)
    requires x <= y && 0 <= z
    ensures x * z <= y * z
  {
  }

  // ----------------------------------------------------------- congruences

  /** a and b differ by a multiple of m. */
  ghost predicate Cong(a: int, b: int, m: int)
    requires m > 0
  {
    (a - b) % m == 0
  }

  lemma DivMod(a: int, m: int)
    requires m > 0
    ensures a == m * (a / m) + a % m && 0 <= a % m < m
  {
  }

  /** A quotient determines the congruence. */
  lemma CongIntro(a: int, b: int, m: int, k: int)
    requires m > 0
    requires a - b == m * k
    ensures Cong(a, b, m)
  {
    ModUnique(a - b, m, k, 0);
  }

  /** The quotient of a congruence. */
  lemma CongElim(a: int, b: int, m: int) returns (k: int)
    requires m > 0
    requires Cong(a, b, m)
    ensures a - b == m * k
  {
    k := (a - b) / m;
    DivMod(a - b, m);
  }

  /** Quotient and remainder are unique. */
  lemma ModUnique(a: int, m: int, k: int, r: int)
    requires m > 0
    requires 0 <= r < m
    requires a == m * k + r
    ensures a % m == r && a / m == k
  {
    DivMod(a, m);
    var d := k - a / m;
    assert m * d == a % m - r by { assert m * d == m * k - m * (a / m); }
    if d > 0 {
      MulMono(1, d, m);
    } else if d < 0 {
      MulMono(d, -1, m);
    }
  }

  /** Dropping a digit in base 256 divides by it. */
  lemma DigitAbove(v: int, r: int, m: int, w: int)
    requires m > 0 && w == 256 * m && 0 <= r < 256
    ensures (256 * v + r) / w == v / m
  {
    DivMod(v, m);
    var t, u := v / m, v % m;
    assert w * t == 256 * (m * t);
    ModUnique(256 * v + r, w, t, 256 * u + r);
  }

  lemma LastDigit(v: int, r: int)
    requires 0 <= r < 256
    ensures Pow(256, 0) == 1 && (256 * v + r) / 1 % 256 == r
  {
    ModUnique(256 * v + r, 256, v, r);
  }

  lemma PowByte(n: nat)
    requires n > 0
    ensures Pow(256, n) == 256 * Pow(256, n - 1)
  {
  }

  lemma CongMod(a: int, m: int)
    requires m > 0
    ensures Cong(a % m, a, m)
  {
    DivMod(a, m);
    assert m * (-(a / m)) == -(m * (a / m));
    CongIntro(a % m, a, m, -(a / m));
  }

  lemma CongRefl(a: int, m: int)
    requires m > 0
    ensures Cong(a, a, m)
  {
  }

  lemma CongSym(a: int, b: int, m: int)
    requires m > 0 && Cong(a, b, m)
    ensures Cong(b, a, m)
  {
    var k := CongElim(a, b, m);
    assert m * (-k) == -(m * k);
    CongIntro(b, a, m, -k);
  }

  lemma CongTrans(a: int, b: int, c: int, m: int)
    requires m > 0 && Cong(a, b, m) && Cong(b, c, m)
    ensures Cong(a, c, m)
  {
    var k := CongElim(a, b, m);
    var l := CongElim(b, c, m);
    assert m * (k + l) == m * k + m * l;
    CongIntro(a, c, m, k + l);
  }

  lemma CongAdd(a: int, b: int, c: int, d: int, m: int)
    requires m > 0 && Cong(a, b, m) && Cong(c, d, m)
    ensures Cong(a + c, b + d, m) && Cong(a - c, b - d, m)
  {
    var k := CongElim(a, b, m);
    var l := CongElim(c, d, m);
    assert m * (k + l) == m * k + m * l;
    assert m * (k - l) == m * k - m * l;
    CongIntro(a + c, b + d, m, k + l);
    CongIntro(a - c, b - d, m, k - l);
  }

  lemma CongMul(a: int, b: int, c: int, d: int, m: int)
    requires m > 0 && Cong(a, b, m) && Cong(c, d, m)
    ensures Cong(a * c, b * d, m)
  {
    var k := CongElim(a, b, m);
    var l := CongElim(c, d, m);
    assert a * c - b * d == (a - b) * c + b * (c - d);
    assert (a - b) * c == m * (k * c) by { assert (m * k) * c == m * (k * c); }
    assert b * (c - d) == m * (b * l) by { assert b * (m * l) == m * (b * l); }
    assert m * (k * c + b * l) == m * (k * c) + m * (b * l);
    CongIntro(a * c, b * d, m, k * c + b * l);
  }

  /** Congruent numbers have equal remainders, and conversely. */
  lemma CongIffModEq(a: int, b: int, m: int)
    requires m > 0
    ensures Cong(a, b, m) <==> a % m == b % m
  {
    DivMod(a, m);
    DivMod(b, m);
    if Cong(a, b, m) {
      var k := CongElim(a, b, m);
      assert m * (k + b / m) == m * k + m * (b / m);
      ModUnique(a, m, k + b / m, b % m);
    }
    if a % m == b % m {
      assert m * (a / m - b / m) == m * (a / m) - m * (b / m);
      CongIntro(a, b, m, a / m - b / m);
    }
  }

  lemma CongReduced(a: int, b: int, m: int)
    requires m > 0 && 0 <= a < m && 0 <= b < m && Cong(a, b, m)
    ensures a == b
  {
    CongIffModEq(a, b, m);
    ModUnique(a, m, 0, a);
    ModUnique(b, m, 0, b);
  }

  lemma ModReduced(a: int, m: int)
    requires 0 <= a < m
    ensures a % m == a
  {
    ModUnique(a, m, 0, a);
  }

  /** e is a multiple of m, as a combination u*a + v*b of two multiples. */
  lemma Combine(m: int, a: int, u: int, b: int, v: int, e: int)
    requires m > 0 && a % m == 0 && b % m == 0
    requires e == u * a + v * b
    ensures e % m == 0
  {
    CongMul(u, u, a, 0, m);
    CongMul(v, v, b, 0, m);
    CongAdd(u * a, u * 0, v * b, v * 0, m);
    assert u * 0 + v * 0 == 0;
    assert Cong(e, 0, m);
  }

  lemma Multiple(m: int, a: int, u: int)
    requires m > 0 && a % m == 0
    ensures (u * a) % m == 0
  {
    Combine(m, a, u, a, 0, u * a);
  }

  // --------------------------------------------------- inverses and primes

  /** Extended Euclid: the greatest common divisor g of a and b with s*a + t*b == g. */
  function ExtGcd(a: nat, b: nat): (r: (nat, int, int))
    ensures r.1 * a + r.2 * b == r.0
    decreases b
  {
    if b == 0 then (a, 1, 0)
    else
      var (g, s, t) := ExtGcd(b, a % b);
      BezoutStep(a, b, g, s, t);
      (g, t, s - t * (a / b))
  }

  lemma BezoutStep(a: int, b: int, g: int, s: int, t: int)
    requires b > 0 && s * b + t * (a % b) == g
    ensures t * a + (s - t * (a / b)) * b == g
  {
    var q, r := a / b, a % b;
    assert a == q * b + r by { DivMod(a, b); }
    assert t * a == (t * q) * b + t * r by { MulAssoc(t, q, b); }
    assert (s - t * q) * b == s * b - (t * q) * b;
  }

  lemma {:induction false} GcdDivides(a: nat, b: nat)
    requires a > 0 || b > 0
    ensures var g := ExtGcd(a, b).0; g > 0 && a % g == 0 && b % g == 0
    decreases b
  {
    if b == 0 {
      ModUnique(a, a, 1, 0);
      ModUnique(0, a, 0, 0);
    } else {
      GcdDivides(b, a % b);
      CombineQuotient(ExtGcd(b, a % b).0, a, b);
    }
  }

  /** What divides the divisor and the remainder divides the dividend. */
  lemma CombineQuotient(g: int, a: int, b: int)
    requires g > 0 && b > 0 && b % g == 0 && (a % b) % g == 0
    ensures a % g == 0
  {
    var q, r := a / b, a % b;
    assert a == q * b + r by { DivMod(a, b); }
    Combine(g, b, q, r, 1, a);
  }

  /** The inverse of a modulo m in [0, m), when there is one. */
  function ModInverse(a: int, m: int): (r: Option<int>)
    requires m > 1
    ensures r.Some? ==> 0 <= r.value < m && (a * r.value) % m == 1
  {
    var (g, s, _) := ExtGcd(a % m, m);
    if g == 1 then
      InverseOfReduced(a, m);
      Some(s % m)
    else None
  }

  lemma InverseOfReduced(a: int, m: int)
    requires m > 1
    requires ExtGcd(a % m, m).0 == 1
    ensures (a * (ExtGcd(a % m, m).1 % m)) % m == 1
  {
    var (g, s, t) := ExtGcd(a % m, m);
    BezoutInverse(a, a % m, s, t, m);
  }

  lemma BezoutInverse(a: int, r: int, s: int, t: int, m: int)
    requires m > 1 && r == a % m && s * r + t * m == 1
    ensures (a * (s % m)) % m == 1
  {
    CongMod(a, m);
    CongMod(s, m);
    CongSym(r, a, m);
    CongMul(a, r, s % m, s, m);
    assert r * s - 1 == m * (-t);
    CongIntro(r * s, 1, m, -t);
    CongTrans(a * (s % m), r * s, 1, m);
    CongIffModEq(a * (s % m), 1, m);
    ModReduced(1, m);
  }

  ghost predicate IsPrime(p: int)
  {
    p > 1 && forall d :: 1 < d < p ==> p % d != 0
  }

  lemma GcdWithPrime(a: nat, p: int)
    requires IsPrime(p) && 0 < a < p
    ensures ExtGcd(a, p).0 == 1
  {
    var g := ExtGcd(a, p).0;
    GcdDivides(a, p);
    if g > a { ModReduced(a, g); }
  }

  /** Modulo a prime exactly the nonzero residues are invertible. */
  lemma PrimeInverse(a: int, p: int)
    requires IsPrime(p)
    ensures ModInverse(a, p).Some? <==> a % p != 0
  {
    DivMod(a, p);
    if a % p != 0 {
      GcdWithPrime(a % p, p);
    } else if ModInverse(a, p).Some? {
      var v := ModInverse(a, p).value;
      assert v * a == a * v;
      Multiple(p, a, v);
    }
  }

  /** Euclid's lemma. */
  lemma PrimeDividesProduct(a: int, b: int, p: int)
    requires IsPrime(p)
    requires (a * b) % p == 0
    ensures a % p == 0 || b % p == 0
  {
    if a % p != 0 {
      PrimeInverse(a, p);
      CancelInverse(a, b, p, ModInverse(a, p).value);
    }
  }

  lemma CancelInverse(a: int, b: int, p: int, v: int)
    requires p > 1 && (a * v) % p == 1 && (a * b) % p == 0
    ensures b % p == 0
  {
    DivMod(a * v, p);
    var k := (a * v) / p;
    assert a * v - 1 == p * k;
    assert b == v * (a * b) + (-b) * (p * k) by {
      assert b * (a * v - 1) == b * (a * v) - b;
      assert b * (a * v) == v * (a * b);
    }
    CongIntro(p * k, 0, p, k);
    Combine(p, a * b, v, p * k, -b, b);
  }

  /** Cancellation of an invertible factor. */
  lemma PrimeCancel(u: int, x: int, y: int, p: int)
    requires IsPrime(p) && u % p != 0
    requires Cong(u * x, u * y, p)
    ensures Cong(x, y, p)
  {
    assert u * x - u * y == u * (x - y);
    PrimeDividesProduct(u, x - y, p);
  }

  lemma NonzeroProduct(a: int, b: int, p: int)
    requires IsPrime(p) && a % p != 0 && b % p != 0
    ensures (a * b) % p != 0
  {
    if (a * b) % p == 0 { PrimeDividesProduct(a, b, p); }
  }

  // ------------------------------------------------- Fermat's little theorem

  /** Product of f(1..n). */
  ghost function Product(s: seq<int>): int
  {
    if s == [] then 1 else s[0] * Product(s[1..])
  }

  lemma {:induction false} ProductRemove(s: seq<int>, i: nat)
    requires i < |s|
    ensures Product(s) == s[i] * Product(s[..i] + s[i + 1..])
  {
    var t := s[..i] + s[i + 1..];
    if i == 0 {
      assert t == s[1..];
    } else {
      ProductRemove(s[1..], i - 1);
      assert t[1..] == s[1..][..i - 1] + s[1..][i..];
      MulAssoc(s[0], s[i], Product(t[1..]));
      MulAssoc(s[i], s[0], Product(t[1..]));
    }
  }

  /** A product depends only on the multiset of its factors. */
  lemma {:induction false} ProductPermutation(s: seq<int>, t: seq<int>)
    requires multiset(s) == multiset(t)
    ensures Product(s) == Product(t)
  {
    if s == [] {
      assert |multiset(t)| == 0;
    } else {
      assert s[0] in multiset(t);
      var i :| 0 <= i < |t| && t[i] == s[0];
      var rest := t[..i] + t[i + 1..];
      assert s == [s[0]] + s[1..];
      assert t == t[..i] + [t[i]] + t[i + 1..];
      assert multiset(s[1..]) == multiset(s) - multiset{s[0]};
      assert multiset(rest) == multiset(t) - multiset{t[i]};
      ProductPermutation(s[1..], rest);
      ProductRemove(t, i);
    }
  }

  /** The residues 1..n, and their multiples by a modulo p. */
  ghost function Residues(n: nat): seq<int> { seq(n, i => i + 1) }

  ghost function Scaled(a: int, n: nat, p: int): seq<int>
    requires p > 0
  {
    seq(n, i => (a * (i + 1)) % p)
  }

  lemma Regroup(a: int, n: int, x: int, y: int)
    ensures (a * n) * (x * y) == (a * x) * (n * y)
  {
    MulAssoc(a * n, x, y);
    MulAssoc(a * x, n, y);
    assert (a * n) * x == (a * x) * n;
  }

  lemma {:induction false} ProductScaled(a: int, n: nat, p: int)
    requires p > 0
    ensures Cong(Product(Scaled(a, n, p)), Pow(a, n) * Product(Residues(n)), p)
  {
    if n > 0 {
      var s, r := Scaled(a, n, p), Residues(n);
      ProductScaled(a, n - 1, p);
      ProductRemove(s, n - 1);
      ProductRemove(r, n - 1);
      assert s[..n - 1] + s[n - 1 + 1..] == Scaled(a, n - 1, p);
      assert r[..n - 1] + r[n - 1 + 1..] == Residues(n - 1);
      var x, y := Product(Scaled(a, n - 1, p)), Product(Residues(n - 1));
      CongMod(a * n, p);
      CongMul((a * n) % p, a * n, x, Pow(a, n - 1) * y, p);
      Regroup(a, n, Pow(a, n - 1), y);
    }
  }

  /** A duplicate-free list of n numbers from 1..n is a permutation of 1..n. */
  lemma {:induction false} Pigeonhole(s: seq<int>, n: nat)
    requires |s| == n
    requires forall i :: 0 <= i < n ==> 1 <= s[i] <= n
    requires forall i, j :: 0 <= i < j < n ==> s[i] != s[j]
    ensures multiset(s) == multiset(Residues(n))
  {
    var r := Residues(n);
    NoDupMultiset(s);
    NoDupMultiset(r);
    var S := set x | x in s;
    var R := set x | x in r;
    assert S <= R by {
      forall x | x in s ensures x in r { assert r[x - 1] == x; }
    }
    CardOfSeq(s);
    CardOfSeq(r);
    SubsetEq(S, R);
    forall x ensures multiset(s)[x] == multiset(r)[x] {
      assert x in s <==> x in S;
      assert x in r <==> x in R;
    }
  }

  lemma {:induction false} NoDupMultiset(s: seq<int>)
    requires forall i, j :: 0 <= i < j < |s| ==> s[i] != s[j]
    ensures forall x :: multiset(s)[x] == if x in s then 1 else 0
  {
    if s != [] {
      NoDupMultiset(s[1..]);
      assert s == [s[0]] + s[1..];
      assert s[0] !in s[1..];
    }
  }

  lemma {:induction false} CardOfSeq(s: seq<int>)
    requires forall i, j :: 0 <= i < j < |s| ==> s[i] != s[j]
    ensures |set x | x in s| == |s|
  {
    if s != [] {
      CardOfSeq(s[1..]);
      assert s[0] !in s[1..];
      assert (set x | x in s) == {s[0]} + (set x | x in s[1..]);
    }
  }

  lemma SubsetEq(a: set<int>, b: set<int>)
    requires a <= b && |a| == |b|
    ensures a == b
  {
    assert b == a + (b - a);
    assert |b| == |a| + |b - a|;
  }

  lemma ScaledIsPermutation(a: int, p: int)
    requires IsPrime(p) && a % p != 0
    ensures multiset(Scaled(a, p - 1, p)) == multiset(Residues(p - 1))
  {
    var s := Scaled(a, p - 1, p);
    forall i | 0 <= i < p - 1 ensures 1 <= s[i] <= p - 1 {
      ModReduced(i + 1, p);
      NonzeroProduct(a, i + 1, p);
      DivMod(a * (i + 1), p);
    }
    forall i, j | 0 <= i < j < p - 1 ensures s[i] != s[j] {
      if s[i] == s[j] {
        CongIffModEq(a * (i + 1), a * (j + 1), p);
        PrimeCancel(a, i + 1, j + 1, p);
        CongReduced(i + 1, j + 1, p);
      }
    }
    Pigeonhole(s, p - 1);
  }

  lemma {:induction false} ProductNonzero(n: nat, p: int)
    requires IsPrime(p) && n < p
    ensures Product(Residues(n)) % p != 0
  {
    var r := Residues(n);
    if n == 0 {
      ModReduced(1, p);
    } else {
      ProductNonzero(n - 1, p);
      ProductRemove(r, n - 1);
      assert r[..n - 1] + r[n - 1 + 1..] == Residues(n - 1);
      ModReduced(n, p);
      NonzeroProduct(n, Product(Residues(n - 1)), p);
    }
  }

  /** Fermat's little theorem. */
  lemma Fermat(a: int, p: int)
    requires IsPrime(p) && a % p != 0
    ensures Cong(Pow(a, p - 1), 1, p)
  {
    var f := Product(Residues(p - 1));
    ScaledIsPermutation(a, p);
    ProductPermutation(Scaled(a, p - 1, p), Residues(p - 1));
    ProductScaled(a, p - 1, p);
    ProductNonzero(p - 1, p);
    assert Cong(f * 1, f * Pow(a, p - 1), p) by {
      assert f * 1 == f && f * Pow(a, p - 1) == Pow(a, p - 1) * f;
    }
    PrimeCancel(f, 1, Pow(a, p - 1), p);
    CongSym(1, Pow(a, p - 1), p);
  }
}
