/** Constant-time Montgomery arithmetic over GF(p): the unrolled 4-limb field of
    ctfield.go and the loop-form field of ctfield8.go (here for any limb count). */
module MontgomeryField {
  import opened ModArith
  import opened Words
  import opened Ct

  type Fe = seq<Word>

  datatype Field = Field(n: nat, p: Fe, n0: Word, rr: Fe, one: Fe) {
    function P(): nat { Val(p) }

    function R(): int { Pow(B, n) }

    /** An odd modulus of n limbs with its reduction constant -1/p mod 2^64. */
    predicate Valid() {
      && n > 0 && |p| == n
      && P() % 2 == 1
      && (n0 * p[0] + 1) % B == 0
    }

    /** The conversion constants: R^2 mod p and the Montgomery form of 1. */
    predicate Constants()
      requires Valid()
    {
      && |rr| == n && Val(rr) == R() * R() % P()
      && |one| == n && Val(one) == R() % P()
    }

    /** A reduced element. */
    predicate Elem(a: Fe) { |a| == n && Val(a) < P() }
  }

  // ------------------------------------------------------------ construction

  /** n limbs of p, the reduction constant -1/p mod 2^64 and the powers of R. */
  method NewField(n: nat, p: nat) returns (f: Option<Field>)
    requires n > 0
    ensures f.Some? <==> 0 < p < Pow(B, n) && p % 2 == 1
    ensures f.Some? ==> f.value.Valid() && f.value.Constants() && f.value.n == n && f.value.P() == p
  {
    hide Val, ToLimbs, ModInverse;
    var r := Pow(B, n);
    if p == 0 || p >= r || p % 2 == 0 {
      return None;
    }
    var pl := ToLimbs(n, p);
    ValToLimbs(n, p);
    LowLimbOdd(pl);
    OddInverse(pl[0]);
    var inv := ModInverse(pl[0], B).value;
    var n0 := B - inv;
    NegatedInverse(pl[0], inv);
    DivMod(r, p);
    DivMod(r * r, p);
    ValToLimbs(n, r * r % p);
    ValToLimbs(n, r % p);
    f := Some(Field(n, pl, n0, ToLimbs(n, r * r % p), ToLimbs(n, r % p)));
  }

  lemma LowLimbOdd(s: Fe)
    requires |s| > 0 && Val(s) % 2 == 1
    ensures s[0] % 2 == 1
  {
    var t := Val(s[1..]);
    assert Val(s) == s[0] + B * t;
    assert B * t == 2 * (0x8000_0000_0000_0000 * t);
  }

  /** An odd word is invertible modulo 2^64. */
  lemma OddInverse(x: Word)
    requires x % 2 == 1
    ensures ModInverse(x, B).Some?
  {
    ModReduced(x, B);
    var g := ExtGcd(x, B).0;
    GcdDivides(x, B);
    WordSize();
    OddDivisorOfPow2(g, 64, x);
  }

  /** A common divisor of an odd number and a power of two is 1. */
  lemma {:induction false} OddDivisorOfPow2(g: nat, k: nat, x: nat)
    requires g > 0 && x % 2 == 1 && x % g == 0 && Pow(2, k) % g == 0
    ensures g == 1
  {
    if k == 0 {
      if g > 1 { ModReduced(1, g); }
    } else {
      DivMod(x, g);
      EvenProduct(g, x / g);
      HalveMultiple(g, Pow(2, k - 1));
      OddDivisorOfPow2(g, k - 1, x);
    }
  }

  lemma EvenProduct(a: int, b: int)
    ensures a % 2 == 0 ==> (a * b) % 2 == 0
  {
    if a % 2 == 0 { assert a * b == 2 * ((a / 2) * b); }
  }

  /** An odd divisor of 2h divides h. */
  lemma HalveMultiple(g: int, h: int)
    requires g > 0 && g % 2 == 1 && (2 * h) % g == 0
    ensures h % g == 0
  {
    var e := (g + 1) / 2;
    assert e * (2 * h) == (2 * e) * h;
    assert (g + 1) * h == g * h + h;
    CongIntro(g, 0, g, 1);
    Combine(g, 2 * h, e, g, -h, h);
  }

  lemma NegatedInverse(x: Word, inv: int)
    requires 0 <= inv < B && (x * inv) % B == 1
    ensures 0 < inv && ((B - inv) * x + 1) % B == 0
  {
    DivMod(x * inv, B);
    var k := x * inv / B;
    assert (B - inv) * x + 1 == B * (x - k) by {
      assert (B - inv) * x == B * x - x * inv;
      assert B * (x - k) == B * x - B * k;
    }
    CongIntro((B - inv) * x + 1, 0, B, x - k);
  }

  // ---------------------------------------------------- limb-level primitives

  /** a - b over the limbs, and the final borrow. */
  method SubLimbs(a: Fe, b: Fe) returns (r: Fe, br: Word)
    requires |a| == |b|
    ensures |r| == |a| && br <= 1
    ensures Val(r) - Pow(B, |a|) * br == Val(a) - Val(b)
  {
    var out := new Word[|a|];
    br := 0;
    for i := 0 to |a|
      invariant br <= 1
      invariant Val(out[..i]) - Pow(B, i) * br == Val(a[..i]) - Val(b[..i])
    {
      var (d, br1) := Sub64(a[i], b[i], br);
      out[i] := d;
      ValPrefix(a, i);
      ValPrefix(b, i);
      ValPrefix(out[..], i);
      assert out[..][..i] == out[..i] && out[..][..i + 1] == out[..i + 1];
      BorrowStep(Pow(B, i), d, br1, a[i], b[i], br);
      br := br1;
    }
    assert a[..|a|] == a && b[..|a|] == b && out[..] == out[..|a|];
    r := out[..];
  }

  /** a + b over the limbs, and the final carry. */
  method AddLimbs(a: Fe, b: Fe) returns (r: Fe, c: Word)
    requires |a| == |b|
    ensures |r| == |a| && c <= 1
    ensures Val(r) + Pow(B, |a|) * c == Val(a) + Val(b)
  {
    var out := new Word[|a|];
    c := 0;
    for i := 0 to |a|
      invariant c <= 1
      invariant Val(out[..i]) + Pow(B, i) * c == Val(a[..i]) + Val(b[..i])
    {
      var (s, c1) := Add64(a[i], b[i], c);
      out[i] := s;
      ValPrefix(a, i);
      ValPrefix(b, i);
      ValPrefix(out[..], i);
      assert out[..][..i] == out[..i] && out[..][..i + 1] == out[..i + 1];
      LimbStep(Pow(B, i), s, c1, a[i], b[i], c);
      c := c1;
    }
    assert a[..|a|] == a && b[..|a|] == b && out[..] == out[..|a|];
    r := out[..];
  }

  /** One limb of a carry chain at weight q. */
  lemma LimbStep(q: int, lo: int, hi: int, x: int, y: int, c: int)
    requires lo + B * hi == x + y + c
    ensures q * lo + (B * q) * hi == q * x + q * y + q * c
  {
    assert q * (lo + B * hi) == q * lo + (B * q) * hi;
    assert q * (x + y + c) == q * x + q * y + q * c;
  }

  lemma BorrowStep(q: int, lo: int, hi: int, x: int, y: int, c: int)
    requires lo - B * hi == x - y - c
    ensures q * lo - (B * q) * hi == q * x - q * y - q * c
  {
    assert q * (lo - B * hi) == q * lo - (B * q) * hi;
    assert q * (x - y - c) == q * x - q * y - q * c;
  }

  /** a under an all-ones mask, b under zero, limb by limb. */
  method Cmov(mask: Word, a: Fe, b: Fe) returns (r: Fe)
    requires |a| == |b| && (mask == 0 || mask == B - 1)
    ensures r == if mask == 0 then b else a
  {
    var out := new Word[|a|];
    for i := 0 to |a|
      invariant out[..i] == if mask == 0 then b[..i] else a[..i]
    {
      out[i] := Select(mask, a[i], b[i]);
      SelectByMask(mask, a[i], b[i]);
    }
    r := out[..];
    assert out[..] == out[..|a|];
  }

  lemma OrBits(x: Word, y: Word)
    requires x <= 1 && y <= 1
    ensures W(Or, x, y) == if x == 1 || y == 1 then 1 else 0
  {
    PowPositive(2, 63);
    BitwiseMask(63, 0);
    assert x / 2 == 0 && y / 2 == 0;
    assert W(Or, x, y) == (if Or.Apply(x % 2 == 1, y % 2 == 1) then 1 else 0) + 2 * Bitwise(Or, 63, 0, 0);
  }

  /** Subtracts p once from the accumulator r + R*extra when it is at least p. */
  method CondSubP(f: Field, r: Fe, extra: Word) returns (s: Fe)
    requires f.Valid() && |r| == f.n && extra <= 1
    requires Val(r) + f.R() * extra < 2 * f.P()
    ensures f.Elem(s)
    ensures Val(s) == if Val(r) + f.R() * extra >= f.P() then Val(r) + f.R() * extra - f.P() else Val(r) + f.R() * extra
  {
    hide Val, Pow;
    var u, br := SubLimbs(r, f.p);
    var cond := W(Or, extra, 1 - br);
    OrBits(extra, 1 - br);
    MaskIsAllOnesOrZero(cond);
    CondSubCases(f.R(), f.P(), Val(r), extra, Val(u), br) by {
      ValBound(r);
      ValBound(u);
      ValBound(f.p);
    }
    s := Cmov(Mask(cond), u, r);
  }

  lemma CondSubCases(R: int, p: int, r: int, extra: int, u: int, br: int)
    requires 0 <= r < R && 0 <= u < R && 0 < p < R && 0 <= extra <= 1 && 0 <= br <= 1
    requires r + R * extra < 2 * p && u - R * br == r - p
    ensures (extra == 1 || br == 0) <==> r + R * extra >= p
    ensures r + R * extra >= p ==> u == r + R * extra - p
    ensures r + R * extra < p ==> r == r + R * extra
  {
  }

  // --------------------------------------------------- the loop-form operations

  /** (a + b) mod p. */
  method AddLoop(f: Field, a: Fe, b: Fe) returns (r: Fe)
    requires f.Valid() && f.Elem(a) && f.Elem(b)
    ensures f.Elem(r) && Val(r) == (Val(a) + Val(b)) % f.P()
  {
    var s, c := AddLimbs(a, b);
    r := CondSubP(f, s, c);
    ModAfterSubtract(Val(a) + Val(b), f.P());
  }

  lemma ModAfterSubtract(v: int, p: int)
    requires 0 <= v < 2 * p
    ensures v % p == if v >= p then v - p else v
  {
    ModUnique(v, p, if v >= p then 1 else 0, if v >= p then v - p else v);
  }

  /** (a - b) mod p. */
  method SubLoop(f: Field, a: Fe, b: Fe) returns (r: Fe)
    requires f.Valid() && f.Elem(a) && f.Elem(b)
    ensures f.Elem(r) && Val(r) == (Val(a) - Val(b)) % f.P()
  {
    var d, br := SubLimbs(a, b);
    var w, c := AddLimbs(d, f.p);
    MaskIsAllOnesOrZero(br);
    r := Cmov(Mask(br), w, d);
    SubtractThenAdd(f.R(), f.P(), Val(a), Val(b), Val(d), br, Val(w), c) by {
      ValBound(d);
      ValBound(w);
    }
  }

  lemma SubtractThenAdd(R: int, p: int, a: int, b: int, d: int, br: int, w: int, c: int)
    requires 0 <= a < p && 0 <= b < p && 0 <= d < R && 0 <= w < R && 0 <= br <= 1 && 0 <= c <= 1
    requires d - R * br == a - b && w + R * c == d + p
    ensures (a - b) % p == if br == 1 then w else d
  {
    ModUnique(a - b, p, -br, if br == 1 then w else d);
  }

  // ------------------------------------------- the unrolled 4-limb add and sub

  /** Four chained additions, and the carry out. */
  function AddChain(a: Fe, b: Fe): (r: (Fe, Word))
    requires |a| == 4 && |b| == 4
    ensures |r.0| == 4 && r.1 <= 1 && Val(r.0) + Pow(B, 4) * r.1 == Val(a) + Val(b)
  {
    var (s0, c0) := Add64(a[0], b[0], 0);
    var (s1, c1) := Add64(a[1], b[1], c0);
    var (s2, c2) := Add64(a[2], b[2], c1);
    var (s3, c3) := Add64(a[3], b[3], c2);
    Carry4(a, b, [s0, s1, s2, s3], c0, c1, c2, c3);
    ([s0, s1, s2, s3], c3)
  }

  /** Four chained subtractions, and the borrow out. */
  function SubChain(a: Fe, b: Fe): (r: (Fe, Word))
    requires |a| == 4 && |b| == 4
    ensures |r.0| == 4 && r.1 <= 1 && Val(r.0) - Pow(B, 4) * r.1 == Val(a) - Val(b)
  {
    var (d0, c0) := Sub64(a[0], b[0], 0);
    var (d1, c1) := Sub64(a[1], b[1], c0);
    var (d2, c2) := Sub64(a[2], b[2], c1);
    var (d3, c3) := Sub64(a[3], b[3], c2);
    Borrow4(a, b, [d0, d1, d2, d3], c0, c1, c2, c3);
    ([d0, d1, d2, d3], c3)
  }

  /** (a + b) mod p, flattened over four limbs. */
  method Add4(f: Field, a: Fe, b: Fe) returns (r: Fe)
    requires f.Valid() && f.n == 4 && f.Elem(a) && f.Elem(b)
    ensures f.Elem(r) && Val(r) == (Val(a) + Val(b)) % f.P()
  {
    hide Val, Pow, AddChain, SubChain, W, Mask;
    var (s, carry) := AddChain(a, b);
    var (u, br) := SubChain(s, f.p);
    OrBits(carry, 1 - br);
    MaskIsAllOnesOrZero(W(Or, carry, 1 - br));
    CondSubCases(f.R(), f.P(), Val(s), carry, Val(u), br) by {
      ValBound(s);
      ValBound(u);
      ValBound(f.p);
    }
    ModAfterSubtract(Val(a) + Val(b), f.P());
    r := Select4(Mask(W(Or, carry, 1 - br)), u, s);
  }

  lemma Carry4(a: Fe, b: Fe, s: Fe, c0: Word, c1: Word, c2: Word, c3: Word)
    requires |a| == |b| == |s| == 4
    requires s[0] + B * c0 == (a[0] as int) + b[0] && s[1] + B * c1 == (a[1] as int) + b[1] + c0
    requires s[2] + B * c2 == (a[2] as int) + b[2] + c1 && s[3] + B * c3 == (a[3] as int) + b[3] + c2
    ensures Val(s) + Pow(B, 4) * c3 == Val(a) + Val(b)
  {
    Val4(a);
    Val4(b);
    Val4(s);
    ChainInts(a[0], a[1], a[2], a[3], b[0], b[1], b[2], b[3], s[0], s[1], s[2], s[3], c0, c1, c2, c3);
  }

  lemma Borrow4(a: Fe, b: Fe, d: Fe, c0: Word, c1: Word, c2: Word, c3: Word)
    requires |a| == |b| == |d| == 4
    requires d[0] - B * c0 == (a[0] as int) - b[0] && d[1] - B * c1 == (a[1] as int) - b[1] - c0
    requires d[2] - B * c2 == (a[2] as int) - b[2] - c1 && d[3] - B * c3 == (a[3] as int) - b[3] - c2
    ensures Val(d) - Pow(B, 4) * c3 == Val(a) - Val(b)
  {
    Val4(a);
    Val4(b);
    Val4(d);
    ChainInts(d[0], d[1], d[2], d[3], b[0], b[1], b[2], b[3], a[0], a[1], a[2], a[3], c0, c1, c2, c3);
  }

  /** A four-limb carry chain s = a + b with carries c0..c3. */
  lemma ChainInts(a0: int, a1: int, a2: int, a3: int, b0: int, b1: int, b2: int, b3: int,
                  s0: int, s1: int, s2: int, s3: int, c0: int, c1: int, c2: int, c3: int)
    requires s0 + B * c0 == a0 + b0 && s1 + B * c1 == a1 + b1 + c0
    requires s2 + B * c2 == a2 + b2 + c1 && s3 + B * c3 == a3 + b3 + c2
    ensures s0 + B * (s1 + B * (s2 + B * s3)) + Pow(B, 4) * c3
         == a0 + B * (a1 + B * (a2 + B * a3)) + (b0 + B * (b1 + B * (b2 + B * b3)))
  {
    assert Pow(B, 4) == B * (B * (B * (B * 1)));
    assert s2 + B * (s3 + B * c3) == a2 + B * a3 + (b2 + B * b3) + c1;
    assert s1 + B * (s2 + B * (s3 + B * c3)) == a1 + B * (a2 + B * a3) + (b1 + B * (b2 + B * b3)) + c0;
  }

  /** The four limbs of a under an all-ones mask, of b under zero. */
  method Select4(m: Word, a: Fe, b: Fe) returns (r: Fe)
    requires |a| == 4 && |b| == 4 && (m == 0 || m == B - 1)
    ensures r == if m == 0 then b else a
  {
    SelectByMask(m, a[0], b[0]);
    SelectByMask(m, a[1], b[1]);
    SelectByMask(m, a[2], b[2]);
    SelectByMask(m, a[3], b[3]);
    r := [Select(m, a[0], b[0]), Select(m, a[1], b[1]), Select(m, a[2], b[2]), Select(m, a[3], b[3])];
  }

  /** (a - b) mod p, flattened over four limbs. */
  method Sub4(f: Field, a: Fe, b: Fe) returns (r: Fe)
    requires f.Valid() && f.n == 4 && f.Elem(a) && f.Elem(b)
    ensures f.Elem(r) && Val(r) == (Val(a) - Val(b)) % f.P()
  {
    hide Val, Pow, AddChain, SubChain, W, Mask;
    var (d, borrow) := SubChain(a, b);
    var (w, c) := AddChain(d, f.p);
    MaskIsAllOnesOrZero(borrow);
    SubtractThenAdd(f.R(), f.P(), Val(a), Val(b), Val(d), borrow, Val(w), c) by {
      ValBound(d);
      ValBound(w);
    }
    r := Select4(Mask(borrow), w, d);
  }

  /** One CIOS row on values: the accumulator stays below a + p. */
  lemma RowBound(a: int, p: int, t: int, bi: Word, m: Word, t': int)
    requires 0 <= a < p && 0 <= t < a + p && B * t' == t + a * bi + m * p
    ensures 0 <= t' < a + p
  {
    MulMono(bi, B - 1, a);
    MulMono(m, B - 1, p);
    assert B * t' < B * (a + p);
    MulMono(0, bi, a);
    MulMono(0, m, p);
  }

  /** The reduction multiplier clears the low word. */
  lemma LowWordVanishes(t0: Word, n0: Word, p0: Word, hi: Word, lo: Word)
    requires (n0 * p0 + 1) % B == 0
    requires hi * B + lo == (t0 * n0) % B * p0 + t0
    ensures lo == 0
  {
    DivMod(t0 * n0, B);
    DivMod(n0 * p0 + 1, B);
    LowWordQuotient(t0, n0, p0, (t0 * n0) % B, (t0 * n0) / B, (n0 * p0 + 1) / B, hi, lo);
    CongIntro(lo, 0, B, t0 * ((n0 * p0 + 1) / B) - (t0 * n0) / B * p0 - hi);
    CongReduced(lo, 0, B);
  }

  lemma LowWordQuotient(t0: int, n0: int, p0: int, m: int, k: int, q: int, hi: int, lo: int)
    requires t0 * n0 == B * k + m && n0 * p0 + 1 == B * q && hi * B + lo == m * p0 + t0
    ensures lo == B * (t0 * q - k * p0 - hi)
  {
    assert m * p0 == (t0 * n0) * p0 - B * (k * p0) by { assert (B * k + m) * p0 == B * (k * p0) + m * p0; }
    assert (t0 * n0) * p0 + t0 == t0 * (n0 * p0 + 1);
    assert t0 * (B * q) == B * (t0 * q);
  }

  /** Scaling one row's equation by the weight q = B^i of the rows already done. */
  lemma RowAccumulate(q: int, a: int, p: int, t: int, bi: int, m: int, t': int, bv: int, mv: int)
    requires t * q == a * bv + mv * p && B * t' == t + a * bi + m * p
    ensures t' * (B * q) == a * (bv + q * bi) + (mv + q * m) * p
  {
    assert t' * (B * q) == (B * t') * q;
    assert (t + a * bi + m * p) * q == t * q + (a * bi) * q + (m * p) * q;
    assert (a * bi) * q == a * (q * bi);
    assert (m * p) * q == (q * m) * p;
    assert a * (bv + q * bi) == a * bv + a * (q * bi);
    assert (mv + q * m) * p == mv * p + (q * m) * p;
  }

  /** After all rows, conditional subtraction of p yields the Montgomery product. */
  lemma RowsDone(R: int, p: int, t: int, r: int, a: int, b: int, mv: int)
    requires p > 0 && t * R == a * b + mv * p && (r == t || r == t - p)
    ensures Cong(r * R, a * b, p)
  {
    var e := if r == t then 0 else 1;
    assert r * R - a * b == p * (mv - e * R) by {
      assert r * R == t * R - (e * p) * R by { assert (t - e * p) * R == t * R - (e * p) * R; }
      assert (e * p) * R == p * (e * R);
      assert p * (mv - e * R) == p * mv - p * (e * R);
      assert p * mv == mv * p;
    }
    CongIntro(r * R, a * b, p, mv - e * R);
  }

  /** Montgomery product by CIOS, four limbs, accumulator in locals. */
  method Mul4(f: Field, a: Fe, b: Fe) returns (r: Fe)
    requires f.Valid() && f.n == 4 && f.Elem(a) && |b| == 4
    ensures f.Elem(r)
    ensures Cong(Val(r) * f.R(), Val(a) * Val(b), f.P())
  {
    var a0, a1, a2, a3 := a[0], a[1], a[2], a[3];
    var p0, p1, p2, p3 := f.p[0], f.p[1], f.p[2], f.p[3];
    var n0 := f.n0;
    var t0: Word, t1: Word, t2: Word, t3: Word, t4: Word := 0, 0, 0, 0, 0;
    ghost var A, P, mv := Val(a), f.P(), 0;
    FourWords(a);
    FourWords(f.p);
    ValBound(f.p);
    RowsStart(A, P, b);
    assert P < Pow(B, 4);
    hide V5, Val, Pow;
    for i := 0 to 4
      invariant V5(t0, t1, t2, t3, t4) < A + P
      invariant V5(t0, t1, t2, t3, t4) * Pow(B, i) == A * Val(b[..i]) + mv * P
    {
      ghost var t := V5(t0, t1, t2, t3, t4);
      var m: Word;
      t0, t1, t2, t3, t4, m := Row4(a0, a1, a2, a3, b[i], p0, p1, p2, p3, n0, t0, t1, t2, t3, t4, A, P);
      RowAccumulate(Pow(B, i), A, P, t, b[i], m, V5(t0, t1, t2, t3, t4), Val(b[..i]), mv);
      ValPrefix(b, i);
      PowNext(i);
      mv := mv + Pow(B, i) * m;
    }
    assert b[..4] == b;
    FourWords([t0, t1, t2, t3]);
    TopWord(t0, t1, t2, t3, t4, A, P);
    r := CondSubP(f, [t0, t1, t2, t3], t4);
    RowsDone(f.R(), P, V5(t0, t1, t2, t3, t4), Val(r), A, Val(b), mv);
  }

  lemma RowsStart(A: int, P: int, b: Fe)
    requires 0 <= A < P
    ensures V5(0, 0, 0, 0, 0) < A + P && V5(0, 0, 0, 0, 0) * Pow(B, 0) == A * Val(b[..0]) + 0 * P
  {
  }

  lemma FourWords(s: Fe)
    requires |s| == 4
    ensures Val(s) == V5(s[0], s[1], s[2], s[3], 0)
  {
    Val4(s);
  }

  lemma PowNext(i: nat)
    ensures Pow(B, i + 1) == B * Pow(B, i)
  {
  }

  ghost function V5(t0: int, t1: int, t2: int, t3: int, t4: int): int
  {
    t0 + B * (t1 + B * (t2 + B * (t3 + B * t4)))
  }

  lemma TopWord(t0: Word, t1: Word, t2: Word, t3: Word, t4: Word, A: int, P: int)
    requires V5(t0, t1, t2, t3, t4) < A + P && A < P < Pow(B, 4)
    ensures Pow(B, 4) == B * B * B * B && t4 <= 1
    ensures V5(t0, t1, t2, t3, t4) == V5(t0, t1, t2, t3, 0) + Pow(B, 4) * t4
  {
    assert Pow(B, 4) == B * (B * (B * (B * 1)));
  }

  /** One row: add a*bi, then cancel the low word with a multiple of p.
      No carry is lost: the top word ends at most 1. */
  method Row4(a0: Word, a1: Word, a2: Word, a3: Word, bi: Word, p0: Word, p1: Word, p2: Word, p3: Word, n0: Word,
              t0': Word, t1': Word, t2': Word, t3': Word, t4': Word, ghost A: int, ghost P: int)
    returns (t0: Word, t1: Word, t2: Word, t3: Word, t4: Word, m: Word)
    requires A == V5(a0, a1, a2, a3, 0) && P == V5(p0, p1, p2, p3, 0) && A < P
    requires (n0 * p0 + 1) % B == 0
    requires V5(t0', t1', t2', t3', t4') < A + P
    ensures V5(t0, t1, t2, t3, t4) < A + P && t4 <= 1
    ensures B * V5(t0, t1, t2, t3, t4) == V5(t0', t1', t2', t3', t4') + A * bi + m * P
  {
    var (c0, u0) := MulAddCarry(a0, bi, t0', 0);
    var (c1, u1) := MulAddCarry(a1, bi, t1', c0);
    var (c2, u2) := MulAddCarry(a2, bi, t2', c1);
    var (c3, u3) := MulAddCarry(a3, bi, t3', c2);
    var (u4, t5) := Add64(t4', c3, 0);
    m := (u0 * n0) % B;
    var (d0, z) := MulAddCarry(m, p0, u0, 0);
    LowWordVanishes(u0, n0, p0, d0, z);
    var (d1, v0) := MulAddCarry(m, p1, u1, d0);
    var (d2, v1) := MulAddCarry(m, p2, u2, d1);
    var (d3, v2) := MulAddCarry(m, p3, u3, d2);
    var (v3, cc) := Add64(u4, d3, 0);
    AddRow(a0 * bi, a1 * bi, a2 * bi, a3 * bi, t0', t1', t2', t3', t4', c0, c1, c2, c3, u0, u1, u2, u3, u4, t5);
    ReduceRow4(m * p0, m * p1, m * p2, m * p3, u0, u1, u2, u3, u4, t5, d0, d1, d2, d3, v0, v1, v2, v3, cc);
    ScaleLimbs(a0, a1, a2, a3, bi);
    ScaleLimbs(p0, p1, p2, p3, m);
    RowBound(A, P, V5(t0', t1', t2', t3', t4'), bi, m, V5(v0, v1, v2, v3, t5 + cc));
    t0, t1, t2, t3, t4 := v0, v1, v2, v3, (t5 + cc) % B;
    ModReduced(t5 + cc, B);
    TopWord(t0, t1, t2, t3, t4, A, P);
  }

  lemma ScaleLimbs(x0: int, x1: int, x2: int, x3: int, k: int)
    ensures V5(x0 * k, x1 * k, x2 * k, x3 * k, 0) == V5(x0, x1, x2, x3, 0) * k
    ensures V5(k * x0, k * x1, k * x2, k * x3, 0) == V5(x0, x1, x2, x3, 0) * k
  {
  }

  lemma AddRow(x0: int, x1: int, x2: int, x3: int, t0: int, t1: int, t2: int, t3: int, t4: int,
               c0: int, c1: int, c2: int, c3: int, u0: int, u1: int, u2: int, u3: int, u4: int, u5: int)
    requires c0 * B + u0 == x0 + t0 && c1 * B + u1 == x1 + t1 + c0 && c2 * B + u2 == x2 + t2 + c1
    requires c3 * B + u3 == x3 + t3 + c2 && u4 + B * u5 == t4 + c3
    ensures u0 + B * V5(u1, u2, u3, u4, u5) == V5(t0, t1, t2, t3, t4) + V5(x0, x1, x2, x3, 0)
  {
  }

  lemma ReduceRow4(x0: int, x1: int, x2: int, x3: int, u0: int, u1: int, u2: int, u3: int, u4: int, u5: int,
                  d0: int, d1: int, d2: int, d3: int, v0: int, v1: int, v2: int, v3: int, cc: int)
    requires d0 * B == x0 + u0 && d1 * B + v0 == x1 + u1 + d0 && d2 * B + v1 == x2 + u2 + d1
    requires d3 * B + v2 == x3 + u3 + d2 && v3 + B * cc == u4 + d3
    ensures B * V5(v0, v1, v2, v3, u5 + cc) == u0 + B * V5(u1, u2, u3, u4, u5) + V5(x0, x1, x2, x3, 0)
  {
  }

  // --------------------------------------------------- CIOS in loop form (ctfield8)

  /** t := t + a*bi over n + 2 words; the stale top word is overwritten. */
  method AddProductRow(t: array<Word>, a: Fe, bi: Word)
    requires t.Length == |a| + 2 && |a| > 0
    modifies t
    ensures Val(t[..]) == old(Val(t[..|a| + 1])) + Val(a) * bi
  {
    var n := |a|;
    ghost var t0 := t[..];
    assert t0[..n + 1] == t[..n + 1];
    var c := AddProductLimbs(t, a, bi);
    ghost var t1 := t[..];
    assert t1[..n] == t[..n];
    var (s, cc) := Add64(t[n], c, 0);
    t[n], t[n + 1] := s, cc;
    FinishAdd(n, t0, t1, c, Val(a) * bi, s, cc);
    assert t[..] == t1[n := s][n + 1 := cc];
  }

  /** Words 0..n-1 of t + a*bi, and the outgoing carry. */
  method AddProductLimbs(t: array<Word>, a: Fe, bi: Word) returns (c: Word)
    requires t.Length == |a| + 2
    modifies t
    ensures forall k :: |a| <= k < t.Length ==> t[k] == old(t[k])
    ensures Val(t[..|a|]) + Pow(B, |a|) * c == old(Val(t[..|a|])) + Val(a) * bi
  {
    var n := |a|;
    c := 0;
    ghost var t0 := t[..];
    for j := 0 to n
      invariant forall k :: j <= k < t.Length ==> t[k] == t0[k]
      invariant Val(t[..j]) + Pow(B, j) * c == Val(t0[..j]) + Val(a[..j]) * bi
    {
      var (hi, lo) := MulAddCarry(a[j], bi, t[j], c);
      t[j] := lo;
      RowPrefix(t[..], t0, j);
      assert t[..][..j] == t[..j] && t[..][..j + 1] == t[..j + 1];
      ValPrefix(a, j);
      RowStep(Pow(B, j), lo, hi, a[j], bi, t0[j], c, Val(a[..j]));
      c := hi;
    }
    assert a[..n] == a;
  }

  lemma FinishAdd(n: nat, u: Fe, v: Fe, c: Word, ab: int, s: Word, cc: Word)
    requires n > 0 && |u| == |v| == n + 2 && u[n..] == v[n..]
    requires Val(v[..n]) + Pow(B, n) * c == Val(u[..n]) + ab
    requires s + B * cc == v[n] + c
    ensures Val(v[n := s][n + 1 := cc]) == Val(u[..n + 1]) + ab
  {
    var w := v[n := s][n + 1 := cc];
    TopTwo(w, n + 1);
    assert w[..n] == v[..n];
    ValPrefix(u, n);
    assert v[n] == u[n..][0] == u[n];
    LimbStep(Pow(B, n), s, cc, u[n], 0, c);
  }

  /** Value of the first j + 1 words after word j of t was replaced. */
  lemma RowPrefix(t: seq<Word>, t0: seq<Word>, j: nat)
    requires j < |t| == |t0|
    ensures Val(t[..j + 1]) == Val(t[..j]) + Pow(B, j) * t[j]
    ensures Val(t0[..j + 1]) == Val(t0[..j]) + Pow(B, j) * t0[j]
  {
    ValPrefix(t, j);
    ValPrefix(t0, j);
  }

  lemma RowStep(q: int, lo: int, hi: int, x: int, k: int, y: int, c: int, xs: int)
    requires hi * B + lo == x * k + y + c
    ensures q * lo + (B * q) * hi + xs * k == q * y + (xs + q * x) * k + q * c
  {
    LimbStep(q, lo, hi, x * k, y, c);
    assert (xs + q * x) * k == xs * k + q * (x * k);
  }

  /** t := (t + m*p) / B, where m makes the low word vanish. */
  method ReduceRow(f: Field, t: array<Word>, m: Word)
    requires f.Valid() && t.Length == f.n + 2
    requires m == (t[0] * f.n0) % B
    requires Val(t[..]) + m * f.P() < 2 * B * Pow(B, f.n)
    modifies t
    ensures B * Val(t[..f.n + 1]) == old(Val(t[..])) + m * f.P()
    ensures t[f.n] <= 1
  {
    var n := f.n;
    ghost var t0 := t[..];
    var c := ReduceLimbs(f, t, m);
    ghost var t1 := t[..];
    assert t1[..n - 1] == t[..n - 1];
    var (s, cc) := Add64(t[n], c, 0);
    FinishReduce(n, t0, t1, c, m * f.P(), s, cc);
    t[n - 1], t[n] := s, t[n + 1] + cc;
    assert t[..n + 1] == t1[n - 1 := s][n := t0[n + 1] + cc][..n + 1];
  }

  lemma FinishReduce(n: nat, u: Fe, v: Fe, c: Word, mp: nat, s: Word, cc: Word)
    requires n > 0 && |u| == |v| == n + 2 && v[n] == u[n] && v[n + 1] == u[n + 1] && cc <= 1
    requires B * Val(v[..n - 1]) + Pow(B, n) * c == Val(u[..n]) + mp
    requires s + B * cc == v[n] + c
    requires Val(u) + mp < 2 * B * Pow(B, n)
    ensures u[n + 1] + cc <= 1
    ensures B * Val(v[n - 1 := s][n := u[n + 1] + cc][..n + 1]) == Val(u) + mp
  {
    TopTwo(u, n + 1);
    ReduceTop(Pow(B, n - 1), s, cc, u[n], u[n + 1], c, Val(v[..n - 1]), Val(u[..n]), mp, Val(u));
    var w := v[n - 1 := s][n := u[n + 1] + cc][..n + 1];
    TopTwo(w, n);
    assert w[..n - 1] == v[..n - 1];
  }

  /** A limb vector of n + 1 words by its two top words. */
  lemma TopTwo(t: Fe, n: nat)
    requires n > 0 && |t| == n + 1
    ensures Val(t) == Val(t[..n - 1]) + Pow(B, n - 1) * t[n - 1] + Pow(B, n) * t[n]
  {
    ValPrefix(t, n - 1);
    ValPrefix(t, n);
    assert t[..n + 1] == t;
  }

  /** The shifting part of the reduction: words 0..n-2, and the outgoing carry. */
  method ReduceLimbs(f: Field, t: array<Word>, m: Word) returns (c: Word)
    requires f.Valid() && t.Length == f.n + 2
    requires m == (t[0] * f.n0) % B
    modifies t
    ensures forall k :: f.n - 1 <= k < t.Length ==> t[k] == old(t[k])
    ensures B * Val(t[..f.n - 1]) + Pow(B, f.n) * c == old(Val(t[..f.n])) + m * f.P()
  {
    var n := f.n;
    ghost var t0 := t[..];
    var (c0, z) := MulAddCarry(m, f.p[0], t[0], 0);
    c := c0;
    LowWordVanishes(t[0], f.n0, f.p[0], c, z);
    ValPrefix(f.p, 0);
    ValPrefix(t0, 0);
    assert Val(f.p[..1]) == f.p[0] && Val(t0[..1]) == t0[0] && Pow(B, 1) == B;
    for j := 1 to n
      invariant forall k :: j - 1 <= k < t.Length ==> t[k] == t0[k]
      invariant B * Val(t[..j - 1]) + Pow(B, j) * c == Val(t0[..j]) + m * Val(f.p[..j])
    {
      var (hi, lo) := MulAddCarry(m, f.p[j], t[j], c);
      t[j - 1] := lo;
      ValPrefix(t[..], j - 1);
      ValPrefix(t0, j);
      ValPrefix(f.p, j);
      assert t[..][..j] == t[..j] && t[..][..j - 1] == t[..j - 1];
      ShiftStep(Pow(B, j - 1), lo, hi, f.p[j], m, t0[j], c, Val(f.p[..j]), Val(f.p[..j + 1]), Val(t[..j - 1]), Val(t[..j]),
                Val(t0[..j]), Val(t0[..j + 1]));
      c := hi;
    }
    assert f.p[..n] == f.p;
  }

  lemma ShiftStep(q: int, lo: int, hi: int, x: int, m: int, y: int, c: int, xs: int, xs': int, ts: int, ts': int,
                  us: int, us': int)
    requires hi * B + lo == m * x + y + c
    requires xs' == xs + (B * q) * x && ts' == ts + q * lo && us' == us + (B * q) * y
    requires B * ts + (B * q) * c == us + m * xs
    ensures B * ts' + (B * (B * q)) * hi == us' + m * xs'
  {
    LimbStep(B * q, lo, hi, m * x, y, c);
    assert m * (xs + (B * q) * x) == m * xs + (B * q) * (m * x);
    assert B * (q * lo) == (B * q) * lo;
  }

  lemma ReduceTop(q: int, s: int, cc: int, tn: int, tn1: int, c: int, low: int, t0: int, mp: int, v: int)
    requires q > 0 && low >= 0 && s >= 0 && 0 <= cc <= 1 && tn1 >= 0
    requires s + B * cc == tn + c
    requires B * low + (B * q) * c == t0 + mp
    requires v == t0 + (B * q) * tn + (B * (B * q)) * tn1
    requires v + mp < 2 * B * (B * q)
    ensures B * (low + q * s + (B * q) * (tn1 + cc)) == v + mp
    ensures tn1 + cc <= 1
  {
    assert B * (q * s) + B * ((B * q) * cc) == (B * q) * (s + B * cc);
    assert (B * q) * (tn + c) == (B * q) * tn + (B * q) * c;
    assert B * (low + q * s + (B * q) * (tn1 + cc)) == B * low + B * (q * s) + B * ((B * q) * cc) + B * ((B * q) * tn1);
    assert q * s >= 0;
    if tn1 + cc >= 2 {
      MulMono(2, tn1 + cc, B * q);
    }
  }

  /** One row of the looped CIOS: t becomes (t + a*bi + m*p) / 2^64. */
  method MulRow(f: Field, t: array<Word>, a: Fe, bi: Word) returns (m: Word)
    requires f.Valid() && f.Elem(a) && t.Length == f.n + 2 && Val(t[..f.n + 1]) < Val(a) + f.P()
    modifies t
    ensures B * Val(t[..f.n + 1]) == old(Val(t[..f.n + 1])) + Val(a) * bi + m * f.P()
    ensures Val(t[..f.n + 1]) < Val(a) + f.P() && t[f.n] <= 1
  {
    hide Pow, Val;
    ghost var T := Val(t[..f.n + 1]);
    ValBound(f.p);
    AddProductRow(t, a, bi);
    m := (t[0] * f.n0) % B;
    RowFitsReduced(Val(a), f.P(), T, bi, m, Pow(B, f.n));
    ReduceRow(f, t, m);
    RowBound(Val(a), f.P(), T, bi, m, Val(t[..f.n + 1]));
  }

  /** Montgomery product by CIOS in loops, any limb count. */
  method MulLoop(f: Field, a: Fe, b: Fe) returns (r: Fe)
    requires f.Valid() && f.Elem(a) && |b| == f.n
    ensures f.Elem(r)
    ensures Cong(Val(r) * f.R(), Val(a) * Val(b), f.P())
  {
    var n := f.n;
    var t := new Word[n + 2](_ => 0);
    ghost var A, P, mv := Val(a), f.P(), 0;
    ValZero(t[..n + 1]);
    ValBound(f.p);
    for i := 0 to n
      invariant Val(t[..n + 1]) < A + P
      invariant Val(t[..n + 1]) * Pow(B, i) == A * Val(b[..i]) + mv * P
    {
      ghost var T := Val(t[..n + 1]);
      var m := MulRow(f, t, a, b[i]);
      RowAccumulate(Pow(B, i), A, P, T, b[i], m, Val(t[..n + 1]), Val(b[..i]), mv);
      ValPrefix(b, i);
      mv := mv + Pow(B, i) * m;
    }
    assert b[..n] == b;
    ValPrefix(t[..], n);
    assert t[..][..n + 1] == t[..n + 1] && t[..][..n] == t[..n];
    if t[n] > 1 { MulMono(2, t[n], Pow(B, n)); }
    r := CondSubP(f, t[..n], t[n]);
    RowsDone(f.R(), P, Val(t[..n + 1]), Val(r), A, Val(b), mv);
  }

  lemma {:induction false} ValZero(s: Fe)
    requires forall i :: 0 <= i < |s| ==> s[i] == 0
    ensures Val(s) == 0
  {
    if |s| > 0 { ValZero(s[1..]); }
  }

  lemma RowFitsReduced(A: int, P: int, T: int, bi: Word, m: Word, q: int)
    requires 0 <= A < P < q && 0 <= T < A + P
    ensures T + A * bi + m * P < 2 * B * q
  {
    MulMono(bi, B - 1, A);
    MulMono(m, B - 1, P);
    assert A * bi == bi * A;
  }
}
