/** What the limb field computes: the ring isomorphism between reduced limb vectors
    in the Montgomery domain and the residues modulo p, and Fermat inversion. */
module FieldModel {
  import opened ModArith
  import opened Words
  import opened MontgomeryField

  // ------------------------------------------------------------ the isomorphism

  lemma {:induction false} PowOfPow(n: nat)
    ensures Pow(B, n) == Pow(2, 64 * n)
  {
    if n > 0 {
      PowOfPow(n - 1);
      WordSize();
      PowAdd(2, 64, 64 * n - 64);
    }
  }

  /** R is invertible modulo every odd p above 1. */
  lemma RadixInvertible(f: Field)
    requires f.Valid() && f.P() > 1
    ensures ModInverse(f.R(), f.P()).Some?
  {
    PowOfPow(f.n);
    Pow2Invertible(64 * f.n, f.P());
  }

  lemma Pow2Invertible(k: nat, p: int)
    requires p > 1 && p % 2 == 1
    ensures ModInverse(Pow(2, k), p).Some?
  {
    var r := Pow(2, k);
    hide Pow, ExtGcd;
    DivMod(r, p);
    var g := ExtGcd(r % p, p).0;
    GcdDivides(r % p, p);
    CombineQuotient(g, r, p);
    OddDivisorOfPow2(g, k, p);
  }

  function RInv(f: Field): (v: int)
    requires f.Valid()
    ensures Cong(f.R() * v, 1, f.P())
  {
    if f.P() == 1 then
      CongModOne(f.R() * 0, 1);
      0
    else
      RadixInvertible(f);
      var v := ModInverse(f.R(), f.P()).value;
      ModReduced(1, f.P());
      CongIffModEq(f.R() * v, 1, f.P());
      v
  }

  lemma CongModOne(a: int, b: int)
    ensures Cong(a, b, 1)
  {
  }

  /** The residue that the limbs a stand for. */
  function Dec(f: Field, a: Fe): (x: int)
    requires f.Valid()
    ensures 0 <= x < f.P()
  {
    DivMod(Val(a) * RInv(f), f.P());
    Val(a) * RInv(f) % f.P()
  }

  /** The reduced limbs standing for the residue of x. */
  function Enc(f: Field, x: int): (a: Fe)
    requires f.Valid()
    ensures f.Elem(a) && Val(a) == x * f.R() % f.P()
  {
    DivMod(x * f.R(), f.P());
    ValBound(f.p);
    ValToLimbs(f.n, x * f.R() % f.P());
    ToLimbs(f.n, x * f.R() % f.P())
  }

  lemma DecCharacterised(f: Field, a: Fe)
    requires f.Valid()
    ensures Cong(Dec(f, a) * f.R(), Val(a), f.P())
  {
    var v, R, p := RInv(f), f.R(), f.P();
    CongMod(Val(a) * v, p);
    CongMul(Dec(f, a), Val(a) * v, R, R, p);
    CongRefl(R, p);
    CongRefl(Val(a), p);
    CongMul(Val(a), Val(a), R * v, 1, p);
    MulAssoc(Val(a), v, R);
    assert v * R == R * v;
    CongTrans(Dec(f, a) * R, Val(a) * (R * v), Val(a) * 1, p);
  }

  lemma CancelRadix(f: Field, x: int, y: int)
    requires f.Valid() && Cong(x * f.R(), y * f.R(), f.P())
    ensures Cong(x, y, f.P())
  {
    hide RInv;
    CancelFactor(x, y, f.R(), RInv(f), f.P());
  }

  lemma CancelFactor(x: int, y: int, R: int, v: int, p: int)
    requires p > 0 && Cong(R * v, 1, p) && Cong(x * R, y * R, p)
    ensures Cong(x, y, p)
  {
    CongRefl(v, p);
    CongRefl(x, p);
    CongRefl(y, p);
    CongMul(x * R, y * R, v, v, p);
    CongMul(x, x, R * v, 1, p);
    CongMul(y, y, R * v, 1, p);
    MulAssoc(x, R, v);
    MulAssoc(y, R, v);
    hide Cong;
    CongSym(x * (R * v), x * 1, p);
    CongTrans(x * 1, x * (R * v), y * (R * v), p);
    CongTrans(x * 1, y * (R * v), y * 1, p);
  }

  lemma DecEnc(f: Field, x: int)
    requires f.Valid()
    ensures Dec(f, Enc(f, x)) == x % f.P()
  {
    var a, p := Enc(f, x), f.P();
    DecCharacterised(f, a);
    CongMod(x * f.R(), p);
    CongTrans(Dec(f, a) * f.R(), Val(a), x * f.R(), p);
    CancelRadix(f, Dec(f, a), x);
    CongIffModEq(Dec(f, a), x, p);
    ModReduced(Dec(f, a), p);
  }

  /** Reduced limbs are determined by the residue they stand for. */
  lemma EncodesResidue(f: Field, a: Fe, x: int)
    requires f.Valid() && f.Elem(a) && Cong(Val(a), x * f.R(), f.P())
    ensures a == Enc(f, x)
  {
    CongIffModEq(Val(a), x * f.R(), f.P());
    ModReduced(Val(a), f.P());
    ValInjective(a, Enc(f, x));
  }

  lemma EncDec(f: Field, a: Fe)
    requires f.Valid() && f.Elem(a)
    ensures Enc(f, Dec(f, a)) == a
  {
    DecCharacterised(f, a);
    CongSym(Dec(f, a) * f.R(), Val(a), f.P());
    EncodesResidue(f, a, Dec(f, a));
  }

  // --------------------------------------- field operations on limbs, as a value

  function FeAdd(f: Field, a: Fe, b: Fe): Fe requires f.Valid() { Enc(f, Dec(f, a) + Dec(f, b)) }

  function FeSub(f: Field, a: Fe, b: Fe): Fe requires f.Valid() { Enc(f, Dec(f, a) - Dec(f, b)) }

  function FeMul(f: Field, a: Fe, b: Fe): Fe requires f.Valid() { Enc(f, Dec(f, a) * Dec(f, b)) }

  /** A Montgomery product of limbs stands for the product of the residues. */
  lemma ProductResidue(f: Field, a: Fe, b: Fe, r: Fe)
    requires f.Valid() && f.Elem(r) && Cong(Val(r) * f.R(), Val(a) * Val(b), f.P())
    ensures r == FeMul(f, a, b)
  {
    var R, p, x, y := f.R(), f.P(), Dec(f, a), Dec(f, b);
    DecCharacterised(f, a);
    DecCharacterised(f, b);
    CongMul(x * R, Val(a), y * R, Val(b), p);
    CongSym((x * R) * (y * R), Val(a) * Val(b), p);
    CongTrans(Val(r) * R, Val(a) * Val(b), (x * R) * (y * R), p);
    assert (x * R) * (y * R) == ((x * y) * R) * R by { SquareRadix(x, y, R); }
    CancelRadix(f, Val(r), (x * y) * R);
    EncodesResidue(f, r, x * y);
  }

  lemma SquareRadix(x: int, y: int, R: int)
    ensures (x * R) * (y * R) == ((x * y) * R) * R
  {
    assert (x * R) * (y * R) == ((x * R) * y) * R;
    assert (x * R) * y == (x * y) * R;
  }

  /** Sums and differences of limb values stand for those of the residues. */
  lemma SumResidue(f: Field, a: Fe, b: Fe, r: Fe)
    requires f.Valid() && f.Elem(r) && Val(r) == (Val(a) + Val(b)) % f.P()
    ensures r == FeAdd(f, a, b)
  {
    hide Dec, Enc, Val, Pow;
    LinearResidue(f, a, b);
    ValInjective(r, FeAdd(f, a, b));
  }

  lemma DifferenceResidue(f: Field, a: Fe, b: Fe, r: Fe)
    requires f.Valid() && f.Elem(r) && Val(r) == (Val(a) - Val(b)) % f.P()
    ensures r == FeSub(f, a, b)
  {
    hide Dec, Enc, Val, Pow;
    LinearResidue(f, a, b);
    ValInjective(r, FeSub(f, a, b));
  }

  lemma LinearResidue(f: Field, a: Fe, b: Fe)
    requires f.Valid()
    ensures (Dec(f, a) + Dec(f, b)) * f.R() % f.P() == (Val(a) + Val(b)) % f.P()
    ensures (Dec(f, a) - Dec(f, b)) * f.R() % f.P() == (Val(a) - Val(b)) % f.P()
  {
    hide Dec, Val, Pow;
    DecCharacterised(f, a);
    DecCharacterised(f, b);
    SumTimesRadix(Dec(f, a), Dec(f, b), f.R(), Val(a), Val(b), f.P());
  }

  lemma SumTimesRadix(x: int, y: int, R: int, a: int, b: int, p: int)
    requires p > 0 && Cong(x * R, a, p) && Cong(y * R, b, p)
    ensures (x + y) * R % p == (a + b) % p && (x - y) * R % p == (a - b) % p
  {
    CongAdd(x * R, a, y * R, b, p);
    assert (x + y) * R == x * R + y * R && (x - y) * R == x * R - y * R;
    CongIffModEq((x + y) * R, a + b, p);
    CongIffModEq((x - y) * R, a - b, p);
  }

  /** (a + b) in the field. */
  method Sum(f: Field, a: Fe, b: Fe) returns (r: Fe)
    requires f.Valid() && f.Elem(a) && f.Elem(b)
    ensures f.Elem(r) && r == FeAdd(f, a, b)
  {
    if f.n == 4 { r := Add4(f, a, b); } else { r := AddLoop(f, a, b); }
    SumResidue(f, a, b, r);
  }

  /** (a - b) in the field. */
  method Difference(f: Field, a: Fe, b: Fe) returns (r: Fe)
    requires f.Valid() && f.Elem(a) && f.Elem(b)
    ensures f.Elem(r) && r == FeSub(f, a, b)
  {
    if f.n == 4 { r := Sub4(f, a, b); } else { r := SubLoop(f, a, b); }
    DifferenceResidue(f, a, b, r);
  }

  /** a * b in the field. */
  method Multiply(f: Field, a: Fe, b: Fe) returns (r: Fe)
    requires f.Valid() && f.Elem(a) && |b| == f.n
    ensures f.Elem(r) && r == FeMul(f, a, b)
  {
    if f.n == 4 { r := Mul4(f, a, b); } else { r := MulLoop(f, a, b); }
    ProductResidue(f, a, b, r);
  }

  /** Into the Montgomery domain. */
  method ToMont(f: Field, a: Fe) returns (r: Fe)
    requires f.Valid() && f.Constants() && f.Elem(a)
    ensures f.Elem(r) && r == Enc(f, Val(a))
  {
    DivMod(f.R() * f.R(), f.P());
    r := Multiply(f, a, f.rr);
    var R, p := f.R(), f.P();
    DecCharacterised(f, a);
    DecCharacterised(f, f.rr);
    CongMod(R * R, p);
    CongTrans(Dec(f, f.rr) * R, Val(f.rr), R * R, p);
    CancelRadix(f, Dec(f, f.rr), R);
    CongMul(Dec(f, a), Dec(f, a), Dec(f, f.rr), R, p);
    CongTrans(Dec(f, a) * Dec(f, f.rr), Dec(f, a) * R, Val(a), p);
    CongMul(Dec(f, a) * Dec(f, f.rr), Val(a), R, R, p);
    CongIffModEq(Dec(f, a) * Dec(f, f.rr) * R, Val(a) * R, p);
    ValInjective(r, Enc(f, Val(a)));
  }

  /** Back to the normal domain, by multiplying with the literal 1. */
  method FromMont(f: Field, a: Fe) returns (r: Fe)
    requires f.Valid() && f.Elem(a)
    ensures f.Elem(r) && Val(r) == Dec(f, a)
  {
    var lit: Fe := seq(f.n, i => if i == 0 then 1 else 0);
    ValZero(lit[1..]);
    r := Multiply(f, a, lit);
    DecCharacterised(f, lit);
    LiteralOne(Dec(f, a), Dec(f, lit), f.R(), f.P());
  }

  lemma LiteralOne(d: int, l: int, R: int, p: int)
    requires 0 <= d < p && Cong(l * R, 1, p)
    ensures (d * l * R) % p == d
  {
    CongRefl(d, p);
    CongMul(d, d, l * R, 1, p);
    assert d * (l * R) == d * l * R;
    CongIffModEq(d * l * R, d, p);
    ModReduced(d, p);
  }

  /** Leaving the Montgomery domain undoes entering it, for every reduced x. */
  lemma MontRoundTrip(f: Field, x: Fe)
    requires f.Valid() && f.Elem(x)
    ensures Dec(f, Enc(f, Val(x))) == Val(x)
  {
    DecEnc(f, Val(x));
    ModReduced(Val(x), f.P());
  }

  // ------------------------------------------------------------------ inversion

  function BitLen(n: nat): nat
  {
    if n == 0 then 0 else 1 + BitLen(n / 2)
  }

  /** The bits of n from bit i up. */
  function High(n: nat, i: nat): nat
  {
    PowPositive(2, i);
    n / Pow(2, i)
  }

  function Bit(n: nat, i: nat): nat { High(n, i) % 2 }

  lemma {:induction false} BitLenBound(n: nat)
    ensures n < Pow(2, BitLen(n))
  {
    if n > 0 { BitLenBound(n / 2); }
  }

  /** The high part of n above bit i, one bit further down. */
  lemma HighStep(n: nat, i: nat)
    ensures High(n, i) == 2 * High(n, i + 1) + Bit(n, i)
  {
    PowPositive(2, i);
    DivMod(n, Pow(2, i));
    SplitQuotient(n, Pow(2, i), High(n, i), n % Pow(2, i));
  }

  lemma SplitQuotient(n: int, d: int, q: int, r: int)
    requires d > 0 && 0 <= r < d && n == d * q + r
    ensures n / (2 * d) == q / 2
  {
    DivMod(q, 2);
    assert d * q == (2 * d) * (q / 2) + d * (q % 2) by { assert d * (2 * (q / 2) + q % 2) == d * (2 * (q / 2)) + d * (q % 2); }
    ModUnique(n, 2 * d, q / 2, d * (q % 2) + r) by { assert q % 2 == 0 || q % 2 == 1; }
  }

  lemma HighAboveTop(n: nat)
    ensures High(n, BitLen(n)) == 0
  {
    BitLenBound(n);
    ModUnique(n, Pow(2, BitLen(n)), 0, n);
  }

  lemma HighAll(n: nat)
    ensures High(n, 0) == n
  {
    assert Pow(2, 0) == 1;
  }

  lemma DecOne(f: Field)
    requires f.Valid() && f.Constants()
    ensures f.Elem(f.one) && f.one == Enc(f, 1)
  {
    DivMod(f.R(), f.P());
    CongMod(f.R(), f.P());
    EncodesResidue(f, f.one, 1);
  }

  lemma FeMulOfPowers(f: Field, x: int, m: nat, n: nat)
    requires f.Valid()
    ensures FeMul(f, Enc(f, Pow(x, m)), Enc(f, Pow(x, n))) == Enc(f, Pow(x, m + n))
  {
    EncProduct(f, Pow(x, m), Pow(x, n));
    PowAdd(x, m, n);
  }

  lemma EncProduct(f: Field, x: int, y: int)
    requires f.Valid()
    ensures FeMul(f, Enc(f, x), Enc(f, y)) == Enc(f, x * y)
  {
    DecEnc(f, x);
    DecEnc(f, y);
    var p, R := f.P(), f.R();
    CongMod(x, p);
    CongMod(y, p);
    CongMul(x % p, x, y % p, y, p);
    CongMul((x % p) * (y % p), x * y, R, R, p);
    CongIffModEq((x % p) * (y % p) * R, x * y * R, p);
    ValInjective(FeMul(f, Enc(f, x), Enc(f, y)), Enc(f, x * y));
  }

  /** a^(p-2) by square-and-multiply over the public exponent. */
  method Inv(f: Field, a: Fe) returns (r: Fe)
    requires f.Valid() && f.Constants() && f.Elem(a) && f.P() > 2
    ensures f.Elem(r) && r == Enc(f, Pow(Dec(f, a), f.P() - 2))
  {
    var e: nat := f.P() - 2;
    r := f.one;
    InvStart(f, Dec(f, a), e);
    var i := BitLen(e);
    while i > 0
      invariant f.Elem(r) && r == Enc(f, Pow(Dec(f, a), High(e, i)))
    {
      i := i - 1;
      r := InvStep(f, a, r, e, i);
    }
    HighAll(e);
  }

  lemma InvStart(f: Field, x: int, e: nat)
    requires f.Valid() && f.Constants()
    ensures f.Elem(f.one) && f.one == Enc(f, Pow(x, High(e, BitLen(e))))
  {
    DecOne(f);
    HighAboveTop(e);
    assert Pow(x, 0) == 1;
  }

  /** One bit of the exponent: square, then multiply when the bit is set. */
  method InvStep(f: Field, a: Fe, s: Fe, e: nat, i: nat) returns (r: Fe)
    requires f.Valid() && f.Elem(a)
    requires f.Elem(s) && s == Enc(f, Pow(Dec(f, a), High(e, i + 1)))
    ensures f.Elem(r) && r == Enc(f, Pow(Dec(f, a), High(e, i)))
  {
    ghost var x, h := Dec(f, a), High(e, i + 1);
    HighStep(e, i);
    EncDec(f, a);
    r := Multiply(f, s, s);
    FeMulOfPowers(f, x, h, h);
    if Bit(e, i) == 1 {
      r := Multiply(f, r, a);
      MultiplyStep(f, x, 2 * h, a);
    }
  }

  lemma MultiplyStep(f: Field, x: int, h: nat, a: Fe)
    requires f.Valid() && a == Enc(f, x)
    ensures FeMul(f, Enc(f, Pow(x, h)), a) == Enc(f, Pow(x, h + 1))
  {
    assert Pow(x, 1) == x * Pow(x, 0);
    FeMulOfPowers(f, x, h, 1);
  }

  /** Over a prime p, the limbs returned by Inv stand for the inverse. */
  lemma InvIsInverse(f: Field, a: Fe)
    requires f.Valid() && f.Constants() && f.Elem(a) && IsPrime(f.P()) && f.P() > 2 && Dec(f, a) != 0
    ensures FeMul(f, a, Enc(f, Pow(Dec(f, a), f.P() - 2))) == f.one
  {
    var x, p := Dec(f, a), f.P();
    ModReduced(x, p);
    EncDec(f, a);
    EncProduct(f, x, Pow(x, p - 2));
    Fermat(x, p);
    CongMul(Pow(x, p - 1), 1, f.R(), f.R(), p);
    CongIffModEq(Pow(x, p - 1) * f.R(), 1 * f.R(), p);
    DecOne(f);
    ValInjective(Enc(f, Pow(x, p - 1)), Enc(f, 1));
  }
}
