/** The limb-level points of ctpoint.go: construction, addition, doubling, conditional swap
    and conversion, each tied to the affine point it stands for. */
module ConstantTimeCurve {
  import opened ModArith
  import opened Words
  import opened Ct
  import opened MontgomeryField
  import opened FieldModel
  import opened AffineCurve
  import opened ProjectiveCurve
  import opened CompleteFormulas

  /** Coordinates as limbs in the Montgomery domain. */
  type CtPoint = PPoint<Fe>

  datatype CtCurve = CtCurve(f: Field, a: Fe, b3: Fe, orderBits: nat) {
    /** The context newCTCurve derives from c. */
    ghost predicate For(c: Curve) {
      && f.Valid() && f.Constants() && f.P() == c.P
      && f.Elem(a) && Cong(Dec(f, a), c.A, c.P)
      && f.Elem(b3) && Cong(Dec(f, b3), 3 * c.B, c.P)
      && orderBits == BitLen(if c.Q < 0 then 0 else c.Q)
    }
  }

  ghost predicate PointElem(f: Field, p: CtPoint) { f.Elem(p.x) && f.Elem(p.y) && f.Elem(p.z) }

  ghost function Decoded(f: Field, p: CtPoint): PPoint<int>
    requires f.Valid()
  {
    PPoint(Dec(f, p.x), Dec(f, p.y), Dec(f, p.z))
  }

  /** The limbs p are a projective representation of the affine point A. */
  ghost predicate Stands(f: Field, p: CtPoint, A: Point)
    requires f.Valid()
  {
    PointElem(f, p) && Represents(f.P(), Decoded(f, p), A)
  }

  /** The limbs decode to (0:0:0), which is no projective point. */
  ghost predicate Collapsed(f: Field, p: CtPoint)
    requires f.Valid()
  {
    PointElem(f, p) && Decoded(f, p) == PPoint(0, 0, 0)
  }

  /** What the conversion to affine makes of the limbs: the point they stand for, or the identity
      of (0:0:0). */
  ghost predicate ReadsAs(f: Field, p: CtPoint, A: Point)
    requires f.Valid()
  {
    Stands(f, p, A) || (Collapsed(f, p) && A.Infinity?)
  }

  lemma CollapsedStandsForNothing(f: Field, p: CtPoint, A: Point)
    requires f.Valid() && Collapsed(f, p)
    ensures !Stands(f, p, A)
  {
    ModReduced(0, f.P());
  }

  // ------------------------------------------------------------- construction

  method NewCtCurve(c: Curve, n: nat) returns (cc: CtCurve)
    requires c.Valid() && n > 0 && c.P < Pow(B, n)
    ensures cc.For(c) && cc.f.n == n
  {
    OddPrime(c.P);
    var fo := NewField(n, c.P);
    var f := fo.value;
    var a := ToMontResidue(f, c.A);
    var b3 := ToMontResidue(f, 3 * c.B % c.P);
    CongMod(3 * c.B, c.P);
    CongTrans(Dec(f, b3), 3 * c.B % c.P, 3 * c.B, c.P);
    cc := CtCurve(f, a, b3, BitLen(if c.Q < 0 then 0 else c.Q));
  }

  lemma OddPrime(p: int)
    requires IsPrime(p) && p > 3
    ensures p % 2 == 1
  {
    assert p % 2 != 0;
  }

  /** The Montgomery form of x mod p. */
  method ToMontResidue(f: Field, x: int) returns (a: Fe)
    requires f.Valid() && f.Constants()
    ensures f.Elem(a) && a == Enc(f, x % f.P()) && Cong(Dec(f, a), x, f.P())
  {
    DivMod(x, f.P());
    ValBound(f.p);
    var l := ToLimbs(f.n, x % f.P());
    ValToLimbs(f.n, x % f.P());
    a := ToMont(f, l);
    DecEnc(f, x % f.P());
    ModReduced(x % f.P(), f.P());
    CongMod(x, f.P());
  }

  /** (0:1:0). */
  method Identity(f: Field) returns (p: CtPoint)
    requires f.Valid() && f.Constants() && f.P() > 1
    ensures Stands(f, p, Infinity)
  {
    var zero: Fe := seq(f.n, _ => 0);
    p := PPoint(zero, f.one, zero);
    ValZero(zero);
    DecOne(f);
    DecEnc(f, 1);
    ModReduced(1, f.P());
    ModReduced(0, f.P());
  }

  method FromAffine(f: Field, A: Point) returns (p: CtPoint)
    requires f.Valid() && f.Constants() && f.P() > 1
    ensures Stands(f, p, A)
  {
    if A.Infinity? {
      p := Identity(f);
    } else {
      var x := ToMontResidue(f, A.x);
      var y := ToMontResidue(f, A.y);
      p := PPoint(x, y, f.one);
      LiftedStands(f, x, y, A);
    }
  }

  lemma LiftedStands(f: Field, x: Fe, y: Fe, A: Point)
    requires f.Valid() && f.Constants() && f.P() > 1 && A.Affine? && f.Elem(x) && f.Elem(y)
    requires Cong(Dec(f, x), A.x, f.P()) && Cong(Dec(f, y), A.y, f.P())
    ensures Stands(f, PPoint(x, y, f.one), A)
  {
    hide Dec, Enc;
    DecOne(f);
    DecEnc(f, 1);
    ModReduced(1, f.P());
    assert Decoded(f, PPoint(x, y, f.one)) == PPoint(Dec(f, x), Dec(f, y), 1);
  }

  /** Limb-wise equality without branching on the limbs. */
  method FeEqual(a: Fe, b: Fe) returns (r: bool)
    requires |a| == |b|
    ensures r <==> a == b
  {
    var diff: Word := 0;
    WordSize();
    for i := 0 to |a|
      invariant diff == 0 <==> a[..i] == b[..i]
    {
      XorSelf(64, a[i], b[i]);
      OrZero(64, diff, W(Xor, a[i], b[i]));
      assert a[..i + 1] == a[..i] + [a[i]] && b[..i + 1] == b[..i] + [b[i]];
      diff := W(Or, diff, W(Xor, a[i], b[i]));
    }
    assert a[..|a|] == a && b[..|b|] == b;
    r := diff == 0;
  }

  /** Back to the affine point, by one field inversion; Z = 0 is the identity. */
  method ToAffine(f: Field, p: CtPoint, ghost c: Curve, ghost A: Point) returns (r: Point)
    requires f.Valid() && f.Constants() && c.Valid() && f.P() == c.P
    requires PointElem(f, p)
    ensures ReadsAs(f, p, A) && IsOnCurve(c, A) ==> r == A
    ensures Collapsed(f, p) ==> r == Infinity
  {
    var zero: Fe := seq(f.n, _ => 0);
    var isZero := FeEqual(p.z, zero);
    ValZero(zero);
    if isZero {
      assert Dec(f, p.z) == 0 by { ModReduced(0, f.P()); }
      ModReduced(0, f.P());
      return Infinity;
    }
    if Dec(f, p.z) == 0 { ZeroResidue(f, p.z); }
    var zinv := Inv(f, p.z);
    InvIsInverse(f, p.z);
    var xz := Multiply(f, p.x, zinv);
    var yz := Multiply(f, p.y, zinv);
    var x := FromMont(f, xz);
    var y := FromMont(f, yz);
    r := Affine(Val(x), Val(y));
    if Stands(f, p, A) && IsOnCurve(c, A) {
      ModReduced(Dec(f, p.z), f.P());
      if A.Infinity? {
        CongReduced(Dec(f, p.z), 0, f.P());
      } else {
        Normalised(f, p.z, p.x, A.x, zinv);
        Normalised(f, p.z, p.y, A.y, zinv);
      }
    }
  }

  /** Only the zero limbs stand for the zero residue. */
  lemma ZeroResidue(f: Field, a: Fe)
    requires f.Valid() && f.Elem(a) && Dec(f, a) == 0
    ensures a == seq(f.n, _ => 0)
  {
    EncDec(f, a);
    ModReduced(0, f.P());
    assert 0 * f.R() == 0;
    var zero: Fe := seq(f.n, _ => 0);
    ValZero(zero);
    ValInjective(a, zero);
  }

  /** Dividing z*t by z gives t. */
  lemma Normalised(f: Field, z: Fe, w: Fe, t: int, zinv: Fe)
    requires f.Valid() && f.Constants() && f.Elem(z) && f.Elem(zinv)
    requires 0 <= t < f.P() && Cong(Dec(f, w), Dec(f, z) * t, f.P())
    requires FeMul(f, z, zinv) == f.one && f.P() > 1
    ensures Dec(f, FeMul(f, w, zinv)) == t
  {
    var p, dz, dw, di := f.P(), Dec(f, z), Dec(f, w), Dec(f, zinv);
    DecEnc(f, dz * di);
    DecOne(f);
    DecEnc(f, 1);
    ModReduced(1, p);
    CongIffModEq(dz * di, 1, p);
    QuotientResidue(p, dz, dw, di, t);
    DecEnc(f, dw * di);
  }

  lemma QuotientResidue(p: int, dz: int, dw: int, di: int, t: int)
    requires 0 <= t < p && Cong(dz * di, 1, p) && Cong(dw, dz * t, p)
    ensures dw * di % p == t
  {
    CongRefl(di, p);
    CongRefl(t, p);
    CongMul(dw, dz * t, di, di, p);
    CongMul(dz * di, 1, t, t, p);
    MulAssoc(dz, t, di);
    MulAssoc(dz, di, t);
    assert t * di == di * t;
    CongTrans(dw * di, dz * di * t, 1 * t, p);
    CongIffModEq(dw * di, t, p);
    ModReduced(t, p);
  }

  // ------------------------------------------------------- addition and doubling

  function FeRing(f: Field): Ring<Fe>
    requires f.Valid()
  {
    Ring((a: Fe, b: Fe) => FeAdd(f, a, b), (a: Fe, b: Fe) => FeSub(f, a, b), (a: Fe, b: Fe) => FeMul(f, a, b))
  }

  function CtAdd(cc: CtCurve, p: CtPoint, q: CtPoint): CtPoint
    requires cc.f.Valid()
  {
    AddPoints(FeRing(cc.f), cc.a, cc.b3, p, q)
  }

  function CtDouble(cc: CtCurve, p: CtPoint): CtPoint
    requires cc.f.Valid()
  {
    DoublePoint(FeRing(cc.f), cc.a, cc.b3, p)
  }

  ghost function DecFn(f: Field): Fe -> int
    requires f.Valid()
  {
    (a: Fe) => Dec(f, a)
  }

  /** Decoding is a ring homomorphism onto the residues. */
  lemma DecIsHom(f: Field)
    requires f.Valid()
    ensures IsHom(FeRing(f), ModRing(f.P()), DecFn(f))
  {
    var r, s, h := FeRing(f), ModRing(f.P()), DecFn(f);
    forall x, y ensures h(r.add(x, y)) == s.add(h(x), h(y)) { DecEnc(f, Dec(f, x) + Dec(f, y)); }
    forall x, y ensures h(r.sub(x, y)) == s.sub(h(x), h(y)) { DecEnc(f, Dec(f, x) - Dec(f, y)); }
    forall x, y ensures h(r.mul(x, y)) == s.mul(h(x), h(y)) { DecEnc(f, Dec(f, x) * Dec(f, y)); }
  }

  lemma DecodedReduced(f: Field, p: CtPoint)
    requires f.Valid()
    ensures Map(DecFn(f), p) == Decoded(f, p) && Map(Reduce(f.P()), Decoded(f, p)) == Decoded(f, p)
  {
    ModReduced(Dec(f, p.x), f.P());
    ModReduced(Dec(f, p.y), f.P());
    ModReduced(Dec(f, p.z), f.P());
  }

  /** The limb addition decodes to the closed-form sum of the residues. */
  lemma CtAddDecoded(cc: CtCurve, p: CtPoint, q: CtPoint)
    requires cc.f.Valid()
    ensures Decoded(cc.f, CtAdd(cc, p, q))
         == Map(Reduce(cc.f.P()), SumPoly(Dec(cc.f, cc.a), Dec(cc.f, cc.b3), Decoded(cc.f, p), Decoded(cc.f, q)))
  {
    var f, P := cc.f, cc.f.P();
    DecIsHom(f);
    AddHom(FeRing(f), ModRing(P), DecFn(f), cc.a, cc.b3, p, q);
    DecodedReduced(f, p);
    DecodedReduced(f, q);
    DecodedReduced(f, CtAdd(cc, p, q));
    ModReduced(Dec(f, cc.a), P);
    ModReduced(Dec(f, cc.b3), P);
    SumReduced(P, Dec(f, cc.a), Dec(f, cc.b3), Decoded(f, p), Decoded(f, q));
  }

  lemma CtDoubleDecoded(cc: CtCurve, p: CtPoint)
    requires cc.f.Valid()
    ensures Decoded(cc.f, CtDouble(cc, p))
         == Map(Reduce(cc.f.P()), DoublePoint(Integers, Dec(cc.f, cc.a), Dec(cc.f, cc.b3), Decoded(cc.f, p)))
  {
    var f, P := cc.f, cc.f.P();
    DecIsHom(f);
    DoubleHom(FeRing(f), ModRing(P), DecFn(f), cc.a, cc.b3, p);
    DecodedReduced(f, p);
    DecodedReduced(f, CtDouble(cc, p));
    ModReduced(Dec(f, cc.a), P);
    ModReduced(Dec(f, cc.b3), P);
    ReduceIsHom(P);
    DoubleHom(Integers, ModRing(P), Reduce(P), Dec(f, cc.a), Dec(f, cc.b3), Decoded(f, p));
  }

  lemma ResultElems(cc: CtCurve, p: CtPoint, q: CtPoint)
    requires cc.f.Valid()
    ensures PointElem(cc.f, CtAdd(cc, p, q)) && PointElem(cc.f, CtDouble(cc, p))
  {
  }

  lemma ReducedRepresents(P: int, p: PPoint<int>, A: Point)
    requires P > 0
    ensures Represents(P, Map(Reduce(P), p), A) <==> Represents(P, p, A)
  {
    CongMod(p.x, P);
    CongMod(p.y, P);
    CongMod(p.z, P);
    var r := Map(Reduce(P), p);
    CongSym(r.x, p.x, P);
    CongSym(r.y, p.y, P);
    CongSym(r.z, p.z, P);
    if Represents(P, p, A) { RepresentsCong(P, r, p, A); }
    if Represents(P, r, A) { RepresentsCong(P, p, r, A); }
  }

  /** (0:0:0) absorbs every addition. */
  lemma CtAddAbsorbs(cc: CtCurve, p: CtPoint, q: CtPoint)
    requires cc.f.Valid() && PointElem(cc.f, p) && PointElem(cc.f, q)
    requires Collapsed(cc.f, p) || Collapsed(cc.f, q)
    ensures Collapsed(cc.f, CtAdd(cc, p, q))
  {
    hide CtAdd, Dec;
    CtAddDecoded(cc, p, q);
    ResultElems(cc, p, q);
    SumPolyOfZero(Dec(cc.f, cc.a), Dec(cc.f, cc.b3), Decoded(cc.f, p), Decoded(cc.f, q));
    ModReduced(0, cc.f.P());
  }

  lemma SumPolyOfZero(a: int, b3: int, p: PPoint<int>, q: PPoint<int>)
    requires p == PPoint(0, 0, 0) || q == PPoint(0, 0, 0)
    ensures SumPoly(a, b3, p, q) == PPoint(0, 0, 0)
  {
    assert XY(p, q) == 0 && YZ(p, q) == 0;
    assert Tan(a, p, q) == 0 && Mix(a, b3, p, q) == 0;
    assert Minus(a, b3, p, q) == 0 && Plus(a, b3, p, q) == 0;
  }

  /** Doubling keeps it. */
  lemma CtDoubleAbsorbs(cc: CtCurve, p: CtPoint)
    requires cc.f.Valid() && Collapsed(cc.f, p)
    ensures Collapsed(cc.f, CtDouble(cc, p))
  {
    hide CtDouble, Dec;
    CtDoubleDecoded(cc, p);
    ResultElems(cc, p, p);
    assert DoublePoint(Integers, Dec(cc.f, cc.a), Dec(cc.f, cc.b3), PPoint(0, 0, 0)) == PPoint(0, 0, 0);
    ModReduced(0, cc.f.P());
  }

  /** The limb addition stands for A + B exactly when A - B does not have order two; otherwise it
      collapses. */
  lemma CtAddStands(cc: CtCurve, c: Curve, p: CtPoint, q: CtPoint, A: Point, B: Point)
    requires c.Valid() && c.NonSingular() && cc.For(c)
    requires IsOnCurve(c, A) && IsOnCurve(c, B)
    requires Stands(cc.f, p, A) && Stands(cc.f, q, B)
    ensures Stands(cc.f, CtAdd(cc, p, q), Add(c, A, B)) <==> !OrderTwo(Add(c, A, Neg(c, B)))
    ensures OrderTwo(Add(c, A, Neg(c, B))) ==> Collapsed(cc.f, CtAdd(cc, p, q))
  {
    hide Add, Neg, IsOnCurve, AddPoints, SumPoly, Represents, IsPrime;
    var a, b3 := Dec(cc.f, cc.a), Dec(cc.f, cc.b3);
    AddIsComplete(c, a, b3, Decoded(cc.f, p), Decoded(cc.f, q), A, B);
    CtAddDecoded(cc, p, q);
    if OrderTwo(Add(c, A, Neg(c, B))) { ReducedZero(SumPoly(a, b3, Decoded(cc.f, p), Decoded(cc.f, q)), c.P); }
    ReducedRepresents(c.P, SumPoly(a, b3, Decoded(cc.f, p), Decoded(cc.f, q)), Add(c, A, B));
    ResultElems(cc, p, q);
  }

  lemma ReducedZero(p: PPoint<int>, P: int)
    requires P > 0 && CongPoint(p, PPoint(0, 0, 0), P)
    ensures Map(Reduce(P), p) == PPoint(0, 0, 0)
  {
    ModReduced(0, P);
    CongIffModEq(p.x, 0, P);
    CongIffModEq(p.y, 0, P);
    CongIffModEq(p.z, 0, P);
  }

  /** The limb doubling always stands for 2A. */
  lemma CtDoubleStands(cc: CtCurve, c: Curve, p: CtPoint, A: Point)
    requires c.Valid() && c.NonSingular() && cc.For(c) && IsOnCurve(c, A) && Stands(cc.f, p, A)
    ensures Stands(cc.f, CtDouble(cc, p), Double(c, A))
  {
    hide Double, IsOnCurve, DoublePoint, Represents, IsPrime;
    var a, b3 := Dec(cc.f, cc.a), Dec(cc.f, cc.b3);
    DoubleIsComplete(c, a, b3, Decoded(cc.f, p), A);
    CtDoubleDecoded(cc, p);
    ReducedRepresents(c.P, DoublePoint(Integers, a, b3, Decoded(cc.f, p)), Double(c, A));
    ResultElems(cc, p, p);
  }

  // ------------------------------------------------------------ conditional swap

  /** A point held in place, as the ladder's accumulators are. */
  class PointCell {
    var x: Fe
    var y: Fe
    var z: Fe

    constructor (p: CtPoint)
      ensures Value() == p
    {
      x, y, z := p.x, p.y, p.z;
    }

    function Value(): CtPoint reads this { PPoint(x, y, z) }
  }

  /** Exchanges the limbs of a and b below bit, by masked exclusive or. */
  function SwapLimb(mask: Word, a: Word, b: Word): (Word, Word)
  {
    var d := W(And, mask, W(Xor, a, b));
    (W(Xor, a, d), W(Xor, b, d))
  }

  lemma SwapLimbBySelector(mask: Word, a: Word, b: Word)
    requires mask == 0 || mask == B - 1
    ensures SwapLimb(mask, a, b) == if mask == 0 then (a, b) else (b, a)
  {
    WordSize();
    BitwiseBound(Xor, 64, a, b);
    BitwiseMask(64, W(Xor, a, b));
    XorSelf(64, a, b);
    XorSelf(64, b, a);
    XorCommutes(64, a, b);
  }

  lemma {:induction false} XorCommutes(n: nat, a: nat, b: nat)
    ensures Bitwise(Xor, n, a, b) == Bitwise(Xor, n, b, a)
  {
    if n > 0 { XorCommutes(n - 1, a / 2, b / 2); }
  }

  /** Swaps the two points when bit is 1, leaves them when it is 0. */
  method Cswap(n: nat, bit: Word, p: PointCell, q: PointCell)
    requires p != q && bit <= 1
    requires |p.x| == n && |p.y| == n && |p.z| == n && |q.x| == n && |q.y| == n && |q.z| == n
    modifies p, q
    ensures bit == 0 ==> p.Value() == old(p.Value()) && q.Value() == old(q.Value())
    ensures bit == 1 ==> p.Value() == old(q.Value()) && q.Value() == old(p.Value())
  {
    hide Mask, SwapLimb, Swapped;
    var mask := Mask(bit);
    MaskIsAllOnesOrZero(bit);
    ghost var p0, q0 := p.Value(), q.Value();
    NothingSwapped(bit == 1, p0.x, q0.x);
    NothingSwapped(bit == 1, p0.y, q0.y);
    NothingSwapped(bit == 1, p0.z, q0.z);
    for i := 0 to n
      invariant |p.x| == n && |p.y| == n && |p.z| == n && |q.x| == n && |q.y| == n && |q.z| == n
      invariant Swapped(bit == 1, i, p.x, q.x, p0.x, q0.x)
      invariant Swapped(bit == 1, i, p.y, q.y, p0.y, q0.y)
      invariant Swapped(bit == 1, i, p.z, q.z, p0.z, q0.z)
    {
      SwappedNext(mask, bit == 1, i, p.x, q.x, p0.x, q0.x);
      SwappedNext(mask, bit == 1, i, p.y, q.y, p0.y, q0.y);
      SwappedNext(mask, bit == 1, i, p.z, q.z, p0.z, q0.z);
      var (px, qx) := SwapLimb(mask, p.x[i], q.x[i]);
      p.x, q.x := p.x[i := px], q.x[i := qx];
      var (py, qy) := SwapLimb(mask, p.y[i], q.y[i]);
      p.y, q.y := p.y[i := py], q.y[i := qy];
      var (pz, qz) := SwapLimb(mask, p.z[i], q.z[i]);
      p.z, q.z := p.z[i := pz], q.z[i := qz];
    }
    SwappedAll(bit == 1, n, p.x, q.x, p0.x, q0.x);
    SwappedAll(bit == 1, n, p.y, q.y, p0.y, q0.y);
    SwappedAll(bit == 1, n, p.z, q.z, p0.z, q0.z);
  }

  /** The first i limbs of a and b are those of a0 and b0, exchanged when swap is set. */
  ghost predicate Swapped(swap: bool, i: nat, a: Fe, b: Fe, a0: Fe, b0: Fe)
  {
    |a| == |b| == |a0| == |b0| &&
    forall j :: 0 <= j < |a| ==>
      a[j] == (if swap && j < i then b0[j] else a0[j]) && b[j] == (if swap && j < i then a0[j] else b0[j])
  }

  lemma NothingSwapped(swap: bool, a: Fe, b: Fe)
    requires |a| == |b|
    ensures Swapped(swap, 0, a, b, a, b)
  {
  }

  lemma SwappedNext(mask: Word, swap: bool, i: nat, a: Fe, b: Fe, a0: Fe, b0: Fe)
    requires mask == (if swap then B - 1 else 0) && Swapped(swap, i, a, b, a0, b0) && i < |a|
    ensures |a| == |b| && var (x, y) := SwapLimb(mask, a[i], b[i]); Swapped(swap, i + 1, a[i := x], b[i := y], a0, b0)
  {
    SwapLimbBySelector(mask, a[i], b[i]);
    hide SwapLimb;
  }

  lemma SwappedAll(swap: bool, n: nat, a: Fe, b: Fe, a0: Fe, b0: Fe)
    requires Swapped(swap, n, a, b, a0, b0) && |a| == n
    ensures a == (if swap then b0 else a0) && b == (if swap then a0 else b0)
  {
  }
}
