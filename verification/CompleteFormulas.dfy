/** The projective formulas refine the affine reference: for points of the curve in any
    projective representation, add-2015-rcb represents P + Q exactly when P - Q does not
    have order two (where it collapses to (0:0:0)), and dbl-2015-rcb always represents 2P. */
module CompleteFormulas {
  import opened ModArith
  import opened AffineCurve
  import opened ProjectiveCurve

  ghost predicate CongPoint(p: PPoint<int>, q: PPoint<int>, P: int)
    requires P > 0
  {
    Cong(p.x, q.x, P) && Cong(p.y, q.y, P) && Cong(p.z, q.z, P)
  }

  /** The representative with Z = 1, or (0:1:0). */
  ghost function Lift(A: Point): PPoint<int>
  {
    match A
    case Infinity => PPoint(0, 1, 0)
    case Affine(x, y) => PPoint(x, y, 1)
  }

  ghost function Factor(p: PPoint<int>, A: Point): int
  {
    if A.Infinity? then p.y else p.z
  }

  /** p is a nonzero multiple of the representative of A, modulo P. */
  ghost predicate Represents(P: int, p: PPoint<int>, A: Point)
    requires P > 0
  {
    Factor(p, A) % P != 0 && CongPoint(p, Scale(Factor(p, A), Lift(A)), P)
  }

  /** The affine points of order two are those with y = 0. */
  predicate OrderTwo(A: Point) { A.Affine? && A.y == 0 }

  // ------------------------------------------------------- congruence of the sum law

  lemma SumCong(P: int, a: int, a': int, b3: int, b3': int,
                p: PPoint<int>, p': PPoint<int>, q: PPoint<int>, q': PPoint<int>)
    requires P > 0 && Cong(a, a', P) && Cong(b3, b3', P) && CongPoint(p, p', P) && CongPoint(q, q', P)
    ensures CongPoint(SumPoly(a, b3, p, q), SumPoly(a', b3', p', q'), P)
  {
    var h := Reduce(P);
    SumReduced(P, a, b3, p, q);
    SumReduced(P, a', b3', p', q');
    CongIffModEq(a, a', P);
    CongIffModEq(b3, b3', P);
    PointCongIffReduced(P, p, p');
    PointCongIffReduced(P, q, q');
    PointCongIffReduced(P, SumPoly(a, b3, p, q), SumPoly(a', b3', p', q'));
  }

  lemma PointCongIffReduced(P: int, p: PPoint<int>, q: PPoint<int>)
    requires P > 0
    ensures CongPoint(p, q, P) <==> Map(Reduce(P), p) == Map(Reduce(P), q)
  {
    CongIffModEq(p.x, q.x, P);
    CongIffModEq(p.y, q.y, P);
    CongIffModEq(p.z, q.z, P);
  }

  /** Over the residues, the straight-line addition is the reduced closed form. */
  lemma SumReduced(P: int, a: int, b3: int, p: PPoint<int>, q: PPoint<int>)
    requires P > 0
    ensures Map(Reduce(P), SumPoly(a, b3, p, q))
         == AddPoints(ModRing(P), a % P, b3 % P, Map(Reduce(P), p), Map(Reduce(P), q))
  {
    ReduceIsHom(P);
    AddClosedForm(a, b3, p, q);
    AddHom(Integers, ModRing(P), Reduce(P), a, b3, p, q);
  }

  // ---------------------------------------------------------- lines and the sum law

  /** The line of slope l through (x, y) and abscissa x + u. */
  ghost function LineThrough(x: int, u: int, l: int, y: int): Line
  {
    Line(2 * x + u, x * (x + u), l, y - l * x, ThirdX(x, u, l))
  }

  lemma LineCoefficients(x: int, u: int, l: int, y: int)
    ensures var n := LineThrough(x, u, l, y);
            && n.Valid() && n.A() == LineA(x, u, l, y) && n.B3() == 3 * LineB(x, u, l, y)
            && n.Y3() == ThirdY(x, u, l, y) && n.S() == 2 * y + l * u && n.D() == u * u
  {
    var n := LineThrough(x, u, l, y);
    SlopeCoefficient(x, u, l, y, n.c, n.x3, n.sg);
    ChordQuantities(x, u, l, y, n.c, n.sg);
    InterceptCoefficient(x, u, l, y, n.c, n.x3);
    OrdinateOnLine(x, l, y, n.x3);
  }

  lemma OrdinateOnLine(x: int, l: int, y: int, x3: int)
    ensures -(l * x3 + (y - l * x)) == l * (x - x3) - y
  {
  }

  lemma SlopeCoefficient(x: int, u: int, l: int, y: int, c: int, x3: int, sg: int)
    requires c == y - l * x && x3 == l * l - 2 * x - u && sg == 2 * x + u
    ensures x * (x + u) + sg * x3 + 2 * (l * c) == LineA(x, u, l, y)
  {
    var q := l * l;
    assert l * (2 * y + l * u) == 2 * (l * y) + q * u;
    assert sg * x3 == 2 * (q * x) + q * u - sg * sg;
    assert l * c == l * y - q * x by { assert l * (l * x) == q * x; }
    assert sg * sg == 4 * (x * x) + 4 * (x * u) + u * u;
  }

  lemma ChordQuantities(x: int, u: int, l: int, y: int, c: int, sg: int)
    requires c == y - l * x && sg == 2 * x + u
    ensures l * sg + 2 * c == 2 * y + l * u && sg * sg - 4 * (x * (x + u)) == u * u
  {
    assert l * sg == 2 * (l * x) + l * u;
    assert sg * sg == 4 * (x * x) + 4 * (x * u) + u * u;
  }

  lemma InterceptCoefficient(x: int, u: int, l: int, y: int, c: int, x3: int)
    requires c == y - l * x && x3 == l * l - 2 * x - u
    ensures c * c - x * (x + u) * x3 == LineB(x, u, l, y)
  {
    InterceptSquare(x, l, y);
    InterceptProduct(x, u, l * l);
    InterceptTimesA(x, u, l, y);
    assert l * l * x == (l * l) * x;
  }

  lemma InterceptSquare(x: int, l: int, y: int)
    ensures (y - l * x) * (y - l * x) == y * y - 2 * ((l * y) * x) + (l * l) * (x * x)
  {
    assert (l * x) * (l * x) == (l * l) * (x * x);
  }

  lemma InterceptProduct(x: int, u: int, q: int)
    ensures x * (x + u) * (q - 2 * x - u)
         == q * (x * x) + q * (u * x) - 2 * (x * x * x) - 3 * (u * (x * x)) - (u * u) * x
  {
    assert x * (x + u) == x * x + u * x;
    assert (x * x + u * x) * (2 * x + u) == 2 * (x * x * x) + 3 * (u * (x * x)) + (u * u) * x;
  }

  lemma InterceptTimesA(x: int, u: int, l: int, y: int)
    ensures LineA(x, u, l, y) * x
         == 2 * ((l * y) * x) + (l * l) * (u * x) - 3 * (x * x * x) - 3 * (u * (x * x)) - (u * u) * x
  {
    var p, q, r, s, t := 2 * (l * y), (l * l) * u, 3 * (x * x), 3 * (x * u), u * u;
    assert LineA(x, u, l, y) == p + q - r - s - t by { MulAssoc(l, l, u); }
    FiveProducts(p, q, r, s, t, x);
    MulAssoc(l * l, u, x);
    assert s * x == 3 * (u * (x * x)) by { MulAssoc(u, x, x); }
  }

  lemma FiveProducts(p: int, q: int, r: int, s: int, t: int, x: int)
    ensures (p + q - r - s - t) * x == p * x + q * x - r * x - s * x - t * x
  {
  }

  /** The sum of two representatives on a line of the curve. */
  lemma SumOnLine(c: Curve, l: int, p: Point, q: Point)
    requires c.Valid() && p.Affine? && q.Affine?
    requires OnLine(c, p.x, q.x - p.x, l, p.y) && Cong(l * (q.x - p.x), q.y - p.y, c.P)
    ensures var n := LineThrough(p.x, q.x - p.x, l, p.y);
            CongPoint(SumPoly(c.A, 3 * c.B, Lift(p), Lift(q)), Scale(n.Z(), Lift(FromLambda(c, l, p, q))), c.P)
  {
    var P, u := c.P, q.x - p.x;
    var n := LineThrough(p.x, u, l, p.y);
    LineCoefficients(p.x, u, l, p.y);
    var q' := PPoint(q.x, l * q.x + n.c, 1);
    CongRefl(p.y, P);
    CongSym(l * u, q.y - p.y, P);
    CongAdd(p.y, p.y, q.y - p.y, l * u, P);
    assert l * q.x + n.c == p.y + l * u;
    CongRefl(3, P);
    CongMul(3, 3, c.B, LineB(p.x, u, l, p.y), P);
    SumCong(P, c.A, n.A(), 3 * c.B, n.B3(), Lift(p), Lift(p), Lift(q), q');
    LineSum(n, Lift(p), q');
    FromLambdaIsThird(c, l, p, q, u);
    ScaleThird(P, n, FromLambda(c, l, p, q));
    CongPointTrans(P, SumPoly(c.A, 3 * c.B, Lift(p), Lift(q)), SumPoly(n.A(), n.B3(), Lift(p), q'),
                   Scale(n.Z(), Lift(FromLambda(c, l, p, q))));
  }

  lemma ScaleThird(P: int, n: Line, r: Point)
    requires P > 0 && r.Affine? && Cong(r.x, n.x3, P) && Cong(r.y, n.Y3(), P)
    ensures CongPoint(PPoint(n.Z() * n.x3, n.Z() * n.Y3(), n.Z()), Scale(n.Z(), Lift(r)), P)
  {
    CongSym(r.x, n.x3, P);
    CongSym(r.y, n.Y3(), P);
    CongRefl(n.Z(), P);
    CongMul(n.Z(), n.Z(), n.x3, r.x, P);
    CongMul(n.Z(), n.Z(), n.Y3(), r.y, P);
  }

  lemma CongPointTrans(P: int, p: PPoint<int>, q: PPoint<int>, r: PPoint<int>)
    requires P > 0 && CongPoint(p, q, P) && CongPoint(q, r, P)
    ensures CongPoint(p, r, P)
  {
    CongTrans(p.x, q.x, r.x, P);
    CongTrans(p.y, q.y, r.y, P);
    CongTrans(p.z, q.z, r.z, P);
  }

  /** The factor of a chord is u^3 times the ordinate of the difference of its ends. */
  lemma ChordFactor(P: int, x: int, u: int, l: int, y: int, y2: int, m: int, d: Point)
    requires P > 0 && d.Affine?
    requires Cong(l * u, y2 - y, P) && Cong(m * u, -y2 - y, P)
    requires Cong(d.y, ThirdY(x, u, m, y), P)
    ensures Cong(u * u * u * d.y, LineThrough(x, u, l, y).Z(), P)
  {
    var w, s := m * u, 2 * y + l * u;
    CongAdd(l * u, y2 - y, m * u, -y2 - y, P);
    CongRefl(2 * y, P);
    CongAdd(2 * y, 2 * y, l * u + m * u, y2 - y + (-y2 - y), P);
    assert Cong(w, -s, P) by { assert w - (-s) == 2 * y + (l * u + m * u); }
    CongMul(w, -s, w, -s, P);
    var sq := u * u;
    CongRefl(x * sq + (2 * x + u) * sq, P);
    CongAdd(x * sq + (2 * x + u) * sq, x * sq + (2 * x + u) * sq, w * w, (-s) * (-s), P);
    CongMul(w, -s, x * sq + (2 * x + u) * sq - w * w, x * sq + (2 * x + u) * sq - (-s) * (-s), P);
    var e, f := w * (x * sq + (2 * x + u) * sq - w * w), (-s) * (x * sq + (2 * x + u) * sq - (-s) * (-s));
    CongRefl(y * (u * sq), P);
    CongAdd(e, f, y * (u * sq), y * (u * sq), P);
    ChordFactorPolynomial(x, u, l, y, m);
    CongRefl(u * u * u, P);
    CongMul(u * u * u, u * u * u, d.y, ThirdY(x, u, m, y), P);
    CongTrans(u * u * u * d.y, u * u * u * ThirdY(x, u, m, y), f - y * (u * sq), P);
  }

  lemma ChordFactorPolynomial(x: int, u: int, l: int, y: int, m: int)
    ensures var w, s, sq := m * u, 2 * y + l * u, u * u;
            && u * u * u * ThirdY(x, u, m, y) == w * (x * sq + (2 * x + u) * sq - w * w) - y * (u * sq)
            && LineThrough(x, u, l, y).Z() == (-s) * (x * sq + (2 * x + u) * sq - (-s) * (-s)) - y * (u * sq)
  {
    var w, s, sq := m * u, 2 * y + l * u, u * u;
    var n := LineThrough(x, u, l, y);
    LineCoefficients(x, u, l, y);
    assert n.M() == x * s + u * y by { MiddlePiece(x, u, l, y); }
    FactorShape(s, sq, n.sg, x, u, y);
    SlopeShape(x, u, m, y);
  }

  lemma MiddlePiece(x: int, u: int, l: int, y: int)
    ensures 2 * (l * (x * (x + u))) + (y - l * x) * (2 * x + u) == x * (2 * y + l * u) + u * y
  {
  }

  lemma FactorShape(s: int, sq: int, sg: int, x: int, u: int, y: int)
    ensures s * (s * s - sg * sq) - sq * (x * s + u * y) == (-s) * (x * sq + sg * sq - (-s) * (-s)) - y * (u * sq)
  {
    assert (-s) * (-s) == s * s;
  }

  lemma SlopeShape(x: int, u: int, m: int, y: int)
    ensures u * u * u * (m * (x - (m * m - 2 * x - u)) - y)
         == m * u * (x * (u * u) + (2 * x + u) * (u * u) - (m * u) * (m * u)) - y * (u * (u * u))
  {
    var k, sq := 3 * x + u, u * u;
    assert m * (x - (m * m - 2 * x - u)) == m * (k - m * m);
    assert (m * u) * (m * u) == (m * m) * sq;
    assert x * sq + (2 * x + u) * sq == k * sq;
    assert m * u * (k * sq - (m * m) * sq) == (m * (k - m * m)) * (u * sq) by {
      assert k * sq - (m * m) * sq == (k - m * m) * sq;
    }
  }

  // ----------------------------------------------------------------- the five cases

  /** The law applied to the representatives of A and B is a multiple z of the representative
      of A + B, and z vanishes exactly when A - B has order two. */
  lemma LiftSum(c: Curve, A: Point, B: Point) returns (z: int)
    requires c.Valid() && c.NonSingular() && IsOnCurve(c, A) && IsOnCurve(c, B)
    ensures CongPoint(SumPoly(c.A, 3 * c.B, Lift(A), Lift(B)), Scale(z, Lift(Add(c, A, B))), c.P)
    ensures z % c.P == 0 <==> OrderTwo(Add(c, A, Neg(c, B)))
  {
    var P := c.P;
    if A.Infinity? || B.Infinity? {
      var C := if A.Infinity? then B else A;
      z := Lift(C).y;
      IdentitySum(c.A, 3 * c.B, Lift(C));
      SumCommutes(c.A, 3 * c.B, Lift(A), Lift(B));
      CongPointRefl(P, Scale(z, Lift(C)));
      ModReduced(z, P);
      if C.Affine? { NegatedResidue(C.y, C.y, P); }
    } else if A.x != B.x {
      z := ChordCase(c, A, B);
    } else {
      EqualX(c, A, B);
      AddNeg(c, A);
      NegTwice(c, A);
      DoubleIsAdd(c, A);
      if B != Neg(c, A) {
        z := TangentCase(c, A);
      } else if A.y != 0 {
        z := OppositeCase(c, A);
      } else {
        z := TwoTorsionCase(c, A);
      }
    }
  }

  lemma CongPointRefl(P: int, p: PPoint<int>)
    requires P > 0
    ensures CongPoint(p, p, P)
  {
    CongRefl(p.x, P);
    CongRefl(p.y, P);
    CongRefl(p.z, P);
  }

  lemma ChordCase(c: Curve, A: Point, B: Point) returns (z: int)
    requires c.Valid() && IsOnCurve(c, A) && IsOnCurve(c, B)
    requires A.Affine? && B.Affine? && A.x != B.x
    ensures CongPoint(SumPoly(c.A, 3 * c.B, Lift(A), Lift(B)), Scale(z, Lift(Add(c, A, B))), c.P)
    ensures z % c.P == 0 <==> OrderTwo(Add(c, A, Neg(c, B)))
  {
    var P, u, B' := c.P, B.x - A.x, Neg(c, B);
    ChordDenominator(c, A, B);
    var l := (B.y - A.y) % P * ModInverse(u % P, P).value % P;
    var m := (B'.y - A.y) % P * ModInverse(u % P, P).value % P;
    ChordOnCurve(c, A, B, l);
    ChordOnCurve(c, A, B', m);
    SumOnLine(c, l, A, B);
    z := LineThrough(A.x, u, l, A.y).Z();
    var D := FromLambda(c, m, A, B');
    FromLambdaIsThird(c, m, A, B', u);
    CongMod(-B.y, P);
    CongRefl(A.y, P);
    CongAdd(B'.y, -B.y, A.y, A.y, P);
    CongTrans(m * u, B'.y - A.y, -B.y - A.y, P);
    ChordFactor(P, A.x, u, l, A.y, B.y, m, D);
    CubeTimes(P, u, D.y, z);
  }

  lemma CubeTimes(P: int, u: int, y: int, z: int)
    requires IsPrime(P) && u % P != 0 && 0 <= y < P && Cong(u * u * u * y, z, P)
    ensures z % P == 0 <==> y == 0
  {
    CongIffModEq(u * u * u * y, z, P);
    NonzeroProduct(u, u, P);
    NonzeroProduct(u * u, u, P);
    if y == 0 {
      ModReduced(0, P);
      assert u * u * u * y == 0;
    } else {
      ModReduced(y, P);
      NonzeroProduct(u * u * u, y, P);
    }
  }

  /** The tangent slope the source computes at a point with y != 0. */
  lemma TangentSlope(c: Curve, A: Point) returns (l: int)
    requires c.Valid() && IsOnCurve(c, A) && A.Affine? && A.y != 0
    ensures OnLine(c, A.x, 0, l, A.y) && Double(c, A) == FromLambda(c, l, A, A)
  {
    hide IsPrime, IsOnCurve, OnLine, FromLambda;
    TangentDenominator(c, A);
    l := (3 * (A.x * A.x) + c.A) % c.P * ModInverse(2 * A.y % c.P, c.P).value % c.P;
    TangentOnCurve(c, A, l);
  }

  lemma TangentFactor(x: int, l: int, y: int)
    ensures var n := LineThrough(x, 0, l, y); n.Z() == 8 * (y * (y * y))
  {
    var n := LineThrough(x, 0, l, y);
    LineCoefficients(x, 0, l, y);
    assert l * 0 == 0;
    CubeOfDouble(n.S(), n.D(), n.M(), n.sg, y);
  }

  lemma CubeOfDouble(s: int, d: int, m: int, sg: int, y: int)
    requires s == 2 * y && d == 0
    ensures s * (s * s - sg * d) - d * m == 8 * (y * (y * y))
  {
    assert sg * d == 0 && d * m == 0;
    assert s * s == 4 * (y * y);
  }

  lemma EightCubes(P: int, y: int, t: int)
    requires IsPrime(P) && P > 3 && 0 < y < P
    ensures (8 * (y * (y * y)) * t) % P == 0 <==> t % P == 0
  {
    ModReduced(2, P);
    ModReduced(y, P);
    NonzeroProduct(2, 2, P);
    NonzeroProduct(4, 2, P);
    NonzeroProduct(y, y, P);
    NonzeroProduct(y, y * y, P);
    NonzeroProduct(8, y * (y * y), P);
    if t % P == 0 {
      Multiple(P, t, 8 * (y * (y * y)));
    } else {
      NonzeroProduct(8 * (y * (y * y)), t, P);
    }
  }

  lemma TangentCase(c: Curve, A: Point) returns (z: int)
    requires c.Valid() && IsOnCurve(c, A) && A.Affine? && A.y != 0
    ensures CongPoint(SumPoly(c.A, 3 * c.B, Lift(A), Lift(A)), Scale(z, Lift(Double(c, A))), c.P)
    ensures z == 8 * (A.y * (A.y * A.y)) && z % c.P != 0
  {
    var l := TangentSlope(c, A);
    assert l * (A.x - A.x) == 0;
    CongRefl(0, c.P);
    SumOnLine(c, l, A, A);
    TangentFactor(A.x, l, A.y);
    z := 8 * (A.y * (A.y * A.y));
    EightCubes(c.P, A.y, 1);
    ModReduced(1, c.P);
  }

  lemma OppositeCase(c: Curve, A: Point) returns (z: int)
    requires c.Valid() && IsOnCurve(c, A) && A.Affine? && A.y != 0
    ensures CongPoint(SumPoly(c.A, 3 * c.B, Lift(A), Lift(Neg(c, A))), Scale(z, Lift(Infinity)), c.P)
    ensures z % c.P == 0 <==> OrderTwo(Double(c, A))
  {
    var P := c.P;
    var l := TangentSlope(c, A);
    var n := LineThrough(A.x, 0, l, A.y);
    LineCoefficients(A.x, 0, l, A.y);
    var q' := PPoint(A.x, -A.y, 1);
    CongMod(-A.y, P);
    CongRefl(3, P);
    CongMul(3, 3, c.B, LineB(A.x, 0, l, A.y), P);
    CongPointRefl(P, Lift(A));
    SumCong(P, c.A, n.A(), 3 * c.B, n.B3(), Lift(A), Lift(A), Lift(Neg(c, A)), q');
    OppositeSum(n, A.x, A.y);
    z := 8 * (A.y * (A.y * A.y)) * n.Y3();
    EightCubes(P, A.y, n.Y3());
    FromLambdaIsThird(c, l, A, A, 0);
    CongIffModEq(Double(c, A).y, n.Y3(), P);
    ModReduced(Double(c, A).y, P);
  }

  lemma TwoTorsionCase(c: Curve, A: Point) returns (z: int)
    requires c.Valid() && c.NonSingular() && IsOnCurve(c, A) && A.Affine? && A.y == 0
    ensures CongPoint(SumPoly(c.A, 3 * c.B, Lift(A), Lift(A)), Scale(z, Lift(Infinity)), c.P)
    ensures z % c.P != 0
  {
    var P, x := c.P, A.x;
    var b, t := -(x * (x * x)) - c.A * x, 3 * (x * x) + c.A;
    OnCurveCong(c, x, 0);
    CongSym(Weierstrass(c.A, c.B, x, 0), 0, P);
    CongRefl(b, P);
    CongAdd(b, b, 0, Weierstrass(c.A, c.B, x, 0), P);
    assert b - Weierstrass(c.A, c.B, x, 0) == c.B;
    CongSym(b - 0, c.B, P);
    CongRefl(3, P);
    CongMul(3, 3, c.B, b, P);
    CongRefl(c.A, P);
    CongPointRefl(P, Lift(A));
    SumCong(P, c.A, c.A, 3 * c.B, 3 * b, Lift(A), Lift(A), Lift(A), Lift(A));
    TwoTorsionSum(c.A, x);
    z := -(t * t * t);
    TangentNonzero(c, x, b);
    NonzeroProduct(t, t, P);
    NonzeroProduct(t * t, t, P);
    if z % P == 0 { Multiple(P, z, -1); }
  }

  /** On a nonsingular curve the derivative does not vanish at a point with y = 0. */
  lemma TangentNonzero(c: Curve, x: int, b: int)
    requires c.Valid() && c.NonSingular() && Cong(c.B, b, c.P) && b == -(x * (x * x)) - c.A * x
    ensures (3 * (x * x) + c.A) % c.P != 0
  {
    var P, a, t := c.P, c.A, 3 * (x * x) + c.A;
    if t % P == 0 {
      CongMul(c.B, b, c.B, b, P);
      CongRefl(27, P);
      CongMul(27, 27, c.B * c.B, b * b, P);
      CongRefl(4 * a * a * a, P);
      CongAdd(4 * a * a * a, 4 * a * a * a, 27 * (c.B * c.B), 27 * (b * b), P);
      Discriminant(a, x, b, t);
      Multiple(P, t, 4 * (a * a) + 3 * (x * x) * (3 * (x * x) + 5 * a));
      assert 4 * a * a * a + 27 * c.B * c.B == 4 * a * a * a + 27 * (c.B * c.B);
      CongTrans(4 * a * a * a + 27 * (c.B * c.B), 4 * a * a * a + 27 * (b * b), 0, P);
    }
  }

  lemma Discriminant(a: int, x: int, b: int, t: int)
    requires t == 3 * (x * x) + a && b == -(x * (x * x)) - a * x
    ensures 4 * a * a * a + 27 * (b * b) == (4 * (a * a) + 3 * (x * x) * (3 * (x * x) + 5 * a)) * t
  {
    var s := x * x;
    assert b == -(x * (s + a));
    assert b * b == s * ((s + a) * (s + a)) by { assert (x * (s + a)) * (x * (s + a)) == (x * x) * ((s + a) * (s + a)); }
    DiscriminantSquare(s, a);
    DiscriminantProduct(s, a);
    assert 3 * s * (3 * s + 5 * a) == 9 * (s * s) + 15 * (a * s);
  }

  lemma DiscriminantSquare(s: int, a: int)
    ensures s * ((s + a) * (s + a)) == s * (s * s) + 2 * (a * (s * s)) + (a * a) * s
  {
    assert (s + a) * (s + a) == s * s + 2 * (a * s) + a * a;
  }

  lemma DiscriminantProduct(s: int, a: int)
    ensures (4 * (a * a) + 9 * (s * s) + 15 * (a * s)) * (3 * s + a)
         == 27 * ((a * a) * s) + 4 * (a * (a * a)) + 27 * (s * (s * s)) + 54 * (a * (s * s))
  {
    assert (4 * (a * a)) * (3 * s + a) == 12 * ((a * a) * s) + 4 * (a * (a * a));
    assert (9 * (s * s)) * (3 * s + a) == 27 * (s * (s * s)) + 9 * (a * (s * s));
    assert (15 * (a * s)) * (3 * s + a) == 45 * (a * (s * s)) + 15 * ((a * a) * s);
  }

  // ------------------------------------------------------------------ the theorems

  /** add-2015-rcb on any representatives: it represents A + B if and only if A - B does not
      have order two, and otherwise returns (0:0:0). */
  lemma AddIsComplete(c: Curve, a: int, b3: int, p: PPoint<int>, q: PPoint<int>, A: Point, B: Point)
    requires c.Valid() && c.NonSingular() && Cong(a, c.A, c.P) && Cong(b3, 3 * c.B, c.P)
    requires IsOnCurve(c, A) && IsOnCurve(c, B)
    requires Represents(c.P, p, A) && Represents(c.P, q, B)
    ensures Represents(c.P, SumPoly(a, b3, p, q), Add(c, A, B)) <==> !OrderTwo(Add(c, A, Neg(c, B)))
    ensures OrderTwo(Add(c, A, Neg(c, B))) ==> CongPoint(SumPoly(a, b3, p, q), PPoint(0, 0, 0), c.P)
  {
    var P, k, m := c.P, Factor(p, A), Factor(q, B);
    var z := LiftSum(c, A, B);
    var r, S := SumPoly(a, b3, p, q), Add(c, A, B);
    SumCong(P, a, c.A, b3, 3 * c.B, p, Scale(k, Lift(A)), q, Scale(m, Lift(B)));
    ScaledSum(c.A, 3 * c.B, k, Lift(A), m, Lift(B));
    NonzeroProduct(k, m, P);
    NonzeroProduct(k * m, k * m, P);
    var w := (k * m) * (k * m);
    ScaleCong(P, w, SumPoly(c.A, 3 * c.B, Lift(A), Lift(B)), Scale(z, Lift(S)));
    CongPointTrans(P, r, Scale(w, SumPoly(c.A, 3 * c.B, Lift(A), Lift(B))), Scale(w, Scale(z, Lift(S))));
    ScaleTwice(w, z, Lift(S));
    MultipleRepresents(P, r, w, z, S);
  }

  lemma ScaleCong(P: int, w: int, p: PPoint<int>, q: PPoint<int>)
    requires P > 0 && CongPoint(p, q, P)
    ensures CongPoint(Scale(w, p), Scale(w, q), P)
  {
    CongRefl(w, P);
    CongMul(w, w, p.x, q.x, P);
    CongMul(w, w, p.y, q.y, P);
    CongMul(w, w, p.z, q.z, P);
  }

  lemma ScaleTwice(w: int, z: int, p: PPoint<int>)
    ensures Scale(w, Scale(z, p)) == Scale(w * z, p)
  {
    MulAssoc(w, z, p.x);
    MulAssoc(w, z, p.y);
    MulAssoc(w, z, p.z);
  }

  /** A multiple of the representative of S represents S exactly when the factor is nonzero. */
  lemma MultipleRepresents(P: int, r: PPoint<int>, w: int, z: int, S: Point)
    requires IsPrime(P) && w % P != 0 && CongPoint(r, Scale(w * z, Lift(S)), P)
    ensures Represents(P, r, S) <==> z % P != 0
    ensures z % P == 0 ==> CongPoint(r, PPoint(0, 0, 0), P)
  {
    var f := Factor(r, S);
    CongIffModEq(f, w * z, P);
    if z % P == 0 {
      Multiple(P, z, w);
      CongMul(w * z, 0, Lift(S).x, Lift(S).x, P);
      CongMul(w * z, 0, Lift(S).y, Lift(S).y, P);
      CongPointTrans(P, r, Scale(w * z, Lift(S)), PPoint(0, 0, 0));
    } else {
      NonzeroProduct(w, z, P);
      CongSym(f, w * z, P);
      CongMul(w * z, f, Lift(S).x, Lift(S).x, P);
      CongMul(w * z, f, Lift(S).y, Lift(S).y, P);
      CongPointTrans(P, r, Scale(w * z, Lift(S)), Scale(f, Lift(S)));
    }
  }

  /** The homogeneous curve equation. */
  ghost function Homogeneous(a: int, b: int, p: PPoint<int>): int
  {
    p.y * (p.y * p.z) - (p.x * (p.x * p.x) + a * (p.x * (p.z * p.z)) + b * (p.z * (p.z * p.z)))
  }

  /** On the curve dbl-2015-rcb agrees with add-2015-rcb of a point with itself, coordinate by
      coordinate; the Z coordinates agree by the curve equation. */
  lemma DoubleIsSelfSum(c: Curve, a: int, b3: int, p: PPoint<int>)
    requires c.P > 0
    requires Cong(Homogeneous(a, c.B, p), 0, c.P) && Cong(b3, 3 * c.B, c.P)
    ensures CongPoint(DoublePoint(Integers, a, b3, p), AddPoints(Integers, a, b3, p, p), c.P)
  {
    hide DoublePoint, AddPoints, SumPoly, Homogeneous;
    var P, d, s := c.P, DoublePoint(Integers, a, b3, p), SumPoly(a, b3, p, p);
    DoubleClosedForm(a, b3, p);
    AddClosedForm(a, b3, p, p);
    CongRefl(s.x, P);
    CongRefl(s.y, P);
    SelfSumZ(a, b3, c.B, p);
    Combine(P, Homogeneous(a, c.B, p), 6 * p.y, b3 - 3 * c.B, -2 * (p.y * (p.z * (p.z * p.z))), d.z - s.z);
  }

  lemma SelfSumZ(a: int, b3: int, b: int, p: PPoint<int>)
    ensures 8 * (p.y * p.z * (p.y * p.y)) - SumPoly(a, b3, p, p).z
         == 6 * p.y * Homogeneous(a, b, p) + -2 * (p.y * (p.z * (p.z * p.z))) * (b3 - 3 * b)
  {
    var x, y, z := p.x, p.y, p.z;
    assert XY(p, p) == 2 * (x * y) && YZ(p, p) == 2 * (y * z) && XZ(p, p) == 2 * (x * z);
    var yyz, xxx, axzz, zzz := y * (y * z), x * (x * x), a * (x * (z * z)), z * (z * z);
    SelfSumPlus(x, y, z, a, b3);
    SelfSumTan(x, z, a);
    SelfSumProduct(x, y, z, Plus(a, b3, p, p), Tan(a, p, p));
    SelfSumLinear(y, yyz, xxx, axzz, zzz, b3, b);
  }

  lemma SelfSumProduct(x: int, y: int, z: int, plus: int, tan: int)
    ensures 2 * (y * z) * plus + 2 * (x * y) * tan == 2 * (y * (z * plus)) + 2 * (y * (x * tan))
    ensures y * z * (y * y) == y * (y * (y * z))
  {
  }

  lemma SelfSumPlus(x: int, y: int, z: int, a: int, b3: int)
    ensures z * (y * y + (b3 * (z * z) + a * (2 * (x * z)))) == y * (y * z) + b3 * (z * (z * z)) + 2 * (a * (x * (z * z)))
  {
  }

  lemma SelfSumTan(x: int, z: int, a: int)
    ensures x * (3 * (x * x) + a * (z * z)) == 3 * (x * (x * x)) + a * (x * (z * z))
  {
  }

  lemma SelfSumLinear(y: int, yyz: int, xxx: int, axzz: int, zzz: int, b3: int, b: int)
    ensures 8 * (y * yyz) - (2 * (y * (yyz + b3 * zzz + 2 * axzz)) + 2 * (y * (3 * xxx + axzz)))
         == 6 * y * (yyz - (xxx + axzz + b * zzz)) + -2 * (y * zzz) * (b3 - 3 * b)
  {
  }

  /** A representative satisfies the homogeneous curve equation. */
  lemma RepresentativeOnCurve(c: Curve, a: int, p: PPoint<int>, A: Point)
    requires c.Valid() && IsOnCurve(c, A) && Cong(a, c.A, c.P) && Represents(c.P, p, A)
    ensures Cong(Homogeneous(a, c.B, p), 0, c.P)
  {
    var P, k := c.P, Factor(p, A);
    var q := Scale(k, Lift(A));
    HomogeneousCong(P, a, c.A, c.B, p, q);
    if A.Affine? {
      OnCurveCong(c, A.x, A.y);
      CongRefl(k * (k * k), P);
      CongMul(k * (k * k), k * (k * k), Weierstrass(c.A, c.B, A.x, A.y), 0, P);
      HomogeneousScaled(k, A.x, A.y, c.A, c.B);
      CongTrans(Homogeneous(a, c.B, p), Homogeneous(c.A, c.B, q), 0, P);
    } else {
      assert Homogeneous(c.A, c.B, q) == 0;
    }
  }

  lemma HomogeneousCong(P: int, a: int, a': int, b: int, p: PPoint<int>, q: PPoint<int>)
    requires P > 0 && Cong(a, a', P) && CongPoint(p, q, P)
    ensures Cong(Homogeneous(a, b, p), Homogeneous(a', b, q), P)
  {
    CongMul(p.y, q.y, p.z, q.z, P);
    CongMul(p.y, q.y, p.y * p.z, q.y * q.z, P);
    CongMul(p.x, q.x, p.x, q.x, P);
    CongMul(p.x, q.x, p.x * p.x, q.x * q.x, P);
    CongMul(p.z, q.z, p.z, q.z, P);
    CongMul(p.x, q.x, p.z * p.z, q.z * q.z, P);
    CongMul(a, a', p.x * (p.z * p.z), q.x * (q.z * q.z), P);
    CongMul(p.z, q.z, p.z * p.z, q.z * q.z, P);
    CongRefl(b, P);
    CongMul(b, b, p.z * (p.z * p.z), q.z * (q.z * q.z), P);
    CongAdd(p.x * (p.x * p.x), q.x * (q.x * q.x), a * (p.x * (p.z * p.z)), a' * (q.x * (q.z * q.z)), P);
    CongAdd(p.x * (p.x * p.x) + a * (p.x * (p.z * p.z)), q.x * (q.x * q.x) + a' * (q.x * (q.z * q.z)),
            b * (p.z * (p.z * p.z)), b * (q.z * (q.z * q.z)), P);
    CongAdd(p.y * (p.y * p.z), q.y * (q.y * q.z),
            p.x * (p.x * p.x) + a * (p.x * (p.z * p.z)) + b * (p.z * (p.z * p.z)),
            q.x * (q.x * q.x) + a' * (q.x * (q.z * q.z)) + b * (q.z * (q.z * q.z)), P);
  }

  lemma HomogeneousScaled(k: int, x: int, y: int, a: int, b: int)
    ensures Homogeneous(a, b, PPoint(k * x, k * y, k * 1)) == k * (k * k) * Weierstrass(a, b, x, y)
  {
    var w := k * (k * k);
    CubicScaled(k, y, y, 1);
    CubicScaled(k, x, x, x);
    CubicScaled(k, x, 1, 1);
    CubicScaled(k, 1, 1, 1);
    assert a * (w * x) == w * (a * x) && b * w == w * b;
    assert w * (y * y) - (w * (x * (x * x)) + w * (a * x) + w * b) == w * (y * y - x * (x * x) - a * x - b);
    assert x * (x * x) == x * x * x;
  }

  lemma CubicScaled(k: int, x: int, y: int, z: int)
    ensures (k * x) * ((k * y) * (k * z)) == k * (k * k) * (x * (y * z))
  {
    ScaledProduct(k, y, k, z);
    ScaledProduct(k, x, k * k, y * z);
  }

  /** dbl-2015-rcb represents 2A from any representative of any point of the curve. */
  lemma DoubleIsComplete(c: Curve, a: int, b3: int, p: PPoint<int>, A: Point)
    requires c.Valid() && c.NonSingular() && Cong(a, c.A, c.P) && Cong(b3, 3 * c.B, c.P)
    requires IsOnCurve(c, A) && Represents(c.P, p, A)
    ensures Represents(c.P, DoublePoint(Integers, a, b3, p), Double(c, A))
  {
    RepresentativeOnCurve(c, a, p, A);
    DoubleIsSelfSum(c, a, b3, p);
    AddClosedForm(a, b3, p, p);
    AddNeg(c, A);
    DoubleIsAdd(c, A);
    AddIsComplete(c, a, b3, p, p, A, A);
    RepresentsCong(c.P, DoublePoint(Integers, a, b3, p), SumPoly(a, b3, p, p), Double(c, A));
  }

  lemma RepresentsCong(P: int, p: PPoint<int>, q: PPoint<int>, A: Point)
    requires P > 0 && CongPoint(p, q, P) && Represents(P, q, A)
    ensures Represents(P, p, A)
  {
    CongIffModEq(Factor(p, A), Factor(q, A), P);
    CongSym(Factor(p, A), Factor(q, A), P);
    CongMul(Factor(q, A), Factor(p, A), Lift(A).x, Lift(A).x, P);
    CongMul(Factor(q, A), Factor(p, A), Lift(A).y, Lift(A).y, P);
    CongMul(Factor(q, A), Factor(p, A), Lift(A).z, Lift(A).z, P);
    CongPointTrans(P, p, q, Scale(Factor(q, A), Lift(A)));
    CongPointTrans(P, p, Scale(Factor(q, A), Lift(A)), Scale(Factor(p, A), Lift(A)));
  }
}
