/** The affine short-Weierstrass reference of curves.go: y^2 = x^3 + A*x + B over GF(P). */
module AffineCurve {
  import opened ModArith

  /** The point at infinity is the group identity. */
  datatype Point = Infinity | Affine(x: int, y: int)

  datatype Curve = Curve(P: int, A: int, B: int, Q: int, X: int, Y: int, cofactor: int, constantTime: bool) {
    ghost predicate Valid() { IsPrime(P) && P > 3 }

    /** The discriminant does not vanish: no singular point. */
    ghost predicate NonSingular() requires P > 0 { (4 * A * A * A + 27 * B * B) % P != 0 }

    function Base(): Point { Affine(X, Y) }
  }

  predicate IsOnCurve(c: Curve, p: Point)
    requires c.P > 0
  {
    match p
    case Infinity => true
    case Affine(x, y) =>
      && 0 <= x < c.P && 0 <= y < c.P
      && y * y % c.P == (x * x % c.P * x + c.A * x + c.B) % c.P
  }

  /** x3 = lambda^2 - p.x - q.x, y3 = lambda*(p.x - x3) - p.y. */
  function FromLambda(c: Curve, lambda: int, p: Point, q: Point): (r: Point)
    requires c.P > 0 && p.Affine? && q.Affine?
  {
    var x3 := (lambda * lambda - p.x - q.x) % c.P;
    var y3 := ((p.x - x3) * lambda - p.y) % c.P;
    Affine(x3, y3)
  }

  function Double(c: Curve, p: Point): (r: Point)
    requires c.Valid() && IsOnCurve(c, p)
    ensures IsOnCurve(c, r)
  {
    if p.Infinity? || p.y == 0 then Infinity
    else
      TangentDenominator(c, p);
      var num := (3 * (p.x * p.x) + c.A) % c.P;
      var den := ModInverse(2 * p.y % c.P, c.P).value;
      var lambda := num * den % c.P;
      TangentOnCurve(c, p, lambda);
      FromLambda(c, lambda, p, p)
  }

  function Add(c: Curve, p: Point, q: Point): (r: Point)
    requires c.Valid() && IsOnCurve(c, p) && IsOnCurve(c, q)
    ensures IsOnCurve(c, r)
  {
    if p.Infinity? then q
    else if q.Infinity? then p
    else if p.x == q.x then
      if (p.y + q.y) % c.P == 0 then Infinity else Double(c, p)
    else
      ChordDenominator(c, p, q);
      var num := (q.y - p.y) % c.P;
      var den := ModInverse((q.x - p.x) % c.P, c.P).value;
      var lambda := num * den % c.P;
      ChordOnCurve(c, p, q, lambda);
      FromLambda(c, lambda, p, q)
  }

  /** The inverse point. */
  function Neg(c: Curve, p: Point): (r: Point)
    requires c.P > 0
    ensures c.Valid() && IsOnCurve(c, p) ==> IsOnCurve(c, r)
  {
    if p.Infinity? then p
    else
      NegatedOnCurve(c, p.x, p.y);
      Affine(p.x, (-p.y) % c.P)
  }

  // ------------------------------------------------------- denominators exist

  lemma TangentDenominator(c: Curve, p: Point)
    requires c.Valid() && IsOnCurve(c, p) && p.Affine? && p.y != 0
    ensures (2 * p.y) % c.P != 0
    ensures ModInverse(2 * p.y % c.P, c.P).Some?
  {
    ModReduced(2, c.P);
    ModReduced(p.y, c.P);
    NonzeroProduct(2, p.y, c.P);
    DivMod(2 * p.y, c.P);
    ModReduced(2 * p.y % c.P, c.P);
    PrimeInverse(2 * p.y % c.P, c.P);
  }

  lemma ChordDenominator(c: Curve, p: Point, q: Point)
    requires c.Valid() && IsOnCurve(c, p) && IsOnCurve(c, q) && p.Affine? && q.Affine? && p.x != q.x
    ensures (q.x - p.x) % c.P != 0
    ensures ModInverse((q.x - p.x) % c.P, c.P).Some?
  {
    if (q.x - p.x) % c.P == 0 { CongReduced(q.x, p.x, c.P); }
    DivMod(q.x - p.x, c.P);
    ModReduced((q.x - p.x) % c.P, c.P);
    PrimeInverse((q.x - p.x) % c.P, c.P);
  }

  /** The slope times the denominator is the numerator. */
  lemma SlopeTimesDenominator(num: int, den: int, P: int)
    requires IsPrime(P) && ModInverse(den % P, P).Some?
    ensures Cong(num % P * ModInverse(den % P, P).value % P * den, num, P)
  {
    var v := ModInverse(den % P, P).value;
    var l := num % P * v % P;
    ModReduced(1, P);
    CongIffModEq(den % P * v, 1, P);
    CongMod(num, P);
    CongMod(den, P);
    CongSym(den % P, den, P);
    CongMod(num % P * v, P);
    CongMul(l, num % P * v, den, den % P, P);
    CongMul(num % P, num, den % P * v, 1, P);
    assert num % P * v * (den % P) == num % P * (den % P * v) by {
      MulAssoc(num % P, v, den % P);
      assert v * (den % P) == den % P * v;
    }
    CongTrans(l * den, num % P * v * (den % P), num * 1, P);
  }

  // ------------------------------------------- lines through a point of the curve

  /** The curve coefficients forced by a line of slope l through (x, y) and (x + u, y + l*u). */
  ghost function LineA(x: int, u: int, l: int, y: int): int
  {
    l * (2 * y + l * u) - 3 * x * x - 3 * x * u - u * u
  }

  ghost function LineB(x: int, u: int, l: int, y: int): int
  {
    y * y - x * x * x - LineA(x, u, l, y) * x
  }

  ghost function ThirdX(x: int, u: int, l: int): int { l * l - 2 * x - u }

  ghost function ThirdY(x: int, u: int, l: int, y: int): int { l * (x - ThirdX(x, u, l)) - y }

  ghost function Weierstrass(a: int, b: int, x: int, y: int): int { y * y - x * x * x - a * x - b }

  lemma ChordDifference(A: int, B: int, x: int, u: int, l: int, y: int)
    ensures Weierstrass(A, B, x, y) - Weierstrass(A, B, x + u, y + l * u) == u * (A - LineA(x, u, l, y))
  {
    var w := l * u;
    SquareDifference(y, w);
    CubeDifference(x, u);
    assert w * (2 * y + w) == u * (l * (2 * y + w)) by { MulAssoc(u, l, 2 * y + w); }
    assert A * (x + u) == A * x + u * A;
    assert u * (A - l * (2 * y + w) + (3 * x * x + 3 * x * u + u * u))
        == u * A - u * (l * (2 * y + w)) + u * (3 * x * x + 3 * x * u + u * u);
  }

  lemma SquareDifference(y: int, w: int)
    ensures (y + w) * (y + w) - y * y == w * (2 * y + w)
  {
  }

  lemma CubeDifference(x: int, u: int)
    ensures (x + u) * (x + u) * (x + u) - x * x * x == u * (3 * x * x + 3 * x * u + u * u)
  {
    var s := (x + u) * (x + u);
    assert s == x * x + 2 * (x * u) + u * u;
    assert s * x == x * x * x + 2 * (x * x * u) + x * u * u;
    assert s * u == x * x * u + 2 * (x * u * u) + u * u * u;
    assert u * (3 * x * x + 3 * x * u + u * u) == 3 * (x * x * u) + 3 * (x * u * u) + u * u * u;
  }

  /** The third intersection, reflected, lies on the curve the line determines. */
  lemma ThirdPointOnCurve(x: int, u: int, l: int, y: int)
    ensures Weierstrass(LineA(x, u, l, y), LineB(x, u, l, y), ThirdX(x, u, l), ThirdY(x, u, l, y)) == 0
  {
    var d := ThirdX(x, u, l) - x;
    var A, B := LineA(x, u, l, y), LineB(x, u, l, y);
    SameLineCoefficient(x, u, l, y, d);
    ChordDifference(A, B, x, d, l, y);
    assert Weierstrass(A, B, x, y) == 0;
    hide LineA, LineB;
    var z := y + l * d;
    assert ThirdY(x, u, l, y) == -z by { ReflectedOrdinate(x, l, y, d); }
    SameSquare(z);
  }

  lemma ReflectedOrdinate(x: int, l: int, y: int, d: int)
    ensures l * (x - (x + d)) - y == -(y + l * d)
  {
  }

  lemma SameSquare(z: int)
    ensures (-z) * (-z) == z * z
  {
  }

  lemma SameLineCoefficient(x: int, u: int, l: int, y: int, d: int)
    requires d == l * l - 3 * x - u
    ensures LineA(x, u, l, y) == LineA(x, d, l, y)
  {
    assert LineA(x, d, l, y) - LineA(x, u, l, y) == (d - u) * (l * l - 3 * x - (d + u));
  }

  /** The defining congruence of the curve. */
  lemma OnCurveCong(c: Curve, x: int, y: int)
    requires c.P > 0 && 0 <= x < c.P && 0 <= y < c.P
    ensures IsOnCurve(c, Affine(x, y)) <==> Cong(Weierstrass(c.A, c.B, x, y), 0, c.P)
  {
    var P := c.P;
    CongMod(x * x, P);
    CongMul(x * x % P, x * x, x, x, P);
    CongRefl(c.A * x + c.B, P);
    CongAdd(x * x % P * x, x * x * x, c.A * x + c.B, c.A * x + c.B, P);
    CongIffModEq(x * x % P * x + c.A * x + c.B, x * x * x + c.A * x + c.B, P);
    CongIffModEq(y * y, x * x * x + c.A * x + c.B, P);
    assert Weierstrass(c.A, c.B, x, y) - 0 == y * y - (x * x * x + c.A * x + c.B);
  }

  /** The curve's own coefficients agree with those of the line. */
  ghost predicate OnLine(c: Curve, x: int, u: int, l: int, y: int)
    requires c.P > 0
  {
    Cong(c.A, LineA(x, u, l, y), c.P) && Cong(c.B, LineB(x, u, l, y), c.P)
  }

  lemma WeierstrassCong(P: int, a: int, a': int, b: int, b': int, x: int, x': int, y: int, y': int)
    requires P > 0 && Cong(a, a', P) && Cong(b, b', P) && Cong(x, x', P) && Cong(y, y', P)
    ensures Cong(Weierstrass(a, b, x, y), Weierstrass(a', b', x', y'), P)
  {
    CongMul(y, y', y, y', P);
    CongMul(x, x', x, x', P);
    CongMul(x * x, x' * x', x, x', P);
    CongMul(a, a', x, x', P);
    CongAdd(y * y, y' * y', x * x * x, x' * x' * x', P);
    CongAdd(y * y - x * x * x, y' * y' - x' * x' * x', a * x, a' * x', P);
    CongAdd(y * y - x * x * x - a * x, y' * y' - x' * x' * x' - a' * x', b, b', P);
  }

  /** The point a slope yields is the reduced third intersection. */
  lemma FromLambdaIsThird(c: Curve, l: int, p: Point, q: Point, u: int)
    requires c.P > 0 && p.Affine? && q.Affine? && q.x == p.x + u
    ensures var r := FromLambda(c, l, p, q);
            && 0 <= r.x < c.P && 0 <= r.y < c.P
            && Cong(r.x, ThirdX(p.x, u, l), c.P) && Cong(r.y, ThirdY(p.x, u, l, p.y), c.P)
  {
    hide ThirdX, ThirdY, Cong;
    ThirdAbscissa(c.P, p.x, q.x, u, l);
    ThirdOrdinate(c.P, p.x, u, l, p.y, (l * l - p.x - q.x) % c.P);
  }

  lemma ThirdAbscissa(P: int, x: int, qx: int, u: int, l: int)
    requires P > 0 && qx == x + u
    ensures 0 <= (l * l - x - qx) % P < P && Cong((l * l - x - qx) % P, ThirdX(x, u, l), P)
  {
    var e := l * l - x - qx;
    assert e == ThirdX(x, u, l);
    DivMod(e, P);
    CongMod(e, P);
  }

  lemma ThirdOrdinate(P: int, x: int, u: int, l: int, y: int, x3: int)
    requires P > 0 && Cong(x3, ThirdX(x, u, l), P)
    ensures 0 <= ((x - x3) * l - y) % P < P && Cong(((x - x3) * l - y) % P, ThirdY(x, u, l, y), P)
  {
    var X := ThirdX(x, u, l);
    assert ThirdY(x, u, l, y) == l * (x - X) - y;
    hide Cong, ThirdX, ThirdY;
    DivMod((x - x3) * l - y, P);
    ReflectThird(P, x, l, y, x3, X);
  }

  lemma ReflectThird(P: int, x: int, l: int, y: int, x3: int, X: int)
    requires P > 0 && Cong(x3, X, P)
    ensures Cong(((x - x3) * l - y) % P, l * (x - X) - y, P)
  {
    CongRefl(x, P);
    CongRefl(y, P);
    CongRefl(l, P);
    CongAdd(x, x, x3, X, P);
    CongMul(x - x3, x - X, l, l, P);
    CongAdd((x - x3) * l, (x - X) * l, y, y, P);
    CongMod((x - x3) * l - y, P);
    CongTrans(((x - x3) * l - y) % P, (x - x3) * l - y, (x - X) * l - y, P);
  }

  lemma LineYieldsCurvePoint(c: Curve, l: int, p: Point, q: Point, u: int)
    requires c.Valid() && p.Affine? && q.Affine? && q.x == p.x + u && OnLine(c, p.x, u, l, p.y)
    ensures IsOnCurve(c, FromLambda(c, l, p, q))
  {
    var r, P := FromLambda(c, l, p, q), c.P;
    var X, Y := ThirdX(p.x, u, l), ThirdY(p.x, u, l, p.y);
    FromLambdaIsThird(c, l, p, q, u);
    WeierstrassCong(P, c.A, LineA(p.x, u, l, p.y), c.B, LineB(p.x, u, l, p.y), r.x, X, r.y, Y);
    ThirdPointOnCurve(p.x, u, l, p.y);
    OnCurveCong(c, r.x, r.y);
  }

  /** B is determined by A and a point of the curve. */
  lemma CoefficientB(c: Curve, p: Point, u: int, l: int)
    requires c.Valid() && p.Affine? && IsOnCurve(c, p) && Cong(c.A, LineA(p.x, u, l, p.y), c.P)
    ensures OnLine(c, p.x, u, l, p.y)
  {
    var P, a := c.P, LineA(p.x, u, l, p.y);
    OnCurveCong(c, p.x, p.y);
    CongSym(Weierstrass(c.A, c.B, p.x, p.y), 0, P);
    CongRefl(p.x, P);
    CongMul(c.A, a, p.x, p.x, P);
    CongRefl(p.y * p.y - p.x * p.x * p.x, P);
    CongAdd(p.y * p.y - p.x * p.x * p.x, p.y * p.y - p.x * p.x * p.x, c.A * p.x, a * p.x, P);
    CongAdd(p.y * p.y - p.x * p.x * p.x - c.A * p.x, LineB(p.x, u, l, p.y), Weierstrass(c.A, c.B, p.x, p.y), 0, P);
  }

  /** The tangent at a point with y != 0 meets the curve there doubly. */
  lemma TangentLine(c: Curve, p: Point, l: int)
    requires c.Valid() && p.Affine? && IsOnCurve(c, p)
    requires Cong(l * (2 * p.y), 3 * (p.x * p.x) + c.A, c.P)
    ensures OnLine(c, p.x, 0, l, p.y)
  {
    var P := c.P;
    CongRefl(3 * (p.x * p.x), P);
    CongAdd(l * (2 * p.y), 3 * (p.x * p.x) + c.A, 3 * (p.x * p.x), 3 * (p.x * p.x), P);
    TangentCoefficient(p.x, l, p.y);
    hide LineA;
    CongSym(LineA(p.x, 0, l, p.y), c.A, P);
    CoefficientB(c, p, 0, l);
  }

  lemma TangentCoefficient(x: int, l: int, y: int)
    ensures l * (2 * y) - 3 * (x * x) == LineA(x, 0, l, y)
  {
    assert l * 0 == 0;
  }

  /** The chord through two points of the curve with distinct x. */
  lemma ChordLine(c: Curve, p: Point, q: Point, l: int)
    requires c.Valid() && p.Affine? && q.Affine? && IsOnCurve(c, p) && IsOnCurve(c, q)
    requires (q.x - p.x) % c.P != 0
    requires Cong(l * (q.x - p.x), q.y - p.y, c.P)
    ensures OnLine(c, p.x, q.x - p.x, l, p.y)
  {
    OnCurveCong(c, p.x, p.y);
    OnCurveCong(c, q.x, q.y);
    ChordEnd(c, p, q, l);
    ChordCoefficient(c.P, c.A, c.B, p.x, q.x - p.x, l, p.y);
    CoefficientB(c, p, q.x - p.x, l);
  }

  /** The end of the chord lies on the curve. */
  lemma ChordEnd(c: Curve, p: Point, q: Point, l: int)
    requires c.Valid() && p.Affine? && q.Affine? && Cong(Weierstrass(c.A, c.B, q.x, q.y), 0, c.P)
    requires Cong(l * (q.x - p.x), q.y - p.y, c.P)
    ensures Cong(Weierstrass(c.A, c.B, p.x + (q.x - p.x), p.y + l * (q.x - p.x)), 0, c.P)
  {
    var P, y2 := c.P, p.y + l * (q.x - p.x);
    CongRefl(p.y, P);
    CongAdd(p.y, p.y, l * (q.x - p.x), q.y - p.y, P);
    CongRefl(c.A, P);
    CongRefl(c.B, P);
    CongRefl(q.x, P);
    WeierstrassCong(P, c.A, c.A, c.B, c.B, q.x, q.x, y2, q.y);
    CongTrans(Weierstrass(c.A, c.B, q.x, y2), Weierstrass(c.A, c.B, q.x, q.y), 0, P);
  }

  lemma ChordCoefficient(P: int, A: int, B: int, x: int, u: int, l: int, y: int)
    requires IsPrime(P) && u % P != 0
    requires Cong(Weierstrass(A, B, x, y), 0, P) && Cong(Weierstrass(A, B, x + u, y + l * u), 0, P)
    ensures Cong(A, LineA(x, u, l, y), P)
  {
    ChordDifference(A, B, x, u, l, y);
    CongAdd(Weierstrass(A, B, x, y), 0, Weierstrass(A, B, x + u, y + l * u), 0, P);
    PrimeDividesProduct(u, A - LineA(x, u, l, y), P);
  }

  lemma TangentOnCurve(c: Curve, p: Point, lambda: int)
    requires c.Valid() && IsOnCurve(c, p) && p.Affine? && p.y != 0
    requires ModInverse(2 * p.y % c.P, c.P).Some?
    requires lambda == (3 * (p.x * p.x) + c.A) % c.P * ModInverse(2 * p.y % c.P, c.P).value % c.P
    ensures OnLine(c, p.x, 0, lambda, p.y)
    ensures IsOnCurve(c, FromLambda(c, lambda, p, p))
  {
    SlopeTimesDenominator(3 * (p.x * p.x) + c.A, 2 * p.y, c.P);
    TangentLine(c, p, lambda);
    LineYieldsCurvePoint(c, lambda, p, p, 0);
  }

  lemma ChordOnCurve(c: Curve, p: Point, q: Point, lambda: int)
    requires c.Valid() && IsOnCurve(c, p) && IsOnCurve(c, q) && p.Affine? && q.Affine? && p.x != q.x
    requires ModInverse((q.x - p.x) % c.P, c.P).Some?
    requires lambda == (q.y - p.y) % c.P * ModInverse((q.x - p.x) % c.P, c.P).value % c.P
    ensures OnLine(c, p.x, q.x - p.x, lambda, p.y)
    ensures Cong(lambda * (q.x - p.x), q.y - p.y, c.P)
    ensures IsOnCurve(c, FromLambda(c, lambda, p, q))
  {
    ChordDenominator(c, p, q);
    SlopeTimesDenominator(q.y - p.y, q.x - p.x, c.P);
    ChordLine(c, p, q, lambda);
    LineYieldsCurvePoint(c, lambda, p, q, q.x - p.x);
  }

  // ---------------------------------------------------------------- group facts

  /** Points with equal x are equal or opposite. */
  lemma EqualX(c: Curve, p: Point, q: Point)
    requires c.Valid() && IsOnCurve(c, p) && IsOnCurve(c, q) && p.Affine? && q.Affine? && p.x == q.x
    ensures (p.y + q.y) % c.P == 0 <==> q == Neg(c, p)
    ensures (p.y + q.y) % c.P != 0 ==> p == q && p.y != 0
  {
    OnCurveCong(c, p.x, p.y);
    OnCurveCong(c, q.x, q.y);
    SquareRoots(c.P, c.A, c.B, p.x, p.y, q.y);
    NegatedResidue(p.y, q.y, c.P);
  }

  lemma SquareRoots(P: int, A: int, B: int, x: int, y: int, z: int)
    requires IsPrime(P) && 0 <= y < P && 0 <= z < P
    requires Cong(Weierstrass(A, B, x, y), 0, P) && Cong(Weierstrass(A, B, x, z), 0, P)
    ensures (y + z) % P != 0 ==> y == z && y != 0
  {
    CongAdd(Weierstrass(A, B, x, y), 0, Weierstrass(A, B, x, z), 0, P);
    assert Weierstrass(A, B, x, y) - Weierstrass(A, B, x, z) == (y + z) * (y - z);
    PrimeDividesProduct(y + z, y - z, P);
    if (y + z) % P != 0 {
      CongReduced(y, z, P);
      ModReduced(0, P);
    }
  }

  lemma NegatedResidue(y: int, z: int, P: int)
    requires P > 0 && 0 <= y < P && 0 <= z < P
    ensures (-y) % P == if y == 0 then 0 else P - y
    ensures (y + z) % P == 0 <==> z == (-y) % P
  {
    ModUnique(-y, P, if y == 0 then 0 else -1, if y == 0 then 0 else P - y);
    if y + z == 0 || y + z == P {
      ModUnique(y + z, P, if y + z == 0 then 0 else 1, 0);
    } else {
      ModUnique(y + z, P, if y + z < P then 0 else 1, if y + z < P then y + z else y + z - P);
    }
  }

  lemma NegatedOnCurve(c: Curve, x: int, y: int)
    requires c.P > 0
    ensures c.Valid() && IsOnCurve(c, Affine(x, y)) ==> IsOnCurve(c, Affine(x, (-y) % c.P))
  {
    var y' := (-y) % c.P;
    DivMod(-y, c.P);
    CongMod(-y, c.P);
    CongMul(y', -y, y', -y, c.P);
    assert (-y) * (-y) == y * y;
    CongIffModEq(y' * y', y * y, c.P);
  }

  lemma NegTwice(c: Curve, p: Point)
    requires c.Valid() && IsOnCurve(c, p)
    ensures Neg(c, Neg(c, p)) == p
  {
    if p.Affine? {
      NegatedResidue(p.y, p.y, c.P);
      NegatedResidue((-p.y) % c.P, (-p.y) % c.P, c.P);
    }
  }

  /** The identity and inverse laws. */
  lemma AddNeg(c: Curve, p: Point)
    requires c.Valid() && IsOnCurve(c, p)
    ensures Add(c, p, Neg(c, p)) == Infinity && Add(c, Neg(c, p), p) == Infinity
    ensures Add(c, p, Infinity) == p && Add(c, Infinity, p) == p
  {
    if p.Affine? { NegatedResidue(p.y, Neg(c, p).y, c.P); }
  }

  /** Doubling is adding to itself. */
  lemma DoubleIsAdd(c: Curve, p: Point)
    requires c.Valid() && IsOnCurve(c, p)
    ensures Double(c, p) == Add(c, p, p)
  {
    if p.Affine? {
      if p.y == 0 {
        ModReduced(0, c.P);
      } else {
        TangentDenominator(c, p);
      }
    }
  }

  /** Affine addition is commutative. */
  lemma AddCommutes(c: Curve, p: Point, q: Point)
    requires c.Valid() && IsOnCurve(c, p) && IsOnCurve(c, q)
    ensures Add(c, p, q) == Add(c, q, p)
  {
    if p.Affine? && q.Affine? {
      if p.x == q.x {
        EqualX(c, p, q);
      } else {
        ChordsAgree(c, p, q);
      }
    }
  }

  /** The two chords have the same slope, hence the same third point. */
  lemma ChordsAgree(c: Curve, p: Point, q: Point)
    requires c.Valid() && IsOnCurve(c, p) && IsOnCurve(c, q) && p.Affine? && q.Affine? && p.x != q.x
    ensures Add(c, p, q) == Add(c, q, p)
  {
    var P, u, v := c.P, q.x - p.x, q.y - p.y;
    ChordDenominator(c, p, q);
    ChordDenominator(c, q, p);
    var l := v % P * ModInverse(u % P, P).value % P;
    var m := (p.y - q.y) % P * ModInverse((p.x - q.x) % P, P).value % P;
    SlopeTimesDenominator(v, u, P);
    SlopeTimesDenominator(p.y - q.y, p.x - q.x, P);
    DivMod(v % P * ModInverse(u % P, P).value, P);
    DivMod((p.y - q.y) % P * ModInverse((p.x - q.x) % P, P).value, P);
    SlopesAgree(P, u, v, l, m);
    CongSym(l * u, v, P);
    ReflectedIntercept(c, l, p, q, FromLambda(c, l, p, q).x);
  }

  lemma SlopesAgree(P: int, u: int, v: int, l: int, m: int)
    requires IsPrime(P) && u % P != 0 && 0 <= l < P && 0 <= m < P
    requires Cong(l * u, v, P) && Cong(m * (-u), -v, P)
    ensures l == m
  {
    hide IsPrime;
    CongAdd(l * u, v, m * (-u), -v, P);
    assert l * u + m * (-u) == u * (l - m);
    ZeroProduct(u * (l - m), P);
    PrimeDividesProduct(u, l - m, P);
    CongReduced(l, m, P);
  }

  lemma ZeroProduct(e: int, P: int)
    requires P > 0 && Cong(e, 0, P)
    ensures e % P == 0
  {
  }

  lemma ReflectedIntercept(c: Curve, l: int, p: Point, q: Point, x3: int)
    requires c.P > 0 && p.Affine? && q.Affine? && Cong(q.y - p.y, l * (q.x - p.x), c.P)
    ensures ((p.x - x3) * l - p.y) % c.P == ((q.x - x3) * l - q.y) % c.P
  {
    var s, t := (p.x - x3) * l - p.y, (q.x - x3) * l - q.y;
    assert s - t == (q.y - p.y) - l * (q.x - p.x);
    CongIffModEq(s, t, c.P);
  }
}
