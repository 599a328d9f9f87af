/** The Renes-Costello-Batina formulas of ctpoint.go, over any ring, and what they
    compute: the affine sum of curves.go except where P - Q has order two. */
module ProjectiveCurve {
  import opened ModArith
  import opened AffineCurve

  /** The field operations the formulas use. */
  datatype Ring<!T> = Ring(add: (T, T) -> T, sub: (T, T) -> T, mul: (T, T) -> T)

  /** A projective point (X:Y:Z). */
  datatype PPoint<T> = PPoint(x: T, y: T, z: T)

  /** P + Q by add-2015-rcb. */
  function AddPoints<T>(f: Ring<T>, a: T, b3: T, p: PPoint<T>, q: PPoint<T>): PPoint<T>
  {
    var PPoint(x1, y1, z1) := p;
    var PPoint(x2, y2, z2) := q;
    var t0 := f.mul(x1, x2);
    var t1 := f.mul(y1, y2);
    var t2 := f.mul(z1, z2);
    var t3 := f.add(x1, y1);
    var t4 := f.add(x2, y2);
    var t3 := f.mul(t3, t4);
    var t4 := f.add(t0, t1);
    var t3 := f.sub(t3, t4);
    var t4 := f.add(x1, z1);
    var t5 := f.add(x2, z2);
    var t4 := f.mul(t4, t5);
    var t5 := f.add(t0, t2);
    var t4 := f.sub(t4, t5);
    var t5 := f.add(y1, z1);
    var x3 := f.add(y2, z2);
    var t5 := f.mul(t5, x3);
    var x3 := f.add(t1, t2);
    var t5 := f.sub(t5, x3);
    var z3 := f.mul(a, t4);
    var x3 := f.mul(b3, t2);
    var z3 := f.add(x3, z3);
    var x3 := f.sub(t1, z3);
    var z3 := f.add(t1, z3);
    var y3 := f.mul(x3, z3);
    var t1 := f.add(t0, t0);
    var t1 := f.add(t1, t0);
    var t2 := f.mul(a, t2);
    var t4 := f.mul(b3, t4);
    var t1 := f.add(t1, t2);
    var t2 := f.sub(t0, t2);
    var t2 := f.mul(a, t2);
    var t4 := f.add(t4, t2);
    var t0 := f.mul(t1, t4);
    var y3 := f.add(y3, t0);
    var t0 := f.mul(t5, t4);
    var x3 := f.mul(t3, x3);
    var x3 := f.sub(x3, t0);
    var t0 := f.mul(t3, t1);
    var z3 := f.mul(t5, z3);
    var z3 := f.add(z3, t0);
    PPoint(x3, y3, z3)
  }

  /** 2P by dbl-2015-rcb. */
  function DoublePoint<T>(f: Ring<T>, a: T, b3: T, p: PPoint<T>): PPoint<T>
  {
    var PPoint(x1, y1, z1) := p;
    var t0 := f.mul(x1, x1);
    var t1 := f.mul(y1, y1);
    var t2 := f.mul(z1, z1);
    var t3 := f.mul(x1, y1);
    var t3 := f.add(t3, t3);
    var z3 := f.mul(x1, z1);
    var z3 := f.add(z3, z3);
    var x3 := f.mul(a, z3);
    var y3 := f.mul(b3, t2);
    var y3 := f.add(x3, y3);
    var x3 := f.sub(t1, y3);
    var y3 := f.add(t1, y3);
    var y3 := f.mul(x3, y3);
    var x3 := f.mul(t3, x3);
    var z3 := f.mul(b3, z3);
    var t2 := f.mul(a, t2);
    var t3 := f.sub(t0, t2);
    var t3 := f.mul(a, t3);
    var t3 := f.add(t3, z3);
    var z3 := f.add(t0, t0);
    var t0 := f.add(z3, t0);
    var t0 := f.add(t0, t2);
    var t0 := f.mul(t0, t3);
    var y3 := f.add(y3, t0);
    var t2 := f.mul(y1, z1);
    var t2 := f.add(t2, t2);
    var t0 := f.mul(t2, t3);
    var x3 := f.sub(x3, t0);
    var z3 := f.mul(t2, t1);
    var z3 := f.add(z3, z3);
    var z3 := f.add(z3, z3);
    PPoint(x3, y3, z3)
  }

  // -------------------------------------------------- the formulas and ring maps

  function Map<S, T>(h: S -> T, p: PPoint<S>): PPoint<T>
  {
    PPoint(h(p.x), h(p.y), h(p.z))
  }

  ghost predicate IsHom<S(!new), T(!new)>(r: Ring<S>, s: Ring<T>, h: S -> T)
  {
    && (forall x, y :: h(r.add(x, y)) == s.add(h(x), h(y)))
    && (forall x, y :: h(r.sub(x, y)) == s.sub(h(x), h(y)))
    && (forall x, y :: h(r.mul(x, y)) == s.mul(h(x), h(y)))
  }

  /** The formulas commute with ring homomorphisms. */
  lemma AddHom<S(!new), T(!new)>(r: Ring<S>, s: Ring<T>, h: S -> T, a: S, b3: S, p: PPoint<S>, q: PPoint<S>)
    requires IsHom(r, s, h)
    ensures Map(h, AddPoints(r, a, b3, p, q)) == AddPoints(s, h(a), h(b3), Map(h, p), Map(h, q))
  {
  }

  lemma DoubleHom<S(!new), T(!new)>(r: Ring<S>, s: Ring<T>, h: S -> T, a: S, b3: S, p: PPoint<S>)
    requires IsHom(r, s, h)
    ensures Map(h, DoublePoint(r, a, b3, p)) == DoublePoint(s, h(a), h(b3), Map(h, p))
  {
  }

  const Integers: Ring<int> := Ring((x: int, y: int) => x + y, (x: int, y: int) => x - y, (x: int, y: int) => x * y)

  function ModRing(P: int): Ring<int>
    requires P > 0
  {
    Ring((x: int, y: int) => (x + y) % P, (x: int, y: int) => (x - y) % P, (x: int, y: int) => x * y % P)
  }

  function Reduce(P: int): int -> int
    requires P > 0
  {
    (x: int) => x % P
  }

  lemma ReduceIsHom(P: int)
    requires P > 0
    ensures IsHom(Integers, ModRing(P), Reduce(P))
  {
    var r, s, h := Integers, ModRing(P), Reduce(P);
    forall x, y ensures h(r.add(x, y)) == s.add(h(x), h(y)) { ReduceOps(x, y, P); }
    forall x, y ensures h(r.sub(x, y)) == s.sub(h(x), h(y)) { ReduceOps(x, y, P); }
    forall x, y ensures h(r.mul(x, y)) == s.mul(h(x), h(y)) { ReduceOps(x, y, P); }
  }

  lemma ReduceOps(x: int, y: int, P: int)
    requires P > 0
    ensures (x + y) % P == (x % P + y % P) % P && (x - y) % P == (x % P - y % P) % P
    ensures x * y % P == x % P * (y % P) % P
  {
    CongMod(x, P);
    CongMod(y, P);
    CongAdd(x % P, x, y % P, y, P);
    CongMul(x % P, x, y % P, y, P);
    CongIffModEq(x % P + y % P, x + y, P);
    CongIffModEq(x % P - y % P, x - y, P);
    CongIffModEq(x % P * (y % P), x * y, P);
  }

  // ---------------------------------------------------------------- closed forms

  /** The bilinear pieces of the addition law. */
  ghost function XY(p: PPoint<int>, q: PPoint<int>): int { p.x * q.y + q.x * p.y }
  ghost function XZ(p: PPoint<int>, q: PPoint<int>): int { p.x * q.z + q.x * p.z }
  ghost function YZ(p: PPoint<int>, q: PPoint<int>): int { p.y * q.z + q.y * p.z }
  ghost function Minus(a: int, b3: int, p: PPoint<int>, q: PPoint<int>): int {
    p.y * q.y - (b3 * (p.z * q.z) + a * XZ(p, q))
  }
  ghost function Plus(a: int, b3: int, p: PPoint<int>, q: PPoint<int>): int {
    p.y * q.y + (b3 * (p.z * q.z) + a * XZ(p, q))
  }
  ghost function Tan(a: int, p: PPoint<int>, q: PPoint<int>): int { 3 * (p.x * q.x) + a * (p.z * q.z) }
  ghost function Mix(a: int, b3: int, p: PPoint<int>, q: PPoint<int>): int {
    b3 * XZ(p, q) + a * (p.x * q.x - a * (p.z * q.z))
  }

  /** The complete addition law as polynomials. */
  ghost function SumPoly(a: int, b3: int, p: PPoint<int>, q: PPoint<int>): PPoint<int>
  {
    PPoint(XY(p, q) * Minus(a, b3, p, q) - YZ(p, q) * Mix(a, b3, p, q),
           Minus(a, b3, p, q) * Plus(a, b3, p, q) + Tan(a, p, q) * Mix(a, b3, p, q),
           YZ(p, q) * Plus(a, b3, p, q) + XY(p, q) * Tan(a, p, q))
  }

  /** The straight-line addition computes its closed form. */
  lemma AddClosedForm(a: int, b3: int, p: PPoint<int>, q: PPoint<int>)
    ensures AddPoints(Integers, a, b3, p, q) == SumPoly(a, b3, p, q)
  {
    hide AddPoints;
    var t3 := (p.x + p.y) * (q.x + q.y) - (p.x * q.x + p.y * q.y);
    var t4 := (p.x + p.z) * (q.x + q.z) - (p.x * q.x + p.z * q.z);
    var t5 := (p.y + p.z) * (q.y + q.z) - (p.y * q.y + p.z * q.z);
    Karatsuba(p.x, p.y, q.x, q.y);
    Karatsuba(p.x, p.z, q.x, q.z);
    Karatsuba(p.y, p.z, q.y, q.z);
    assert t3 == XY(p, q) && t4 == XZ(p, q) && t5 == YZ(p, q);
    AddFromPieces(a, b3, p, q, p.x * q.x, p.y * q.y, p.z * q.z, t3, t4, t5);
  }

  lemma Karatsuba(x: int, y: int, u: int, v: int)
    ensures (x + y) * (u + v) - (x * u + y * v) == x * v + u * y
  {
  }

  lemma AddFromPieces(a: int, b3: int, p: PPoint<int>, q: PPoint<int>, t0: int, t1: int, t2: int, t3: int, t4: int, t5: int)
    requires t0 == p.x * q.x && t1 == p.y * q.y && t2 == p.z * q.z
    requires t3 == (p.x + p.y) * (q.x + q.y) - (t0 + t1)
    requires t4 == (p.x + p.z) * (q.x + q.z) - (t0 + t2)
    requires t5 == (p.y + p.z) * (q.y + q.z) - (t1 + t2)
    ensures var n, m := t1 - (b3 * t2 + a * t4), t1 + (b3 * t2 + a * t4);
            var t, s := t0 + t0 + t0 + a * t2, b3 * t4 + a * (t0 - a * t2);
            AddPoints(Integers, a, b3, p, q) == PPoint(t3 * n - t5 * s, n * m + t * s, t5 * m + t3 * t)
  {
    hide AddPoints;
    AddShape(Integers, a, b3, p, q, t0, t1, t2, t3, t4, t5);
  }

  /** The straight-line addition in its six products, over any ring. */
  lemma AddShape<T>(f: Ring<T>, a: T, b3: T, p: PPoint<T>, q: PPoint<T>, t0: T, t1: T, t2: T, t3: T, t4: T, t5: T)
    requires t0 == f.mul(p.x, q.x) && t1 == f.mul(p.y, q.y) && t2 == f.mul(p.z, q.z)
    requires t3 == f.sub(f.mul(f.add(p.x, p.y), f.add(q.x, q.y)), f.add(t0, t1))
    requires t4 == f.sub(f.mul(f.add(p.x, p.z), f.add(q.x, q.z)), f.add(t0, t2))
    requires t5 == f.sub(f.mul(f.add(p.y, p.z), f.add(q.y, q.z)), f.add(t1, t2))
    ensures var e := f.add(f.mul(b3, t2), f.mul(a, t4));
            var n, m := f.sub(t1, e), f.add(t1, e);
            var t, s := f.add(f.add(f.add(t0, t0), t0), f.mul(a, t2)), f.add(f.mul(b3, t4), f.mul(a, f.sub(t0, f.mul(a, t2))));
            AddPoints(f, a, b3, p, q)
              == PPoint(f.sub(f.mul(t3, n), f.mul(t5, s)), f.add(f.mul(n, m), f.mul(t, s)), f.add(f.mul(t5, m), f.mul(t3, t)))
  {
  }

  /** The straight-line doubling is the diagonal of the addition law, its Z by the curve equation. */
  lemma DoubleClosedForm(a: int, b3: int, p: PPoint<int>)
    ensures DoublePoint(Integers, a, b3, p).x == SumPoly(a, b3, p, p).x
    ensures DoublePoint(Integers, a, b3, p).y == SumPoly(a, b3, p, p).y
    ensures DoublePoint(Integers, a, b3, p).z == 8 * (p.y * p.z * (p.y * p.y))
  {
  }

  // ------------------------------------- the sum along a line, as a polynomial identity

  /** Two points on the line Y = l*X + c with abscissas of sum sg and product pi; x3 is the third
      root. The pieces of the addition law factor through the following quantities. */
  datatype Line = Line(sg: int, pi: int, l: int, c: int, x3: int) {
    ghost predicate Valid() { l * l == sg + x3 }
    ghost function A(): int { pi + sg * x3 + 2 * (l * c) }
    ghost function B3(): int { 3 * (c * c) - 3 * (pi * x3) }
    ghost function YY(): int { (sg + x3) * pi + l * c * sg + c * c }
    ghost function S(): int { l * sg + 2 * c }
    ghost function M(): int { 2 * (l * pi) + c * sg }
    ghost function D(): int { sg * sg - 4 * pi }
    ghost function K(): int { S() * S() - sg * D() }
    ghost function Z(): int { S() * K() - D() * M() }
    ghost function Y3(): int { -(l * x3 + c) }
  }

  lemma LineSquare(n: Line)
    requires n.Valid()
    ensures n.S() * n.S() == (n.sg + n.x3) * (n.sg * n.sg) + 4 * (n.l * n.c * n.sg) + 4 * (n.c * n.c)
    ensures n.l * n.M() == 2 * ((n.sg + n.x3) * n.pi) + n.l * n.c * n.sg
  {
    var l, sg, c := n.l, n.sg, n.c;
    assert (l * sg + 2 * c) * (l * sg + 2 * c) == (l * l) * (sg * sg) + 4 * (l * c * sg) + 4 * (c * c);
    assert l * (2 * (l * n.pi) + c * sg) == 2 * ((l * l) * n.pi) + l * c * sg;
  }

  lemma LinePieces(n: Line)
    requires n.Valid()
    ensures n.YY() - (n.B3() + n.A() * n.sg) == -(n.D() * n.x3) - n.c * n.S()
    ensures n.YY() + (n.B3() + n.A() * n.sg) == n.K() - n.l * n.M()
    ensures 3 * n.pi + n.A() == n.l * n.S() - n.D()
  {
    LineSquare(n);
    LineProducts(n.l, n.sg, n.c, n.pi, n.x3);
  }

  /** The products in the pieces, expanded. */
  lemma LineProducts(l: int, sg: int, c: int, pi: int, x3: int)
    ensures (pi + sg * x3 + 2 * (l * c)) * sg == pi * sg + (sg * sg) * x3 + 2 * (l * c * sg)
    ensures (sg * sg - 4 * pi) * x3 == (sg * sg) * x3 - 4 * (pi * x3)
    ensures c * (l * sg + 2 * c) == l * c * sg + 2 * (c * c)
    ensures sg * (sg * sg - 4 * pi) == sg * (sg * sg) - 4 * (pi * sg)
    ensures (sg + x3) * (sg * sg) == sg * (sg * sg) + (sg * sg) * x3
    ensures l * (l * sg + 2 * c) == (l * l) * sg + 2 * (l * c)
    ensures (sg + x3) * sg == sg * sg + sg * x3
    ensures (sg + x3) * pi == pi * sg + pi * x3
  {
    assert (sg * x3) * sg == (sg * sg) * x3;
    assert c * (l * sg) == l * c * sg;
    MulAssoc(l, l, sg);
  }

  lemma LineMix(n: Line)
    requires n.Valid()
    ensures n.B3() * n.sg + n.A() * (n.pi - n.A()) == -(n.c * n.M()) - n.x3 * n.K()
  {
    var l, sg, c, pi, x3 := n.l, n.sg, n.c, n.pi, n.x3;
    var r, w, cc := sg * x3, l * c, c * c;
    MixLeft(n, r, w, cc);
    MixRight(n, r, w, cc);
  }

  lemma MixLeft(n: Line, r: int, w: int, cc: int)
    requires n.Valid() && r == n.sg * n.x3 && w == n.l * n.c && cc == n.c * n.c
    ensures n.B3() * n.sg + n.A() * (n.pi - n.A())
         == -(n.sg * cc) - 4 * (n.pi * r) - 2 * (n.pi * w) - r * r - 4 * (r * w) - 4 * (n.x3 * cc)
  {
    SquareOfSum(n.pi, r, w);
    MulSquares(n.l, n.c);
    assert w * w == n.sg * cc + n.x3 * cc;
    TripleTimes(cc, n.pi, n.x3, n.sg, r);
  }

  lemma SquareOfSum(pi: int, r: int, w: int)
    ensures (pi + r + 2 * w) * (pi - (pi + r + 2 * w)) == -(pi * r) - 2 * (pi * w) - r * r - 4 * (r * w) - 4 * (w * w)
  {
  }

  lemma MulSquares(l: int, c: int)
    ensures (l * c) * (l * c) == (l * l) * (c * c)
  {
  }

  lemma TripleTimes(cc: int, pi: int, x3: int, sg: int, r: int)
    requires r == sg * x3
    ensures (3 * cc - 3 * (pi * x3)) * sg == 3 * (sg * cc) - 3 * (pi * r)
  {
    assert (pi * x3) * sg == pi * r;
  }

  lemma MixRight(n: Line, r: int, w: int, cc: int)
    requires n.Valid() && r == n.sg * n.x3 && w == n.l * n.c && cc == n.c * n.c
    ensures n.c * n.M() + n.x3 * n.K()
         == n.sg * cc + 4 * (n.pi * r) + 2 * (n.pi * w) + r * r + 4 * (r * w) + 4 * (n.x3 * cc)
  {
    LineSquare(n);
    InterceptTimesM(n.l, n.pi, n.c, n.sg);
    ThirdTimesK(n.sg, n.x3, n.pi, w, cc, r, n.sg * n.sg, n.S() * n.S(), n.D(), n.K());
  }

  lemma InterceptTimesM(l: int, pi: int, c: int, sg: int)
    ensures c * (2 * (l * pi) + c * sg) == 2 * (pi * (l * c)) + sg * (c * c)
  {
  }

  lemma ThirdTimesK(sg: int, x3: int, pi: int, w: int, cc: int, r: int, s2: int, ss: int, d: int, k: int)
    requires r == sg * x3 && s2 == sg * sg && ss == (sg + x3) * s2 + 4 * (w * sg) + 4 * cc
    requires d == s2 - 4 * pi && k == ss - sg * d
    ensures x3 * k == 4 * (pi * r) + r * r + 4 * (r * w) + 4 * (x3 * cc)
  {
    assert k == x3 * s2 + 4 * (w * sg) + 4 * cc + 4 * (sg * pi);
    assert x3 * (x3 * s2) == r * r;
    assert x3 * (w * sg) == r * w;
    assert x3 * (sg * pi) == pi * r;
  }

  /** The pieces combine to the third point, scaled by Z. */
  lemma LineCombine(s: int, m: int, d: int, k: int, l: int, c: int, x3: int, lo: int, hi: int, t: int, mix: int)
    requires lo == -(d * x3) - c * s && hi == k - l * m && t == l * s - d && mix == -(c * m) - x3 * k
    ensures m * lo - s * mix == (s * k - d * m) * x3
    ensures s * hi + m * t == s * k - d * m
    ensures lo * hi + t * mix == (s * k - d * m) * -(l * x3 + c)
  {
  }

  /** Along a line of slope l the addition law yields the reflected third intersection, scaled. */
  lemma LineSum(n: Line, p: PPoint<int>, q: PPoint<int>)
    requires n.Valid() && p.z == 1 && q.z == 1
    requires n.sg == p.x + q.x && n.pi == p.x * q.x && p.y == n.l * p.x + n.c && q.y == n.l * q.x + n.c
    ensures SumPoly(n.A(), n.B3(), p, q) == PPoint(n.Z() * n.x3, n.Z() * n.Y3(), n.Z())
  {
    LinePieces(n);
    LineMix(n);
    LineBilinear(n.l, n.c, p.x, q.x);
    assert p.y * q.y == n.YY();
    LineCombine(n.S(), n.M(), n.D(), n.K(), n.l, n.c, n.x3, Minus(n.A(), n.B3(), p, q), Plus(n.A(), n.B3(), p, q),
                Tan(n.A(), p, q), Mix(n.A(), n.B3(), p, q));
  }

  lemma LineBilinear(l: int, c: int, x1: int, x2: int)
    ensures x1 * (l * x2 + c) + x2 * (l * x1 + c) == 2 * (l * (x1 * x2)) + c * (x1 + x2)
    ensures (l * x1 + c) + (l * x2 + c) == l * (x1 + x2) + 2 * c
    ensures (l * x1 + c) * (l * x2 + c) == (l * l) * (x1 * x2) + l * c * (x1 + x2) + c * c
  {
  }

  /** Adding a point to its opposite, with the tangent slope. */
  lemma OppositeSum(n: Line, x: int, y: int)
    requires n.Valid() && n.sg == 2 * x && n.pi == x * x && y == n.l * x + n.c
    ensures SumPoly(n.A(), n.B3(), PPoint(x, y, 1), PPoint(x, -y, 1)) == PPoint(0, 8 * (y * (y * y)) * n.Y3(), 0)
  {
    LinePieces(n);
    LineMix(n);
    LineBilinear(n.l, n.c, x, x);
    OppositeLine(n, x, y);
    OppositePieces(n.A(), n.B3(), x, y, n.l, n.c, n.x3);
    OppositeCombine(x, y, n.l, n.c, n.x3);
  }

  /** The line quantities of the tangent at (x, y). */
  lemma OppositeLine(n: Line, x: int, y: int)
    requires n.sg == 2 * x && n.pi == x * x && y == n.l * x + n.c
    ensures n.D() == 0 && n.S() == 2 * y && n.M() == 2 * (x * y) && n.K() == 4 * (y * y)
  {
    TangentDiscriminant(x);
    assert n.S() == 2 * y by { assert n.l * (2 * x) == 2 * (n.l * x); }
    TangentMiddle(n.l, n.c, x, y);
    TangentSquare(n.sg, n.D(), n.S(), y);
  }

  lemma TangentDiscriminant(x: int)
    ensures (2 * x) * (2 * x) - 4 * (x * x) == 0
  {
  }

  lemma TangentMiddle(l: int, c: int, x: int, y: int)
    requires y == l * x + c
    ensures 2 * (l * (x * x)) + c * (2 * x) == 2 * (x * y)
  {
  }

  lemma TangentSquare(sg: int, d: int, s: int, y: int)
    requires d == 0 && s == 2 * y
    ensures s * s - sg * d == 4 * (y * y)
  {
  }

  lemma OppositePieces(a: int, b3: int, x: int, y: int, l: int, c: int, x3: int)
    requires y * y - (b3 + a * (2 * x)) == -(c * (2 * y))
    requires y * y + (b3 + a * (2 * x)) == 4 * (y * y) - l * (2 * (x * y))
    requires 3 * (x * x) + a == l * (2 * y)
    requires b3 * (2 * x) + a * (x * x - a) == -(c * (2 * (x * y))) - x3 * (4 * (y * y))
    ensures var p, q := PPoint(x, y, 1), PPoint(x, -y, 1);
            && XY(p, q) == 0 && YZ(p, q) == 0
            && Minus(a, b3, p, q) == -(4 * (y * y) - l * (2 * (x * y)))
            && Plus(a, b3, p, q) == c * (2 * y)
            && Tan(a, p, q) == l * (2 * y)
            && Mix(a, b3, p, q) == -(c * (2 * (x * y))) - x3 * (4 * (y * y))
  {
    assert y * (-y) == -(y * y);
  }

  lemma OppositeCombine(x: int, y: int, l: int, c: int, x3: int)
    ensures -(4 * (y * y) - l * (2 * (x * y))) * (c * (2 * y)) + l * (2 * y) * (-(c * (2 * (x * y))) - x3 * (4 * (y * y)))
         == 8 * (y * (y * y)) * -(l * x3 + c)
  {
  }

  /** Doubling a point with y = 0, where b = -x^3 - a*x. */
  lemma TwoTorsionSum(a: int, x: int)
    ensures var t := 3 * (x * x) + a;
            SumPoly(a, 3 * (-(x * (x * x)) - a * x), PPoint(x, 0, 1), PPoint(x, 0, 1)) == PPoint(0, -(t * t * t), 0)
  {
    var s, t, b3, p := x * x, 3 * (x * x) + a, 3 * (-(x * (x * x)) - a * x), PPoint(x, 0, 1);
    assert XY(p, p) == 0 && YZ(p, p) == 0 && Tan(a, p, p) == t;
    assert b3 + a * (2 * x) == -(x * t);
    assert Minus(a, b3, p, p) == x * t && Plus(a, b3, p, p) == -(x * t);
    assert Mix(a, b3, p, p) == -(t * (2 * s + a)) by { TwoTorsionMix(a, x, s, b3); }
    TwoTorsionOrdinate(x, s, t, a);
    hide XY, YZ, Minus, Plus, Tan, Mix;
  }

  lemma TwoTorsionMix(a: int, x: int, s: int, b3: int)
    requires s == x * x && b3 == 3 * (-(x * s) - a * x)
    ensures b3 * (2 * x) + a * (s - a) == -((3 * s + a) * (2 * s + a))
  {
    assert (x * s) * x == s * s && (a * x) * x == a * s;
    assert b3 * (2 * x) == -6 * (s * s) - 6 * (a * s);
    assert (3 * s + a) * (2 * s + a) == 6 * (s * s) + 5 * (a * s) + a * a;
    assert a * (s - a) == a * s - a * a;
  }

  lemma TwoTorsionOrdinate(x: int, s: int, t: int, a: int)
    requires s == x * x && t == 3 * s + a
    ensures (x * t) * -(x * t) + t * -(t * (2 * s + a)) == -(t * t * t)
  {
    assert (x * t) * (x * t) == (t * t) * s;
    assert t * (t * (2 * s + a)) == (t * t) * (2 * s + a);
    assert (t * t) * s + (t * t) * (2 * s + a) == (t * t) * t;
  }

  /** Adding the identity (0:1:0) scales by the y coordinate. */
  lemma IdentitySum(a: int, b3: int, p: PPoint<int>)
    ensures SumPoly(a, b3, p, PPoint(0, 1, 0)) == Scale(p.y, p)
    ensures SumPoly(a, b3, PPoint(0, 1, 0), p) == Scale(p.y, p)
  {
    var o := PPoint(0, 1, 0);
    assert XZ(p, o) == 0 && XY(p, o) == p.x && YZ(p, o) == p.z && Tan(a, p, o) == 0 && Mix(a, b3, p, o) == 0;
    assert Minus(a, b3, p, o) == p.y && Plus(a, b3, p, o) == p.y;
    SumCommutes(a, b3, o, p);
  }

  function Scale(k: int, p: PPoint<int>): PPoint<int> { PPoint(k * p.x, k * p.y, k * p.z) }

  /** The addition law is bihomogeneous of degree two. */
  lemma ScaledSum(a: int, b3: int, k: int, p: PPoint<int>, m: int, q: PPoint<int>)
    ensures SumPoly(a, b3, Scale(k, p), Scale(m, q)) == Scale((k * m) * (k * m), SumPoly(a, b3, p, q))
  {
    hide XY, XZ, YZ, Minus, Plus, Tan, Mix;
    var w := k * m;
    ScaledBilinear(k, p, m, q);
    ScaledTerms(w, a, b3, p, q, Scale(k, p), Scale(m, q));
    ScaledPair(w, XY(p, q), Minus(a, b3, p, q), YZ(p, q), Mix(a, b3, p, q));
    ScaledPair(w, Minus(a, b3, p, q), Plus(a, b3, p, q), Tan(a, p, q), Mix(a, b3, p, q));
    ScaledPair(w, YZ(p, q), Plus(a, b3, p, q), XY(p, q), Tan(a, p, q));
  }

  lemma ScaledBilinear(k: int, p: PPoint<int>, m: int, q: PPoint<int>)
    ensures var w, p', q' := k * m, Scale(k, p), Scale(m, q);
            && p'.x * q'.x == w * (p.x * q.x) && p'.y * q'.y == w * (p.y * q.y) && p'.z * q'.z == w * (p.z * q.z)
            && XY(p', q') == w * XY(p, q) && XZ(p', q') == w * XZ(p, q) && YZ(p', q') == w * YZ(p, q)
  {
    ScaledProduct(k, p.x, m, q.x);
    ScaledProduct(k, p.y, m, q.y);
    ScaledProduct(k, p.z, m, q.z);
    ScaledCross(k, p.x, p.y, m, q.x, q.y);
    ScaledCross(k, p.x, p.z, m, q.x, q.z);
    ScaledCross(k, p.y, p.z, m, q.y, q.z);
  }

  lemma ScaledCross(k: int, x: int, y: int, m: int, u: int, v: int)
    ensures (k * x) * (m * v) + (m * u) * (k * y) == (k * m) * (x * v + u * y)
  {
    ScaledProduct(k, x, m, v);
    ScaledProduct(k, y, m, u);
    assert (m * u) * (k * y) == (k * y) * (m * u);
    assert (k * m) * (x * v + u * y) == (k * m) * (x * v) + (k * m) * (y * u);
  }

  lemma ScaledTerms(w: int, a: int, b3: int, p: PPoint<int>, q: PPoint<int>, p': PPoint<int>, q': PPoint<int>)
    requires p'.x * q'.x == w * (p.x * q.x) && p'.y * q'.y == w * (p.y * q.y) && p'.z * q'.z == w * (p.z * q.z)
    requires XZ(p', q') == w * XZ(p, q)
    ensures Minus(a, b3, p', q') == w * Minus(a, b3, p, q) && Plus(a, b3, p', q') == w * Plus(a, b3, p, q)
    ensures Tan(a, p', q') == w * Tan(a, p, q) && Mix(a, b3, p', q') == w * Mix(a, b3, p, q)
  {
    hide XZ;
    ScaledPieces(w, a, b3, p.x * q.x, p.y * q.y, p.z * q.z, XZ(p, q));
  }

  lemma ScaledProduct(k: int, x: int, m: int, y: int)
    ensures (k * x) * (m * y) == (k * m) * (x * y)
  {
    MulAssoc(k * x, m, y);
    MulAssoc(k * m, x, y);
    assert (k * x) * m == (k * m) * x;
  }

  lemma ScaledPieces(w: int, a: int, b3: int, xx: int, yy: int, zz: int, xz: int)
    ensures w * yy - (b3 * (w * zz) + a * (w * xz)) == w * (yy - (b3 * zz + a * xz))
    ensures w * yy + (b3 * (w * zz) + a * (w * xz)) == w * (yy + (b3 * zz + a * xz))
    ensures 3 * (w * xx) + a * (w * zz) == w * (3 * xx + a * zz)
    ensures b3 * (w * xz) + a * (w * xx - a * (w * zz)) == w * (b3 * xz + a * (xx - a * zz))
  {
    assert a * (w * zz) == w * (a * zz);
    assert a * (w * (xx - a * zz)) == w * (a * (xx - a * zz));
  }

  lemma ScaledPair(w: int, a: int, b: int, c: int, d: int)
    ensures (w * a) * (w * b) - (w * c) * (w * d) == (w * w) * (a * b - c * d)
    ensures (w * a) * (w * b) + (w * c) * (w * d) == (w * w) * (a * b + c * d)
  {
    ScaledProduct(w, a, w, b);
    ScaledProduct(w, c, w, d);
    assert (w * w) * (a * b - c * d) == (w * w) * (a * b) - (w * w) * (c * d);
    assert (w * w) * (a * b + c * d) == (w * w) * (a * b) + (w * w) * (c * d);
  }

  /** The addition law is symmetric in its two points. */
  lemma SumCommutes(a: int, b3: int, p: PPoint<int>, q: PPoint<int>)
    ensures SumPoly(a, b3, p, q) == SumPoly(a, b3, q, p)
  {
  }
}
