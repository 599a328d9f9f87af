/** For which points the multiplications of ctscalar.go return the multiple they are asked for:
    exact conditions for the fixed window and for the ladder, and an input on which each fails. */
module WindowExactness {
  import opened ModArith
  import opened Words
  import opened MontgomeryField
  import opened FieldModel
  import opened AffineCurve
  import opened CompleteFormulas
  import opened CurveGroup
  import opened ConstantTimeCurve
  import opened ConstantTimeScalar

  // ------------------------------------------------------------ points of odd order

  /** For a point of odd order no window is exceptional. */
  lemma {:induction false} OddOrderSafe(c: Curve, P: Point, k: nat, w: nat)
    requires c.Valid() && Associative(c) && IsOnCurve(c, P) && HasOddOrder(c, P)
    ensures Safe(c, P, k, w)
    decreases w
  {
    hide Add, IsOnCurve, IsPrime, Times, OrderTwo, HasOddOrder;
    forall j: nat ensures !HasOrderTwoAt(c, P, j) { OddOrderMultiples(c, P, j); }
    if w > 0 { OddOrderSafe(c, P, k / 16, w - 1); }
  }

  /** The windows of the order cover every scalar below 2^bits. */
  lemma WindowsCover(k: nat, bits: nat)
    requires k < Pow(2, bits)
    ensures Pow(16, Windows(bits)) > 0 && k % Pow(16, Windows(bits)) == k
  {
    hide Pow;
    var w := Windows(bits);
    SixteenPower(w);
    PowAdd(2, bits, 4 * w - bits);
    PowPositive(2, 4 * w - bits);
    PowPositive(2, bits);
    MulMono(1, Pow(2, 4 * w - bits), Pow(2, bits));
    ModReduced(k, Pow(16, w));
  }

  lemma {:induction false} SixteenPower(w: nat)
    ensures Pow(16, w) == Pow(2, 4 * w)
  {
    if w > 0 {
      SixteenPower(w - 1);
      PowAdd(2, 4, 4 * (w - 1));
      assert Pow(2, 4) == 16;
    }
  }

  function OrderBits(c: Curve): nat { BitLen(if c.Q < 0 then 0 else c.Q) }

  /** A point of odd order is multiplied correctly by every scalar of at most bitlen(Q) bits. */
  lemma OddOrderExact(c: Curve, P: Point, k: nat)
    requires c.Valid() && Associative(c) && IsOnCurve(c, P) && HasOddOrder(c, P) && k < Pow(2, OrderBits(c))
    ensures WindowMultiple(c, k, P) == Times(c, k, P)
  {
    hide Add, IsOnCurve, IsPrime, Times, HasOddOrder, Safe;
    WindowsCover(k, OrderBits(c));
    OddOrderSafe(c, P, k, Windows(OrderBits(c)));
  }

  /** The same on every width, and such a scalar fits the limbs. */
  lemma OddOrderCt(c: Curve, P: Point, k: nat)
    requires c.Valid() && Associative(c) && IsOnCurve(c, P) && HasOddOrder(c, P) && Fits(c) && k < Pow(2, OrderBits(c))
    ensures ScalarFits(c, k) && CtMultiple(c, k, P) == Times(c, k, P)
  {
    hide Add, IsOnCurve, IsPrime, Times, HasOddOrder, Pow, WindowMultiple;
    OddOrderExact(c, P, k);
    OrderFits(c, k);
  }

  lemma OrderFits(c: Curve, k: nat)
    requires Fits(c) && k < Pow(2, OrderBits(c))
    ensures ScalarFits(c, k)
  {
    hide Pow;
    var bits, n := OrderBits(c), Limbs(c);
    if c.P < Pow(B, 8) {
      ByteWeight(n);
      PowOfPow(n);
      PowAdd(2, bits, 64 * n - bits);
      PowPositive(2, 64 * n - bits);
      PowPositive(2, bits);
      MulMono(1, Pow(2, 64 * n - bits), Pow(2, bits));
    }
  }

  // ----------------------------------------------- curves of order 4·Q: the exact condition

  /** A curve point killed by 4·Q, for an odd prime Q past the largest table difference. */
  ghost predicate KilledByFourQ(c: Curve, P: Point)
  {
    c.Valid() && Associative(c) && IsOnCurve(c, P) && IsPrime(c.Q) && c.Q > 13 && Times(c, 4 * c.Q, P) == Infinity
  }

  /** If j·P has order two for some j prime to Q then 4·P is already the identity. */
  lemma OrderTwoMultiple(c: Curve, P: Point, j: nat)
    requires KilledByFourQ(c, P) && j % c.Q != 0 && HasOrderTwoAt(c, P, j)
    ensures Times(c, 4, P) == Infinity
  {
    hide Add, IsOnCurve, IsPrime, Times;
    var q := c.Q;
    PrimeInverse(j, q);
    var v: nat := ModInverse(j, q).value;
    var t: nat := InverseQuotient(j, v, q);
    TimesDouble(c, j, P);
    DoubleOfOrderTwo(c, Times(c, j, P));
    TimesTimes(c, 2 * v, 2 * j, P);
    TimesInfinity(c, 2 * v);
    TimesPeriod(c, t, 4 * q, 4, P);
    assert (2 * v) * (2 * j) == t * (4 * q) + 4 by { FourTimes(j, v, t, q); }
  }

  lemma InverseQuotient(j: nat, v: nat, q: nat) returns (t: nat)
    requires q > 1 && (j * v) % q == 1
    ensures j * v == q * t + 1
  {
    DivMod(j * v, q);
    t := j * v / q;
  }

  lemma FourTimes(j: int, v: int, t: int, q: int)
    requires j * v == q * t + 1
    ensures (2 * v) * (2 * j) == t * (4 * q) + 4
  {
    assert (2 * v) * (2 * j) == 4 * (j * v);
    assert t * (4 * q) == 4 * (q * t);
  }

  /** When 4·P is not the identity no window of a scalar below Q is exceptional: every difference
      met is below Q. */
  lemma {:induction false} SafeBelowOrder(c: Curve, P: Point, k: nat, w: nat)
    requires KilledByFourQ(c, P) && Times(c, 4, P) != Infinity && k < c.Q
    ensures Safe(c, P, k, w)
    decreases w
  {
    hide Add, IsOnCurve, IsPrime, Times, OrderTwo, HasOrderTwoAt, KilledByFourQ, EntrySafe;
    if w > 0 {
      SafeBelowOrder(c, P, k / 16, w - 1);
      EntrySafeBelow(c, P, k % 16);
      BelowOrder(c, P, Gap(16 * (k / 16), k % 16));
    }
  }

  lemma EntrySafeBelow(c: Curve, P: Point, d: nat)
    requires KilledByFourQ(c, P) && Times(c, 4, P) != Infinity && d < 16
    ensures EntrySafe(c, P, d)
  {
    hide IsOnCurve, IsPrime, Times, OrderTwo, HasOrderTwoAt;
    forall i: nat | i + 2 <= d ensures !HasOrderTwoAt(c, P, i) { BelowOrder(c, P, i); }
  }

  lemma BelowOrder(c: Curve, P: Point, j: nat)
    requires KilledByFourQ(c, P) && Times(c, 4, P) != Infinity && (j < c.Q || j < 14)
    ensures !HasOrderTwoAt(c, P, j)
  {
    if j == 0 {
      TimesOne(c, P);
    } else {
      hide Times, IsOnCurve, IsPrime, HasOrderTwoAt;
      ModReduced(j, c.Q);
      if HasOrderTwoAt(c, P, j) { OrderTwoMultiple(c, P, j); }
    }
  }

  /** A point of order two or four loses the table entry 5·P, and 5·P = P is not the identity. */
  lemma FiveFails(c: Curve, P: Point)
    requires KilledByFourQ(c, P) && P.Affine? && Times(c, 4, P) == Infinity
    ensures WindowMultiple(c, 5, P) == Infinity && Times(c, 5, P) == P
  {
    hide IsOnCurve, IsPrime, Times, Add, Pow, Windows;
    var w := Windows(OrderBits(c));
    TimesOne(c, P);
    TimesPeriod(c, 1, 4, 1, P);
    BitLenBound(c.Q);
    WindowsCover(5, OrderBits(c));
    SmallOrder(c, P);
    assert !EntrySafe(c, P, 5) by { assert 1 + 2 <= 5 && 2 + 2 <= 5; }
    assert w > 0 by { PowZeroIsOne(w); }
    assert !Safe(c, P, 5, w) by { LastWindow(c, P, w); }
  }

  lemma PowZeroIsOne(w: nat)
    requires Pow(16, w) > 0 && 5 % Pow(16, w) == 5
    ensures w > 0
  {
  }

  lemma LastWindow(c: Curve, P: Point, w: nat)
    requires c.Valid() && IsOnCurve(c, P) && w > 0 && !EntrySafe(c, P, 5)
    ensures !Safe(c, P, 5, w)
  {
    assert 5 / 16 == 0 && 5 % 16 == 5;
  }

  /** If 4·P is the identity and P is not, then P or 2·P has order two. */
  lemma SmallOrder(c: Curve, P: Point)
    requires KilledByFourQ(c, P) && P.Affine? && Times(c, 4, P) == Infinity
    ensures HasOrderTwoAt(c, P, 1) || HasOrderTwoAt(c, P, 2)
  {
    hide Times, IsOnCurve, IsPrime;
    TimesOne(c, P);
    TimesDouble(c, 1, P);
    TimesDouble(c, 2, P);
    DoublesToInfinity(c, P);
    DoublesToInfinity(c, Times(c, 2, P));
  }

  lemma DoublesToInfinity(c: Curve, A: Point)
    requires c.Valid() && IsOnCurve(c, A)
    ensures Double(c, A) == Infinity <==> A.Infinity? || OrderTwo(A)
  {
  }

  /** The fixed window multiplies P correctly by every scalar below Q if and only if P is the
      identity or 4·P is not: points of order Q, 2Q and 4Q are right, those of order 2 and 4 wrong. */
  lemma WindowExact(c: Curve, P: Point)
    requires KilledByFourQ(c, P)
    ensures (forall k: nat :: k < c.Q ==> WindowMultiple(c, k, P) == Times(c, k, P))
       <==> P.Infinity? || Times(c, 4, P) != Infinity
  {
    hide Add, IsOnCurve, IsPrime, Times, Safe, WindowMultiple, Pow;
    if P.Infinity? || Times(c, 4, P) != Infinity {
      forall k: nat | k < c.Q ensures WindowMultiple(c, k, P) == Times(c, k, P) { ExactBelowOrder(c, P, k); }
    } else {
      FiveFails(c, P);
    }
  }

  lemma ExactBelowOrder(c: Curve, P: Point, k: nat)
    requires KilledByFourQ(c, P) && k < c.Q && (P.Infinity? || Times(c, 4, P) != Infinity)
    ensures WindowMultiple(c, k, P) == Times(c, k, P)
  {
    hide Add, IsOnCurve, IsPrime, Times, Safe, Pow;
    if P.Infinity? {
      OfInfinity(c, k);
    } else {
      BitLenBound(c.Q);
      WindowsCover(k, OrderBits(c));
      SafeBelowOrder(c, P, k, Windows(OrderBits(c)));
    }
  }

  /** On every width: the multiple, or the identity for a point of order two or four. */
  lemma CtBelowOrder(c: Curve, P: Point, k: nat)
    requires KilledByFourQ(c, P) && k < c.Q
    ensures CtMultiple(c, k, P) == Times(c, k, P)
         || (CtMultiple(c, k, P) == Infinity && Times(c, 4, P) == Infinity)
  {
    hide Add, IsOnCurve, IsPrime, Times, Safe, Pow, WindowMultiple;
    if Times(c, 4, P) != Infinity {
      ExactBelowOrder(c, P, k);
    } else {
      RightOrIdentity(c, P, k);
    }
  }

  lemma RightOrIdentity(c: Curve, P: Point, k: nat)
    requires c.Valid() && IsOnCurve(c, P) && 0 <= k < c.Q
    ensures WindowMultiple(c, k, P) == Times(c, k, P) || WindowMultiple(c, k, P) == Infinity
  {
    hide Add, IsOnCurve, IsPrime, Times, Safe, Pow;
    BitLenBound(c.Q);
    WindowsCover(k, OrderBits(c));
  }

  // -------------------------------------------------------------------- a failing input

  /** y^2 = x^3 + x over GF(5): the identity and three points of order two. */
  function SmallCurve(): Curve { Curve(5, 1, 0, 17, 0, 0, 4, true) }

  lemma SmallCurveValid()
    ensures var c := SmallCurve(); c.Valid() && c.NonSingular() && IsPrime(c.Q)
    ensures IsOnCurve(SmallCurve(), Affine(0, 0))
  {
  }

  lemma SmallCurvePoints(p: Point)
    requires IsOnCurve(SmallCurve(), p)
    ensures p.Infinity? || (p.y == 0 && (p.x == 0 || p.x == 2 || p.x == 3))
  {
    if p.Affine? {
      SmallCurveOrdinate(p.x, p.y);
    }
  }

  lemma SmallCurveOrdinate(x: int, y: int)
    requires 0 <= x < 5 && 0 <= y < 5 && y * y % 5 == (x * x % 5 * x + 1 * x + 0) % 5
    ensures y == 0 && (x == 0 || x == 2 || x == 3)
  {
    SquaresModFive(y);
    if x == 0 {} else if x == 1 {} else if x == 2 {} else if x == 3 {} else {}
  }

  lemma SquaresModFive(y: int)
    requires 0 <= y < 5
    ensures y * y % 5 == (if y == 0 then 0 else if y == 1 || y == 4 then 1 else 4)
  {
    if y == 0 {} else if y == 1 {} else if y == 2 {} else if y == 3 {} else { assert y == 4; }
  }

  /** The sum of two different points of order two is the third. */
  lemma SmallCurveSum(p: Point, q: Point)
    requires SmallCurve().Valid() && IsOnCurve(SmallCurve(), p) && IsOnCurve(SmallCurve(), q)
    ensures Add(SmallCurve(), p, q) ==
      if p.Infinity? then q else if q.Infinity? then p
      else if p == q then Infinity else Affine((-p.x - q.x) % 5, 0)
  {
    hide IsPrime, ModInverse, FromLambda;
    SmallCurvePoints(p);
    SmallCurvePoints(q);
    if p.Affine? && q.Affine? && p != q {
      ChordDenominator(SmallCurve(), p, q);
      FlatChord(p, q, ModInverse((q.x - p.x) % 5, 5).value);
    }
  }

  lemma FlatChord(p: Point, q: Point, den: int)
    requires p.Affine? && q.Affine? && p.y == q.y == 0
    ensures FromLambda(SmallCurve(), (q.y - p.y) % 5 * den % 5, p, q) == Affine((-p.x - q.x) % 5, 0)
  {
    var lambda := (q.y - p.y) % 5 * den % 5;
    assert lambda == 0;
    assert lambda * lambda == 0;
  }

  lemma SmallCurveAssociative()
    requires SmallCurve().Valid()
    ensures Associative(SmallCurve())
  {
    hide IsPrime, Add;
    var c := SmallCurve();
    forall p, q, r | IsOnCurve(c, p) && IsOnCurve(c, q) && IsOnCurve(c, r) ensures AssociativeAt(c, p, q, r) {
      SmallCurveAssociativeAt(p, q, r);
    }
  }

  lemma SmallCurveAssociativeAt(p: Point, q: Point, r: Point)
    requires SmallCurve().Valid()
    requires IsOnCurve(SmallCurve(), p) && IsOnCurve(SmallCurve(), q) && IsOnCurve(SmallCurve(), r)
    ensures AssociativeAt(SmallCurve(), p, q, r)
  {
    hide IsPrime, Add, IsOnCurve;
    var c := SmallCurve();
    SmallCurvePoints(p);
    SmallCurvePoints(q);
    SmallCurvePoints(r);
    SmallCurveSum(p, q);
    SmallCurveSum(q, r);
    SmallCurveSum(Add(c, p, q), r);
    SmallCurveSum(p, Add(c, q, r));
  }

  /** On this curve, with every hypothesis of the method met, 3·(0, 0) is returned as the identity. */
  lemma WindowFails()
    ensures var c, P := SmallCurve(), Affine(0, 0);
            && c.Valid() && c.NonSingular() && Associative(c) && Fits(c) && IsOnCurve(c, P) && KilledByFourQ(c, P)
            && ScalarFits(c, 3) && CtMultiple(c, 3, P) == Infinity && Times(c, 3, P) == P
  {
    hide IsPrime, Add, IsOnCurve, Times, OrderTwo;
    var c, P := SmallCurve(), Affine(0, 0);
    SmallCurveValid();
    SmallCurveAssociative();
    FitsSmallCurve();
    SmallCurveSum(P, P);
    TimesOne(c, P);
    TimesStep(c, 1, P);
    TimesStep(c, 2, P);
    SmallCurveSum(Infinity, P);
    TimesPeriod(c, 34, 2, 0, P);
    ThirdEntryLost();
    assert 3 < Pow(2, 5);
    hide WindowMultiple, Fits, ScalarFits;
    OrderFits(c, 3);
    SmallCurveWidth();
  }

  lemma SmallCurveWidth()
    requires SmallCurve().Valid() && IsOnCurve(SmallCurve(), Affine(0, 0))
    ensures CtMultiple(SmallCurve(), 3, Affine(0, 0)) == WindowMultiple(SmallCurve(), 3, Affine(0, 0))
  {
    PowPositive(B, 7);
    MulMono(1, Pow(B, 7), B);
    assert 5 < Pow(B, 8);
  }

  lemma TimesStep(c: Curve, k: nat, P: Point)
    requires c.Valid() && IsOnCurve(c, P)
    ensures Times(c, k + 1, P) == Add(c, Times(c, k, P), P)
  {
  }

  lemma FitsSmallCurve()
    ensures Fits(SmallCurve()) && OrderBits(SmallCurve()) == 5 && Windows(OrderBits(SmallCurve())) == 2
  {
    assert BitLen(17) == 5 by { BitLenSeventeen(); }
  }

  lemma BitLenSeventeen()
    ensures BitLen(17) == 5
  {
    assert BitLen(2) == 2;
    assert BitLen(8) == 4;
  }

  /** The table entry 3·P adds P to 2·P - P, which has order two. */
  lemma ThirdEntryLost()
    requires SmallCurve().Valid() && IsOnCurve(SmallCurve(), Affine(0, 0))
    ensures WindowMultiple(SmallCurve(), 3, Affine(0, 0)) == Infinity
  {
    hide IsPrime, Add, IsOnCurve, Times, Fits;
    var c, P := SmallCurve(), Affine(0, 0);
    TimesOne(c, P);
    FitsSmallCurve();
    assert Pow(16, 2) == 256;
    assert HasOrderTwoAt(c, P, 1);
    assert !EntrySafe(c, P, 3) by { assert 1 + 2 <= 3; }
    assert 3 % 256 == 3 && 3 / 16 == 0 && 3 % 16 == 3;
    assert !Safe(c, P, 3, 2);
  }

  // ------------------------------------------------------------------------ the ladder

  /** The limbs the ladder returns for k stand for k·P if and only if P does not have order two or k
      is 0, and their affine reading is k·P if and only if P does not have order two or k is even. */
  lemma LadderExact(c: Curve, f: Field, result: CtPoint, k: nat, P: Point)
    requires c.Valid() && Associative(c) && IsOnCurve(c, P) && f.Valid()
    requires Holds(c, f, result, k, P, !OrderTwo(P) || k == 0)
    ensures Stands(f, result, Times(c, k, P)) <==> !OrderTwo(P) || k == 0
    ensures ReadsAs(f, result, Times(c, k, P)) <==> !OrderTwo(P) || k % 2 == 0
  {
    hide IsPrime, Add, IsOnCurve, Times, Stands, Collapsed;
    if OrderTwo(P) {
      if k > 0 { CollapsedStandsForNothing(f, result, Times(c, k, P)); }
      TimesOne(c, P);
      TimesDouble(c, 1, P);
      DoubleOfOrderTwo(c, P);
      TimesPeriod(c, k / 2, 2, k % 2, P);
      assert k == k / 2 * 2 + k % 2;
    }
  }
}
