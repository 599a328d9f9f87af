/** Multiples of a point under the affine addition, and double-and-add. The only fact about
    elliptic curves taken as a hypothesis is that affine addition is associative. */
module CurveGroup {
  import opened ModArith
  import opened AffineCurve
  import opened FieldModel
  import opened CompleteFormulas

  ghost predicate AssociativeAt(c: Curve, p: Point, q: Point, r: Point)
    requires c.Valid() && IsOnCurve(c, p) && IsOnCurve(c, q) && IsOnCurve(c, r)
  {
    Add(c, Add(c, p, q), r) == Add(c, p, Add(c, q, r))
  }

  ghost predicate Associative(c: Curve)
    requires c.Valid()
  {
    forall p, q, r {:trigger AssociativeAt(c, p, q, r)} | IsOnCurve(c, p) && IsOnCurve(c, q) && IsOnCurve(c, r) ::
      AssociativeAt(c, p, q, r)
  }

  /** p + ... + p, k times. */
  function Times(c: Curve, k: nat, p: Point): (r: Point)
    requires c.Valid() && IsOnCurve(c, p)
    ensures IsOnCurve(c, r)
  {
    if k == 0 then Infinity else Add(c, Times(c, k - 1, p), p)
  }

  lemma {:induction false} TimesAdd(c: Curve, m: nat, n: nat, p: Point)
    requires c.Valid() && Associative(c) && IsOnCurve(c, p)
    ensures Times(c, m + n, p) == Add(c, Times(c, m, p), Times(c, n, p))
  {
    hide Add, Double, IsOnCurve, IsPrime;
    if n > 0 {
      TimesAdd(c, m, n - 1, p);
      assert AssociativeAt(c, Times(c, m, p), Times(c, n - 1, p), p);
    } else {
      AddNeg(c, Times(c, m, p));
    }
  }

  lemma {:induction false} TimesInfinity(c: Curve, k: nat)
    requires c.Valid()
    ensures Times(c, k, Infinity) == Infinity
  {
    hide Add, Double, IsOnCurve, IsPrime;
    if k > 0 {
      TimesInfinity(c, k - 1);
      AddNeg(c, Infinity);
    }
  }

  lemma {:induction false} TimesTimes(c: Curve, m: nat, n: nat, p: Point)
    requires c.Valid() && Associative(c) && IsOnCurve(c, p)
    ensures Times(c, m * n, p) == Times(c, m, Times(c, n, p))
  {
    hide Add, Double, IsOnCurve, IsPrime;
    if m > 0 {
      TimesTimes(c, m - 1, n, p);
      assert m * n == (m - 1) * n + n;
      TimesAdd(c, (m - 1) * n, n, p);
    } else {
      assert m * n == 0;
    }
  }

  lemma TimesDouble(c: Curve, k: nat, p: Point)
    requires c.Valid() && Associative(c) && IsOnCurve(c, p)
    ensures Times(c, 2 * k, p) == Double(c, Times(c, k, p))
  {
    hide Add, Double, IsOnCurve, IsPrime;
    TimesAdd(c, k, k, p);
    DoubleIsAdd(c, Times(c, k, p));
  }

  /** Multiples of a period do not matter. */
  lemma TimesPeriod(c: Curve, q: nat, n: nat, r: nat, p: Point)
    requires c.Valid() && Associative(c) && IsOnCurve(c, p) && Times(c, n, p) == Infinity
    ensures Times(c, q * n + r, p) == Times(c, r, p)
  {
    hide Add, Double, IsOnCurve, IsPrime;
    TimesTimes(c, q, n, p);
    TimesInfinity(c, q);
    TimesAdd(c, q * n, r, p);
    AddNeg(c, Times(c, r, p));
  }

  /** k·p only depends on k modulo any n with n·p the identity. */
  lemma TimesMod(c: Curve, k: nat, n: nat, p: Point)
    requires c.Valid() && Associative(c) && IsOnCurve(c, p) && n > 0 && Times(c, n, p) == Infinity
    ensures Times(c, k % n, p) == Times(c, k, p)
  {
    hide Add, Double, IsOnCurve, IsPrime;
    var q, r := k / n, k % n;
    assert k == q * n + r by { DivMod(k, n); }
    TimesPeriod(c, q, n, r, p);
  }

  lemma {:induction false} TimesCommutes(c: Curve, m: nat, n: nat, p: Point)
    requires c.Valid() && Associative(c) && IsOnCurve(c, p)
    ensures Times(c, m, Times(c, n, p)) == Times(c, n, Times(c, m, p))
  {
    hide Add, Double, IsOnCurve, IsPrime;
    TimesTimes(c, m, n, p);
    TimesTimes(c, n, m, p);
    assert m * n == n * m;
  }

  // ------------------------------------------------------------ double-and-add

  /** k·p by left-to-right double-and-add; k <= 0 yields the identity. */
  method ScalarMult(c: Curve, k: int, p: Point) returns (result: Point)
    requires c.Valid() && Associative(c) && IsOnCurve(c, p)
    ensures result == if k <= 0 then Infinity else Times(c, k, p)
  {
    hide Add, Double, IsOnCurve, IsPrime;
    if k <= 0 || p.Infinity? {
      if k > 0 { TimesInfinity(c, k); }
      return Infinity;
    }
    result := Infinity;
    HighAboveTop(k);
    var i := BitLen(k);
    while i > 0
      invariant result == Times(c, High(k, i), p)
    {
      i := i - 1;
      HighStep(k, i);
      TimesDouble(c, High(k, i + 1), p);
      result := Double(c, result);
      if Bit(k, i) == 1 {
        result := Add(c, result, p);
      }
    }
    HighAll(k);
  }

  // --------------------------------------------------------------- points of odd order

  /** Some odd multiple of p is the identity. */
  ghost predicate HasOddOrder(c: Curve, p: Point)
    requires c.Valid() && IsOnCurve(c, p)
  {
    exists n: nat :: n % 2 == 1 && Times(c, n, p) == Infinity
  }

  /** No multiple of a point of odd order has order two. */
  lemma OddOrderMultiples(c: Curve, p: Point, j: nat)
    requires c.Valid() && Associative(c) && IsOnCurve(c, p) && HasOddOrder(c, p)
    ensures !OrderTwo(Times(c, j, p))
  {
    hide Add, Double, IsOnCurve, IsPrime;
    var t := Times(c, j, p);
    if OrderTwo(t) {
      var n: nat :| n % 2 == 1 && Times(c, n, p) == Infinity;
      TimesDouble(c, j, p);
      DoubleOfOrderTwo(c, t);
      TimesPeriod(c, n / 2, 2 * j, j, p);
      TimesTimes(c, n, j, p);
      TimesCommutes(c, n, j, p);
      TimesInfinity(c, j);
      assert n * j == n / 2 * (2 * j) + j by { OddMultiple(n, j); }
      assert false;
    }
  }

  lemma DoubleOfOrderTwo(c: Curve, t: Point)
    requires c.Valid() && IsOnCurve(c, t) && OrderTwo(t)
    ensures Double(c, t) == Infinity
  {
  }

  lemma OddMultiple(n: int, j: int)
    requires n % 2 == 1
    ensures n * j == n / 2 * (2 * j) + j
  {
    assert n == 2 * (n / 2) + 1;
    assert (2 * (n / 2) + 1) * j == n / 2 * (2 * j) + j;
  }

  /** The difference of two multiples is a multiple or its opposite. */
  lemma DifferenceOfMultiples(c: Curve, m: nat, n: nat, p: Point)
    requires c.Valid() && Associative(c) && IsOnCurve(c, p)
    ensures m >= n ==> Add(c, Times(c, m, p), Neg(c, Times(c, n, p))) == Times(c, m - n, p)
    ensures m < n ==> Add(c, Times(c, m, p), Neg(c, Times(c, n, p))) == Neg(c, Times(c, n - m, p))
  {
    hide Add, Double, IsOnCurve, IsPrime;
    var M, N := Times(c, m, p), Times(c, n, p);
    if m >= n {
      var d := Times(c, m - n, p);
      TimesAdd(c, m - n, n, p);
      AddNeg(c, N);
      AddNeg(c, d);
      assert AssociativeAt(c, d, N, Neg(c, N));
    } else {
      var d := Times(c, n - m, p);
      TimesAdd(c, n - m, m, p);
      NegTwice(c, d);
      AddNeg(c, d);
      AddNeg(c, N);
      AddNeg(c, M);
      // M = -d + N, so M - N = -d.
      assert AssociativeAt(c, Neg(c, d), d, M);
      AddNeg(c, Neg(c, d));
      assert AssociativeAt(c, Neg(c, d), N, Neg(c, N));
    }
  }

  lemma NegKeepsOrderTwo(c: Curve, p: Point)
    requires c.Valid() && IsOnCurve(c, p)
    ensures OrderTwo(Neg(c, p)) <==> OrderTwo(p)
  {
    if p.Affine? { NegatedResidue(p.y, p.y, c.P); }
  }
}
