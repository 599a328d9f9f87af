/** What the key agreement computes on bytes (section 4.3 of RFC 7836): keys, coordinates and UKM are
    little-endian, and one multiple of the peer's point is hashed. */
module VkoLaws {
  import opened ModArith
  import opened Bytes
  import opened FieldModel
  import opened AffineCurve
  import opened CurveGroup
  import opened ConstantTimeScalar
  import opened Signature
  import opened Vko

  /** LE(x) || LE(y). */
  function Coordinates(c: Curve, p: Point): seq<Octet>
    requires c.P > 0 && p.Affine? && IsOnCurve(c, p)
  {
    Reversed(ToBE(p.x, PointSize(c))) + Reversed(ToBE(p.y, PointSize(c)))
  }

  lemma CoordinatesDecode(c: Curve, p: Point)
    requires c.P > 0 && c.P <= Pow(256, PointSize(c)) && p.Affine? && IsOnCurve(c, p)
    ensures PublicSpec(c, Coordinates(c, p)) == Ok(p)
  {
    hide BE, ToBE, Pow;
    var ps, q := PointSize(c), CoordinateNat(c, p);
    LEOfReversed(q.x, ps);
    LEOfReversed(q.y, ps);
    var raw := Coordinates(c, p);
    assert raw[..ps] == Reversed(ToBE(q.x, ps)) && raw[ps..] == Reversed(ToBE(q.y, ps));
  }

  /** A private key of the right length that is not a multiple of q, the coordinates of a curve point
      and a nonzero UKM agree on the hash of the coordinates of (UKM·cofactor·key)·Q, or fail with the
      identity error when that multiple is the identity. */
  lemma AgreesExactly(c: Curve, prv: seq<Octet>, q: Point, ukm: seq<Octet>, hash: seq<Octet> -> seq<Octet>, n: nat)
    requires AgreementCurve(c) && (c.cofactor == 1 || c.cofactor == 4)
    requires |prv| == PointSize(c) && LE(prv) % c.Q != 0 && LE(ukm) > 0
    requires q.Affine? && IsOnCurve(c, q) && n == LE(ukm) * c.cofactor * LE(prv)
    ensures var K := Times(c, n, q);
            KekSpec(c, prv, Coordinates(c, q), ukm, hash)
              == if K.Infinity? then Err(IdentityPoint) else Ok(hash(Coordinates(c, K)))
  {
    hide Add, IsOnCurve, IsPrime, Times, BE, Pow, Fits, FinishSpec, PublicSpec, Coordinates, EncodePoint;
    CoordinatesDecode(c, q);
    var d, m := LE(prv) % c.Q, LE(ukm) * c.cofactor;
    PrivateIs(c, prv);
    MulMono(0, LE(ukm), c.cofactor);
    MulMono(0, m, d);
    AgreementIsOneMultiple(c, d, q, LE(ukm), m, m * d);
    ReducedKey(c, q, LE(ukm), m, LE(prv), n);
    SameEncoding(c, Times(c, n, q));
  }

  lemma PrivateIs(c: Curve, prv: seq<Octet>)
    requires c.Q > 1 && |prv| == PointSize(c) && LE(prv) % c.Q != 0
    ensures PrivateSpec(c, prv) == Ok(LE(prv) % c.Q)
  {
    hide BE;
    ModReduced(0, c.Q);
  }

  lemma SameEncoding(c: Curve, p: Point)
    requires c.P > 0 && IsOnCurve(c, p)
    ensures p.Affine? ==> EncodePoint(c, p) == Coordinates(c, p)
  {
    hide ToBE, IsOnCurve;
  }

  /** The cofactor takes every point into the group of order q, where keys count modulo q. */
  lemma ReducedKey(c: Curve, p: Point, ukm: nat, m: nat, prv: nat, n: nat)
    requires AgreementCurve(c) && (c.cofactor == 1 || c.cofactor == 4) && IsOnCurve(c, p)
    requires m == ukm * c.cofactor && n == m * prv
    ensures 0 <= m * (prv % c.Q) && Times(c, m * (prv % c.Q), p) == Times(c, n, p)
  {
    hide Add, IsOnCurve, IsPrime, Times, Pow, Fits;
    var q, d := c.Q, prv % c.Q;
    DivMod(prv, q);
    MulMono(0, m, d);
    var t := prv / q;
    assert 0 <= t;
    QuotientMultiple(ukm, c.cofactor, q, t, m, prv, d);
    MulMono(0, ukm, t);
    TimesPeriod(c, ukm * t, c.cofactor * q, m * d, p);
  }

  lemma QuotientMultiple(ukm: int, cof: int, q: int, t: int, m: int, prv: int, d: int)
    requires m == ukm * cof && prv == q * t + d
    ensures m * prv == (ukm * t) * (cof * q) + m * d
  {
    assert m * (q * t + d) == m * (q * t) + m * d;
    assert (ukm * cof) * (q * t) == (ukm * t) * (cof * q) by {
      MulAssoc(ukm, cof, q * t);
      MulAssoc(ukm, t, cof * q);
      assert cof * (q * t) == t * (cof * q);
    }
  }

  /** Each refused input with its error, in the order of the tests. */
  lemma RefusesExactly(c: Curve, prv: seq<Octet>, pub: seq<Octet>, ukm: seq<Octet>, hash: seq<Octet> -> seq<Octet>)
    requires AgreementCurve(c)
    ensures |prv| != PointSize(c) ==> KekSpec(c, prv, pub, ukm, hash) == Err(BadPrivLen)
    ensures |prv| == PointSize(c) && LE(prv) % c.Q == 0 ==> KekSpec(c, prv, pub, ukm, hash) == Err(ZeroPrivate)
    ensures |prv| == PointSize(c) && LE(prv) % c.Q != 0 ==>
      var ps := PointSize(c);
      && (|pub| != 2 * ps ==> KekSpec(c, prv, pub, ukm, hash) == Err(BadPubLen))
      && (|pub| == 2 * ps && !IsOnCurve(c, Affine(LE(pub[..ps]), LE(pub[ps..]))) ==>
            KekSpec(c, prv, pub, ukm, hash) == Err(PubNotOn))
      && (|pub| == 2 * ps && IsOnCurve(c, Affine(LE(pub[..ps]), LE(pub[ps..]))) && LE(ukm) == 0 ==>
            KekSpec(c, prv, pub, ukm, hash) == Err(ZeroUkm))
  {
    hide Add, IsOnCurve, IsPrime, Times, BE, Pow, Fits;
    ModReduced(0, c.Q);
  }

  /** On any other cofactor the agreement is refused once the first multiple is known not to vanish. */
  lemma UnsupportedExactly(c: Curve, prv: seq<Octet>, q: Point, ukm: seq<Octet>, hash: seq<Octet> -> seq<Octet>)
    requires AgreementCurve(c) && c.cofactor != 1 && c.cofactor != 4
    requires |prv| == PointSize(c) && LE(prv) % c.Q != 0 && LE(ukm) > 0 && q.Affine? && IsOnCurve(c, q)
    ensures 0 <= LE(prv) % c.Q
    ensures KekSpec(c, prv, Coordinates(c, q), ukm, hash)
         == Err(if Times(c, LE(prv) % c.Q, q).Infinity? then IdentityPoint else UnsupportedCofactor)
  {
    hide Add, IsOnCurve, IsPrime, Times, BE, Pow, Fits, PublicSpec, Coordinates, EncodePoint;
    CoordinatesDecode(c, q);
    PrivateIs(c, prv);
    DivMod(LE(prv), c.Q);
  }

  /** Public keys are derived as the signature code derives them, with one more error for the length. */
  lemma DerivesPublicKey(c: Curve, prv: seq<Octet>)
    requires AgreementCurve(c)
    ensures DeriveSpec(c, prv).Ok? <==> |prv| == PointSize(c) && PublicKeySpec(c, prv).Some?
    ensures DeriveSpec(c, prv).Ok? ==> PublicKeySpec(c, prv) == Some(DeriveSpec(c, prv).value)
  {
    hide Add, IsOnCurve, IsPrime, Times, BE, Pow, Fits, ToBE;
    ModReduced(0, c.Q);
  }

  /** They are the coordinates of key·G. */
  lemma DerivesExactly(c: Curve, prv: seq<Octet>)
    requires AgreementCurve(c)
    ensures var K := Times(c, LE(prv), c.Base());
            && (DeriveSpec(c, prv).Ok? ==> K.Affine?)
            && (|prv| == PointSize(c) && LE(prv) % c.Q != 0 ==>
                  DeriveSpec(c, prv) == if K.Infinity? then Err(DerivedIdentity) else Ok(Coordinates(c, K)))
  {
    hide Add, IsOnCurve, IsPrime, Times, BE, Pow, Fits, Coordinates, EncodePoint;
    TimesMod(c, LE(prv), c.Q, c.Base());
    SameEncoding(c, Times(c, LE(prv), c.Base()));
    if |prv| == PointSize(c) && LE(prv) % c.Q != 0 { PrivateIs(c, prv); }
  }
}
