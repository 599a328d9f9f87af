/** VKO key agreement (vko.go, section 4.3 of RFC 7836), with the hash abstract. */
module Vko {
  import opened ModArith
  import opened Bytes
  import opened FieldModel
  import opened AffineCurve
  import opened CompleteFormulas
  import opened CurveGroup
  import opened ConstantTimeScalar
  import opened WindowExactness
  import opened Signature

  datatype Error = ZeroPrivate | BadPrivLen | BadPubLen | PubNotOn | ZeroUkm | IdentityPoint
                 | DerivedIdentity | UnsupportedCofactor

  datatype Result<+T> = Ok(value: T) | Err(error: Error)

  /** A curve all of whose points are killed by cofactor·Q, with a base point of prime order Q past
      the largest multiple in the window table. */
  ghost predicate AgreementCurve(c: Curve)
  {
    && c.Valid() && c.NonSingular() && Associative(c) && Fits(c)
    && IsPrime(c.Q) && c.Q > 13
    && IsOnCurve(c, c.Base()) && Times(c, c.Q, c.Base()) == Infinity
    && c.P <= Pow(256, PointSize(c))
    && (c.cofactor == 1 || c.cofactor == 4 ==>
          forall p :: IsOnCurve(c, p) ==> Times(c, c.cofactor * c.Q, p) == Infinity)
  }

  function EncodePoint(c: Curve, p: Point): (b: seq<Octet>)
    requires c.P > 0 && p.Affine? && IsOnCurve(c, p)
  {
    var q := CoordinateNat(c, p);
    Reversed(ToBE(q.x, PointSize(c))) + Reversed(ToBE(q.y, PointSize(c)))
  }

  // ------------------------------------------------------------ specifications

  function PrivateSpec(c: Curve, raw: seq<Octet>): (r: Result<nat>)
    requires c.Q > 1
    ensures r.Ok? ==> 0 < r.value < c.Q
  {
    if |raw| != PointSize(c) then Err(BadPrivLen)
    else if LE(raw) == 0 then Err(ZeroPrivate)
    else if Scalar(c.Q, LE(raw)) == 0 then Err(ZeroPrivate)
    else Ok(Scalar(c.Q, LE(raw)))
  }

  function PublicSpec(c: Curve, raw: seq<Octet>): (r: Result<Point>)
    requires c.P > 0
    ensures r.Ok? ==> IsOnCurve(c, r.value) && r.value.Affine?
  {
    var ps := PointSize(c);
    if |raw| != 2 * ps then Err(BadPubLen)
    else
      var p := Affine(LE(raw[..ps]), LE(raw[ps..]));
      if IsOnCurve(c, p) then Ok(p) else Err(PubNotOn)
  }

  /** The agreement as a function of K1 = d·Q and the UKM. */
  function FinishSpec(c: Curve, k1: Point, ukm: nat): Result<seq<Octet>>
    requires c.Valid() && c.Q > 1 && IsOnCurve(c, k1)
  {
    if ukm == 0 then Err(ZeroUkm)
    else if k1.Infinity? then Err(IdentityPoint)
    else if c.cofactor != 1 && c.cofactor != 4 then Err(UnsupportedCofactor)
    else
      var u := Scalar(c.cofactor * c.Q, ukm * c.cofactor);
      var k := Times(c, u, k1);
      if u == 0 || k.Infinity? then Err(IdentityPoint) else Ok(EncodePoint(c, k))
  }

  /** The private scalar and the peer point, the private key's errors first. */
  function KeysSpec(c: Curve, prv: seq<Octet>, pub: seq<Octet>): (r: Result<(nat, Point)>)
    requires c.Valid() && c.Q > 1
    ensures r.Ok? ==> 0 < r.value.0 < c.Q && IsOnCurve(c, r.value.1) && r.value.1.Affine?
  {
    match PrivateSpec(c, prv)
    case Err(e) => Err(e)
    case Ok(d) =>
      match PublicSpec(c, pub)
      case Err(e) => Err(e)
      case Ok(q) => Ok((d, q))
  }

  function Hashed(raw: Result<seq<Octet>>, hash: seq<Octet> -> seq<Octet>): Result<seq<Octet>>
  {
    match raw
    case Err(e) => Err(e)
    case Ok(b) => Ok(hash(b))
  }

  function KekSpec(c: Curve, prv: seq<Octet>, pub: seq<Octet>, ukm: seq<Octet>, hash: seq<Octet> -> seq<Octet>)
    : Result<seq<Octet>>
    requires c.Valid() && c.Q > 1
  {
    match KeysSpec(c, prv, pub)
    case Err(e) => Err(e)
    case Ok((d, q)) => Hashed(FinishSpec(c, Times(c, d, q), LE(ukm)), hash)
  }

  function DeriveSpec(c: Curve, prv: seq<Octet>): Result<seq<Octet>>
    requires c.Valid() && c.Q > 1 && IsOnCurve(c, c.Base())
  {
    match PrivateSpec(c, prv)
    case Err(e) => Err(e)
    case Ok(d) =>
      var q := Times(c, d, c.Base());
      if q.Infinity? then Err(DerivedIdentity) else Ok(EncodePoint(c, q))
  }

  // ------------------------------------------------------------------- the code

  method LoadPrivateLE(c: Curve, raw: seq<Octet>) returns (r: Result<nat>)
    requires c.Q > 1
    ensures r == PrivateSpec(c, raw)
  {
    hide BE;
    if |raw| != PointSize(c) { return Err(BadPrivLen); }
    var rev := Reverse(raw);
    var d := BE(rev);
    if d == 0 { return Err(ZeroPrivate); }
    d := Scalar(c.Q, d);
    if d == 0 { return Err(ZeroPrivate); }
    r := Ok(d);
  }

  method LoadPublicLE(c: Curve, raw: seq<Octet>) returns (r: Result<Point>)
    requires c.P > 0
    ensures r == PublicSpec(c, raw)
  {
    hide BE, IsOnCurve;
    var size := PointSize(c);
    if |raw| != 2 * size { return Err(BadPubLen); }
    var xb := Reverse(raw[..size]);
    var yb := Reverse(raw[size..]);
    var p := Affine(BE(xb), BE(yb));
    if !IsOnCurve(c, p) { return Err(PubNotOn); }
    r := Ok(p);
  }

  /** Fixed-width little-endian bytes of n, through a right-aligned big-endian buffer. */
  method Big2LeFixed(n: nat, size: nat) returns (out: seq<Octet>)
    requires n < Pow(256, size)
    ensures out == Reversed(ToBE(n, size))
  {
    var fixed := new Octet[size];
    FillBE(fixed, 0, size, n);
    assert fixed[0..size] == fixed[..];
    out := Reverse(fixed[..]);
  }

  /** The agreement on whatever multiple the chosen path returns, which for the two supported
      cofactors is the agreement on d·q, whatever the order of the peer's point q. */
  method AgreementRaw(c: Curve, d: nat, ukm: nat, q: Point) returns (r: Result<seq<Octet>>)
    requires AgreementCurve(c) && IsOnCurve(c, q) && 0 < d < c.Q
    ensures r == FinishSpec(c, SecretMultiple(c, d, q), ukm)
    ensures c.cofactor == 1 || c.cofactor == 4 || !c.constantTime ==> r == FinishSpec(c, Times(c, d, q), ukm)
  {
    hide Add, IsOnCurve, IsPrime, Times, HasOddOrder, SecretMultiple, Fits, ScalarFits;
    if ukm == 0 { return Err(ZeroUkm); }
    SecretFits(c, d);
    var k1 := ScalarMultSecret(c, d, q);
    if c.cofactor == 1 || c.cofactor == 4 || !c.constantTime { SecretAgreement(c, d, q, ukm); }
    if k1.Infinity? { return Err(IdentityPoint); }
    if c.cofactor != 1 && c.cofactor != 4 { return Err(UnsupportedCofactor); }
    var cof := c.cofactor;
    var u := Scalar(cof * c.Q, ukm * cof);
    if u == 0 { return Err(IdentityPoint); }
    var k: Point;
    if u == 1 {
      k := k1;
      TimesSingle(c, k1);
    } else {
      k := ScalarMult(c, u, k1);
    }
    if k.Infinity? { return Err(IdentityPoint); }
    var xy := CoordinateNat(c, k);
    var x := Big2LeFixed(xy.x, PointSize(c));
    var y := Big2LeFixed(xy.y, PointSize(c));
    r := Ok(x + y);
  }

  lemma SecretFits(c: Curve, d: nat)
    requires AgreementCurve(c) && d < c.Q
    ensures ScalarFits(c, d)
  {
    hide Fits, ScalarFits, Pow;
    BitLenBound(c.Q);
    OrderFits(c, d);
  }

  /** Either the secret multiple is exact or the specification fails just as the code does: a peer
      point of order two or four is killed by the cofactor. */
  lemma SecretAgreement(c: Curve, d: nat, q: Point, ukm: nat)
    requires AgreementCurve(c) && IsOnCurve(c, q) && 0 < d < c.Q && ukm > 0
    requires c.cofactor == 1 || c.cofactor == 4 || !c.constantTime
    ensures SecretMultiple(c, d, q) == Times(c, d, q)
         || (SecretMultiple(c, d, q) == Infinity && FinishSpec(c, Times(c, d, q), ukm) == Err(IdentityPoint))
  {
    hide Add, IsOnCurve, IsPrime, Times, HasOddOrder, EncodePoint, Fits, Pow, CtMultiple, FinishSpec;
    if c.constantTime {
      if c.cofactor == 1 {
        OddPrimeOrder(c.Q);
        BitLenBound(c.Q);
        KilledByOdd(c, q);
        OddOrderCt(c, q, d);
      } else {
        CtBelowOrder(c, q, d);
        if Times(c, 4, q) == Infinity { KilledByCofactor(c, d, q, ukm); }
      }
    }
  }

  lemma KilledByOdd(c: Curve, q: Point)
    requires AgreementCurve(c) && IsOnCurve(c, q) && c.cofactor == 1 && c.Q % 2 == 1
    ensures HasOddOrder(c, q)
  {
    hide Times, IsOnCurve, IsPrime;
    assert c.cofactor * c.Q == c.Q;
    assert Times(c, c.Q, q) == Infinity;
  }

  lemma KilledByCofactor(c: Curve, d: nat, q: Point, ukm: nat)
    requires AgreementCurve(c) && IsOnCurve(c, q) && ukm > 0 && c.cofactor == 4 && Times(c, 4, q) == Infinity
    ensures FinishSpec(c, Times(c, d, q), ukm) == Err(IdentityPoint)
  {
    hide Add, IsOnCurve, IsPrime, Times, EncodePoint, Fits, Scalar;
    var k1 := Times(c, d, q);
    ReductionPreservesPoint(c, k1, ukm);
    TimesTimes(c, ukm, 4, k1);
    TimesCommutes(c, 4, d, q);
    TimesInfinity(c, d);
    TimesInfinity(c, ukm);
  }

  /** The key encryption key of the specification for every peer key; for a cofactor the agreement does
      not support, the error that follows from the multiple of the chosen path. */
  method Kek(c: Curve, prv: seq<Octet>, pub: seq<Octet>, ukmRaw: seq<Octet>, hash: seq<Octet> -> seq<Octet>)
    returns (r: Result<seq<Octet>>)
    requires AgreementCurve(c)
    ensures c.cofactor == 1 || c.cofactor == 4 || !c.constantTime ==> r == KekSpec(c, prv, pub, ukmRaw, hash)
    ensures r == match KeysSpec(c, prv, pub)
      case Err(e) => Err(e)
      case Ok((d, q)) => Hashed(FinishSpec(c, SecretMultiple(c, d, q), LE(ukmRaw)), hash)
    ensures c.cofactor != 1 && c.cofactor != 4 ==> r.Err?
  {
    hide Add, IsOnCurve, IsPrime, Times, PrivateSpec, PublicSpec, BE, SecretMultiple, Fits;
    var d := LoadPrivateLE(c, prv);
    if d.Err? { return Err(d.error); }
    var q := LoadPublicLE(c, pub);
    if q.Err? { return Err(q.error); }
    var rev := Reverse(ukmRaw);
    var raw := AgreementRaw(c, d.value, BE(rev), q.value);
    if raw.Err? { return Err(raw.error); }
    r := Ok(hash(raw.value));
  }

  method DeriveQLE(c: Curve, prv: seq<Octet>) returns (r: Result<seq<Octet>>)
    requires AgreementCurve(c)
    ensures r == DeriveSpec(c, prv)
  {
    hide Add, IsOnCurve, IsPrime, Times, BE, HasOddOrder, SecretMultiple, Fits, ScalarFits;
    var d := LoadPrivateLE(c, prv);
    if d.Err? { return Err(d.error); }
    BaseMultiple(c, d.value);
    var q := ScalarMultSecret(c, d.value, c.Base());
    if q.Infinity? { return Err(DerivedIdentity); }
    var xy := CoordinateNat(c, q);
    var x := Big2LeFixed(xy.x, PointSize(c));
    var y := Big2LeFixed(xy.y, PointSize(c));
    r := Ok(x + y);
  }

  // --------------------------------------------------------------- the theorems

  /** Reducing UKM·cofactor modulo cofactor·q never changes the agreement point. */
  lemma ReductionPreservesPoint(c: Curve, p: Point, ukm: nat)
    requires AgreementCurve(c) && IsOnCurve(c, p) && (c.cofactor == 1 || c.cofactor == 4)
    ensures Times(c, Scalar(c.cofactor * c.Q, ukm * c.cofactor), p) == Times(c, ukm * c.cofactor, p)
  {
    hide Add, IsOnCurve, IsPrime, Times;
    TimesMod(c, ukm * c.cofactor, c.cofactor * c.Q, p);
  }

  /** The whole agreement is one multiplication by UKM·cofactor·d, failing exactly on the identity:
      the early exits for d·Q and for the reduced multiplier lose and add nothing. */
  lemma AgreementIsOneMultiple(c: Curve, d: nat, q: Point, ukm: nat, m: nat, n: nat)
    requires n == m * d && m == ukm * c.cofactor && ukm > 0
    requires AgreementCurve(c) && IsOnCurve(c, q) && (c.cofactor == 1 || c.cofactor == 4)
    ensures var K := Times(c, n, q);
            FinishSpec(c, Times(c, d, q), ukm) == if K.Infinity? then Err(IdentityPoint) else Ok(EncodePoint(c, K))
  {
    hide Add, IsOnCurve, IsPrime, Times, EncodePoint, Scalar, Fits;
    var k1 := Times(c, d, q);
    ReductionPreservesPoint(c, k1, ukm);
    TimesTimes(c, m, d, q);
    TimesInfinity(c, m);
    TimesNone(c, k1);
  }

  /** A derived public key decodes to the multiple of the base point it encodes. */
  lemma DerivedKeyDecodes(c: Curve, prv: seq<Octet>)
    requires AgreementCurve(c) && DeriveSpec(c, prv).Ok?
    ensures PublicSpec(c, DeriveSpec(c, prv).value) == Ok(Times(c, PrivateSpec(c, prv).value, c.Base()))
  {
    hide Add, Times, IsPrime, BE, PrivateSpec;
    var ps, raw := PointSize(c), DeriveSpec(c, prv).value;
    var pub := CoordinateNat(c, Times(c, PrivateSpec(c, prv).value, c.Base()));
    LEOfReversed(pub.x, ps);
    LEOfReversed(pub.y, ps);
    var a, b := Reversed(ToBE(pub.x, ps)), Reversed(ToBE(pub.y, ps));
    assert raw[..ps] == a && raw[ps..] == b;
  }

  /** Derived public keys are always points the constant-time path multiplies correctly. */
  lemma DerivedKeyHasOddOrder(c: Curve, d: nat)
    requires AgreementCurve(c)
    ensures HasOddOrder(c, Times(c, d, c.Base()))
  {
    hide Add, IsOnCurve, IsPrime, Times;
    OddPrimeOrder(c.Q);
    TimesCommutes(c, c.Q, d, c.Base());
    TimesInfinity(c, d);
  }

  /** Both parties obtain the same key encryption key, or fail with the same error. */
  lemma AgreementIsSymmetric(c: Curve, prvA: seq<Octet>, prvB: seq<Octet>, ukm: seq<Octet>, hash: seq<Octet> -> seq<Octet>)
    requires AgreementCurve(c) && DeriveSpec(c, prvA).Ok? && DeriveSpec(c, prvB).Ok?
    ensures KekSpec(c, prvA, DeriveSpec(c, prvB).value, ukm, hash) == KekSpec(c, prvB, DeriveSpec(c, prvA).value, ukm, hash)
  {
    DerivedKeyDecodes(c, prvA);
    DerivedKeyDecodes(c, prvB);
    hide Add, IsOnCurve, IsPrime, Times, PublicSpec, FinishSpec, PrivateSpec, EncodePoint;
    TimesCommutes(c, PrivateSpec(c, prvA).value, PrivateSpec(c, prvB).value, c.Base());
  }
}
