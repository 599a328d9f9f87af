/** GOST R 34.10 signatures (gost3410sign.go, sections 6.1 and 6.2 of RFC 7091): signing,
    verification and public-key derivation through their byte encodings. */
module Signature {
  import opened ModArith
  import opened Bytes
  import opened FieldModel
  import opened AffineCurve
  import opened CurveGroup
  import opened ConstantTimeScalar
  import opened WindowExactness

  /** Serialized coordinate size in bytes. */
  function PointSize(c: Curve): nat
  {
    if BitLen(if c.P < 0 then 0 else c.P) > 256 then 64 else 32
  }

  /** A curve whose base point generates a group of odd prime order Q that fits the point size. */
  ghost predicate SignatureCurve(c: Curve)
  {
    && c.Valid() && c.NonSingular() && Associative(c) && Fits(c)
    && IsOnCurve(c, c.Base())
    && IsPrime(c.Q) && c.Q > 2 && Times(c, c.Q, c.Base()) == Infinity
    && c.P <= Pow(256, PointSize(c)) && c.Q <= Pow(256, PointSize(c))
  }

  /** The digest as an integer modulo q, with 0 replaced by 1. */
  function DigestScalar(q: int, digest: seq<Octet>): (e: int)
    requires q > 1
    ensures 0 < e < q
  {
    DivMod(BE(digest), q);
    var e := BE(digest) % q;
    if e == 0 then 1 else e
  }

  /** The key or nonce as an integer modulo q. */
  function Scalar(q: int, v: nat): (d: nat)
    requires q > 1
    ensures d < q
  {
    DivMod(v, q);
    v % q
  }

  /** r = x(k·G) mod q and s = (r*d + k*e) mod q, unless the inputs are degenerate. */
  function SignPair(c: Curve, d: nat, e: int, k: nat): (r: Option<(nat, nat)>)
    requires c.Valid() && IsOnCurve(c, c.Base()) && c.Q > 1 && d < c.Q && 0 < e < c.Q && k < c.Q
    ensures r.Some? ==> 0 < r.value.0 < c.Q && 0 < r.value.1 < c.Q
  {
    var C := Times(c, k, c.Base());
    if d == 0 || k == 0 || C.Infinity? then None
    else
      var r := Scalar(c.Q, C.x);
      DivMod(r * d + k * e, c.Q);
      var s := (r * d + k * e) % c.Q;
      if r == 0 || s == 0 then None else Some((r, s))
  }

  function SignSpec(c: Curve, prv: seq<Octet>, digest: seq<Octet>, k: seq<Octet>): Option<seq<Octet>>
    requires c.Valid() && IsOnCurve(c, c.Base()) && c.Q > 1
  {
    match SignPair(c, Scalar(c.Q, LE(prv)), DigestScalar(c.Q, digest), Scalar(c.Q, BE(k)))
    case None => None
    case Some(rs) => Some(ToBE(rs.1, PointSize(c)) + ToBE(rs.0, PointSize(c)))
  }

  function PublicKeySpec(c: Curve, prv: seq<Octet>): Option<seq<Octet>>
    requires c.Valid() && IsOnCurve(c, c.Base()) && c.Q > 1
  {
    var d := Scalar(c.Q, LE(prv));
    var pub := Times(c, d, c.Base());
    if d == 0 || pub.Infinity? then None
    else Some(Reversed(ToBE(pub.x, PointSize(c))) + Reversed(ToBE(pub.y, PointSize(c))))
  }

  /** z1 = s/e and z2 = -r/e modulo q. */
  function VerifyScalars(q: int, r: nat, s: nat, v: int): (z: (nat, nat))
    requires q > 1
  {
    DivMod(s * v, q);
    DivMod(r * v, q);
    DivMod(q - r * v % q, q);
    (s * v % q, (q - r * v % q) % q)
  }

  lemma ScalarsDefined(q: int, r: nat, s: nat, v: int)
    requires q > 1
    ensures VerifyScalars(q, r, s, v).0 == s * v % q && VerifyScalars(q, r, s, v).1 == (q - r * v % q) % q
  {
  }

  function VerifySpec(c: Curve, pubRaw: seq<Octet>, digest: seq<Octet>, sig: seq<Octet>): bool
    requires c.Valid() && IsOnCurve(c, c.Base()) && c.Q > 1
  {
    var ps := PointSize(c);
    if |sig| != 2 * ps || |pubRaw| != 2 * ps then false
    else
      var s, r := BE(sig[..ps]), BE(sig[ps..]);
      var pub := Affine(LE(pubRaw[..ps]), LE(pubRaw[ps..]));
      if r == 0 || r >= c.Q || s == 0 || s >= c.Q || !IsOnCurve(c, pub) then false
      else
        match ModInverse(DigestScalar(c.Q, digest), c.Q)
        case None => false
        case Some(v) =>
          var (z1, z2) := VerifyScalars(c.Q, r, s, v);
          var C := Add(c, Times(c, z1, c.Base()), Times(c, z2, pub));
          C.Affine? && C.x % c.Q == r
  }

  // ------------------------------------------------------------------- the code

  /** What either path returns for k > 0. */
  ghost function SecretMultiple(c: Curve, k: nat, p: Point): (r: Point)
    requires c.Valid() && IsOnCurve(c, p)
    ensures IsOnCurve(c, r)
  {
    if c.constantTime then CtMultiple(c, k, p) else Times(c, k, p)
  }

  /** Secret-scalar multiplication, constant-time when the curve asks for it: on every point of the
      curve, and k·p whenever the point has odd order and k at most bitlen(Q) bits. */
  method ScalarMultSecret(c: Curve, k: int, p: Point) returns (r: Point)
    requires c.Valid() && Associative(c) && IsOnCurve(c, p)
    requires c.constantTime ==> c.NonSingular() && Fits(c) && ScalarFits(c, k)
    ensures r == if k <= 0 then Infinity else SecretMultiple(c, k, p)
    ensures k > 0 && (c.constantTime ==> HasOddOrder(c, p) && k < Pow(2, OrderBits(c))) ==> r == Times(c, k, p)
  {
    hide Add, IsOnCurve, IsPrime, HasOddOrder, Times, CtMultiple, Pow;
    if c.constantTime {
      r := ScalarMultCT(c, k, p);
      if k > 0 && HasOddOrder(c, p) && k < Pow(2, OrderBits(c)) { OddOrderCt(c, p, k); }
    } else {
      r := ScalarMult(c, k, p);
    }
  }

  /** Scalars below q multiply the base point the same way on either path. */
  method BaseMultSecret(c: Curve, k: nat) returns (r: Point)
    requires SignatureCurve(c) && k < c.Q
    ensures r == Times(c, k, c.Base())
  {
    hide Add, IsOnCurve, IsPrime, HasOddOrder, Times, CtMultiple, Pow;
    BaseMultiple(c, k);
    r := ScalarMultSecret(c, k, c.Base());
  }

  lemma BaseMultiple(c: Curve, k: nat)
    requires c.Valid() && Associative(c) && Fits(c) && IsOnCurve(c, c.Base()) && IsPrime(c.Q) && c.Q > 2
    requires Times(c, c.Q, c.Base()) == Infinity && k < c.Q
    ensures HasOddOrder(c, c.Base()) && k < Pow(2, OrderBits(c)) && ScalarFits(c, k)
    ensures Times(c, 0, c.Base()) == Infinity
  {
    hide Add, IsOnCurve, IsPrime, Pow, ScalarFits, Fits;
    OddPrimeOrder(c.Q);
    BitLenBound(c.Q);
    OrderFits(c, k);
    TimesOne(c, c.Base());
  }

  lemma OddPrimeOrder(q: int)
    requires IsPrime(q) && q > 2
    ensures q % 2 == 1
  {
    assert q % 2 != 0;
  }

  method SignDigest(c: Curve, prv: seq<Octet>, digest: seq<Octet>, k: seq<Octet>) returns (sig: Option<seq<Octet>>)
    requires SignatureCurve(c)
    ensures sig == SignSpec(c, prv, digest, k)
  {
    hide Add, IsOnCurve, IsPrime, Times, BE;
    var q := c.Q;
    var ps := PointSize(c);
    var rev := Reverse(prv);
    var d := Scalar(q, BE(rev));
    if d == 0 { return None; }
    var e := DigestScalar(q, digest);
    var kk := Scalar(q, BE(k));
    if kk == 0 { return None; }
    var C := BaseMultSecret(c, kk);
    if C.Infinity? { return None; }
    var r := Scalar(q, CoordinateNat(c, C).x);
    if r == 0 { return None; }
    DivMod(r * d + kk * e, q);
    var s := (r * d + kk * e) % q;
    if s == 0 { return None; }
    var out := new Octet[2 * ps];
    FillBE(out, 0, ps, s);
    FillBE(out, ps, 2 * ps, r);
    assert out[0..ps] == out[..ps] && out[ps..2 * ps] == out[ps..] && out[..] == out[..ps] + out[ps..];
    sig := Some(out[..]);
  }

  /** Coordinates of curve points are natural numbers. */
  function CoordinateNat(c: Curve, p: Point): (r: Point)
    requires c.P > 0 && IsOnCurve(c, p)
    ensures r == p && (r.Affine? ==> 0 <= r.x < c.P && 0 <= r.y < c.P)
  {
    p
  }

  method VerifyDigest(c: Curve, pubRaw: seq<Octet>, digest: seq<Octet>, sig: seq<Octet>) returns (ok: bool)
    requires SignatureCurve(c)
    ensures ok == VerifySpec(c, pubRaw, digest, sig)
  {
    hide Add, Times, IsPrime, ModInverse, BE, IsOnCurve;
    var q := c.Q;
    var ps := PointSize(c);
    if |sig| != 2 * ps || |pubRaw| != 2 * ps { return false; }
    var s := BE(sig[..ps]);
    var r := BE(sig[ps..]);
    if r <= 0 || r >= q || s <= 0 || s >= q { return false; }
    var xb := Reverse(pubRaw[..ps]);
    var yb := Reverse(pubRaw[ps..]);
    var pub := Affine(BE(xb), BE(yb));
    if !IsOnCurve(c, pub) { return false; }
    var e := DigestScalar(q, digest);
    var vo := ModInverse(e, q);
    if vo == None { return false; }
    var v := vo.value;
    DivMod(s * v, q);
    DivMod(r * v, q);
    var z1 := s * v % q;
    var z2 := r * v % q;
    z2 := q - z2;
    DivMod(z2, q);
    z2 := z2 % q;
    var p1 := ScalarMult(c, z1, c.Base());
    var p2 := ScalarMult(c, z2, pub);
    TimesNone(c, c.Base());
    TimesNone(c, pub);
    var C := Add(c, p1, p2);
    if C.Infinity? { return false; }
    ok := C.x % q == r;
  }

  lemma TimesNone(c: Curve, p: Point)
    requires c.Valid() && IsOnCurve(c, p)
    ensures Times(c, 0, p) == Infinity
  {
  }

  method PublicKeyRaw(c: Curve, prv: seq<Octet>) returns (pubRaw: Option<seq<Octet>>)
    requires SignatureCurve(c)
    ensures pubRaw == PublicKeySpec(c, prv)
  {
    hide Add, IsOnCurve, IsPrime, Times, BE;
    var q := c.Q;
    var ps := PointSize(c);
    var rev := Reverse(prv);
    var d := Scalar(q, BE(rev));
    if d == 0 { return None; }
    var pub := BaseMultSecret(c, d);
    if pub.Infinity? { return None; }
    var xy := CoordinateNat(c, pub);
    var out := new Octet[2 * ps];
    PutLE(out, 0, ps, xy.x);
    PutLE(out, ps, 2 * ps, xy.y);
    assert out[0..ps] == out[..ps] && out[ps..2 * ps] == out[ps..] && out[..] == out[..ps] + out[ps..];
    pubRaw := Some(out[..]);
  }

  // --------------------------------------------------------------- the theorems

  /** The point verification computes, in terms of the private key d: ((s - r*d)/e)·G. */
  lemma VerificationPoint(c: Curve, d: nat, r: nat, s: nat, e: int, v: int, t: nat)
    requires SignatureCurve(c) && d < c.Q && 0 < r < c.Q && 0 < s < c.Q
    requires (e * v) % c.Q == 1 && t < c.Q && Cong(e * t, s - r * d, c.Q)
    ensures var (z1, z2) := VerifyScalars(c.Q, r, s, v);
            Add(c, Times(c, z1, c.Base()), Times(c, z2, Times(c, d, c.Base()))) == Times(c, t, c.Base())
  {
    hide Add, IsOnCurve, IsPrime, Times, Cong, Fits, Pow, VerifyScalars;
    var q, G := c.Q, c.Base();
    var (z1, z2) := VerifyScalars(q, r, s, v);
    ScalarsDefined(q, r, s, v);
    VerificationScalar(q, d, r, s, e, v, t, z1, z2);
    ModReduced(t, q);
    MulMono(0, z2, d);
    SumOfMultiples(c, z1, z2, d, z2 * d, t);
  }

  lemma SumOfMultiples(c: Curve, z1: nat, z2: nat, d: nat, w: nat, t: nat)
    requires SignatureCurve(c) && w == z2 * d && (z1 + w) % c.Q == t
    ensures Add(c, Times(c, z1, c.Base()), Times(c, z2, Times(c, d, c.Base()))) == Times(c, t, c.Base())
  {
    hide Add, IsOnCurve, IsPrime, Times, Fits, Pow;
    TimesTimes(c, z2, d, c.Base());
    TimesAdd(c, z1, w, c.Base());
    TimesMod(c, z1 + w, c.Q, c.Base());
  }

  /** z1 + z2*d is t modulo q. */
  lemma VerificationScalar(q: int, d: int, r: int, s: int, e: int, v: int, t: int, z1: int, z2: int)
    requires q > 1 && z1 == s * v % q && z2 == (q - r * v % q) % q
    requires (e * v) % q == 1 && Cong(e * t, s - r * d, q)
    ensures (z1 + z2 * d) % q == t % q
  {
    hide Cong;
    ScalarSum(q, d, r, s, v, z1, z2);
    CongRefl(v, q);
    CongMul(v, v, e * t, s - r * d, q);
    CongSym(v * (e * t), v * (s - r * d), q);
    UnitTimes(q, e, v, t);
    CongTrans(z1 + z2 * d, v * (s - r * d), v * (e * t), q);
    CongTrans(z1 + z2 * d, v * (e * t), t, q);
    CongIffModEq(z1 + z2 * d, t, q);
  }

  lemma ScalarSum(q: int, d: int, r: int, s: int, v: int, z1: int, z2: int)
    requires q > 1 && z1 == s * v % q && z2 == (q - r * v % q) % q
    ensures Cong(z1 + z2 * d, v * (s - r * d), q)
  {
    CongMod(s * v, q);
    CongMod(r * v, q);
    CongMod(q - r * v % q, q);
    CongIntro(q, 0, q, 1);
    hide Cong;
    CongAdd(q, 0, r * v % q, r * v, q);
    CongTrans(z2, q - r * v % q, 0 - r * v, q);
    CongRefl(d, q);
    CongMul(z2, -(r * v), d, d, q);
    CongAdd(z1, s * v, z2 * d, -(r * v) * d, q);
    assert s * v + -(r * v) * d == v * (s - r * d);
  }

  lemma UnitTimes(q: int, e: int, v: int, t: int)
    requires q > 1 && (e * v) % q == 1
    ensures Cong(v * (e * t), t, q)
  {
    ModReduced(1, q);
    CongIffModEq(e * v, 1, q);
    CongRefl(t, q);
    CongMul(e * v, 1, t, t, q);
    assert v * (e * t) == (e * v) * t;
  }

  /** A raw public key decodes to the point it was derived from. */
  lemma PublicKeyDecodes(c: Curve, prv: seq<Octet>)
    requires SignatureCurve(c) && PublicKeySpec(c, prv).Some?
    ensures var ps, raw := PointSize(c), PublicKeySpec(c, prv).value;
            && |raw| == 2 * ps
            && Affine(LE(raw[..ps]), LE(raw[ps..])) == Times(c, Scalar(c.Q, LE(prv)), c.Base())
  {
    hide Add, Times, IsPrime, BE;
    var ps, raw := PointSize(c), PublicKeySpec(c, prv).value;
    var pub := CoordinateNat(c, Times(c, Scalar(c.Q, LE(prv)), c.Base()));
    LEOfReversed(pub.x, ps);
    LEOfReversed(pub.y, ps);
    var a, b := Reversed(ToBE(pub.x, ps)), Reversed(ToBE(pub.y, ps));
    assert raw[..ps] == a && raw[ps..] == b;
  }

  /** The public key exists for every private key that is nonzero modulo q. */
  lemma PublicKeyExists(c: Curve, d: nat)
    requires SignatureCurve(c) && 0 < d < c.Q && c.Base().Affine?
    ensures Times(c, d, c.Base()).Affine?
  {
    hide Add, IsOnCurve, Times;
    var q, G := c.Q, c.Base();
    if Times(c, d, G).Infinity? {
      // The inverse of d modulo q would make G itself the identity.
      ModReduced(d, q);
      PrimeInverse(d, q);
      var v := ModInverse(d, q).value;
      TimesTimes(c, v, d, G);
      TimesInfinity(c, v);
      assert v * d == d * v;
      TimesMod(c, v * d, q, G);
      TimesSingle(c, G);
      assert false;
    }
  }

  lemma TimesSingle(c: Curve, p: Point)
    requires c.Valid() && IsOnCurve(c, p)
    ensures Times(c, 1, p) == p
  {
    assert Times(c, 1, p) == Add(c, Times(c, 0, p), p);
  }

  /** Verification under the public key of d accepts (s, r) exactly when r is the abscissa,
      modulo q, of ((s - r*d)/e)·G. */
  lemma AcceptanceCriterion(c: Curve, prv: seq<Octet>, digest: seq<Octet>, r: nat, s: nat, t: nat)
    requires SignatureCurve(c) && PublicKeySpec(c, prv).Some? && 0 < r < c.Q && 0 < s < c.Q && t < c.Q
    requires Cong(DigestScalar(c.Q, digest) * t, s - r * Scalar(c.Q, LE(prv)), c.Q)
    ensures var ps := PointSize(c);
            var C := Times(c, t, c.Base());
            VerifySpec(c, PublicKeySpec(c, prv).value, digest, ToBE(s, ps) + ToBE(r, ps)) <==> (C.Affine? && C.x % c.Q == r)
  {
    hide Add, Times, IsPrime, BE, IsOnCurve, VerifyScalars;
    var ps, q := PointSize(c), c.Q;
    var sig := ToBE(s, ps) + ToBE(r, ps);
    BEToBE(s, ps);
    BEToBE(r, ps);
    assert sig[..ps] == ToBE(s, ps) && sig[ps..] == ToBE(r, ps);
    PublicKeyDecodes(c, prv);
    var e := DigestScalar(q, digest);
    ModReduced(e, q);
    PrimeInverse(e, q);
    VerificationPoint(c, Scalar(q, LE(prv)), r, s, e, ModInverse(e, q).value, t);
  }

  /** Every signature that SignDigest returns is accepted under the signer's public key. */
  lemma SignatureAccepted(c: Curve, prv: seq<Octet>, digest: seq<Octet>, k: seq<Octet>)
    requires SignatureCurve(c) && SignSpec(c, prv, digest, k).Some?
    ensures PublicKeySpec(c, prv).Some?
    ensures VerifySpec(c, PublicKeySpec(c, prv).value, digest, SignSpec(c, prv, digest, k).value)
  {
    hide Add, Times, IsPrime, BE, IsOnCurve, VerifySpec;
    var q := c.Q;
    var d, e, kk := Scalar(q, LE(prv)), DigestScalar(q, digest), Scalar(q, BE(k));
    var rs := SignPair(c, d, e, kk).value;
    PublicKeyExists(c, d);
    SignatureEquation(q, rs.0, d, kk, e, rs.1);
    AcceptanceCriterion(c, prv, digest, rs.0, rs.1, kk);
  }

  lemma SignatureEquation(q: int, r: int, d: int, k: int, e: int, s: int)
    requires q > 0 && s == (r * d + k * e) % q
    ensures Cong(e * k, s - r * d, q)
  {
    CongMod(r * d + k * e, q);
    CongRefl(r * d, q);
    CongAdd(s, r * d + k * e, r * d, r * d, q);
    CongSym(s - r * d, k * e, q);
    assert e * k == k * e;
  }
}
