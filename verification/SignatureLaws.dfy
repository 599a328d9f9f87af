/** What signing and verification mean on bytes (sections 6.1 and 6.2 of RFC 7091): private keys and
    public coordinates are little-endian, digests, nonces and signature halves big-endian. */
module SignatureLaws {
  import opened ModArith
  import opened Bytes
  import opened FieldModel
  import opened AffineCurve
  import opened CurveGroup
  import opened ConstantTimeScalar
  import opened Signature

  /** e is the digest as a scalar: its big-endian value modulo q, or 1 where q divides that value. */
  ghost predicate StandsForDigest(q: int, digest: seq<Octet>, e: int)
    requires q > 0
  {
    0 < e < q && (Cong(e, BE(digest), q) || (BE(digest) % q == 0 && e == 1))
  }

  lemma DigestIs(q: int, digest: seq<Octet>, e: int)
    requires q > 1 && StandsForDigest(q, digest, e)
    ensures DigestScalar(q, digest) == e
  {
    hide BE;
    CongIffModEq(e, BE(digest), q);
    ModReduced(e, q);
  }

  // ------------------------------------------------------------------------ signing

  /** The signature equations: with C the nonce's multiple of the base point, r is its abscissa
      modulo q and s is r times the private key plus the nonce times e. */
  ghost predicate Signs(c: Curve, prv: nat, e: int, k: nat, r: nat, s: nat)
    requires c.Valid() && IsOnCurve(c, c.Base()) && c.Q > 1
  {
    var C := Times(c, k, c.Base());
    && prv % c.Q != 0 && k % c.Q != 0
    && C.Affine? && C.x % c.Q == r && r != 0
    && 0 < s < c.Q && Cong(s, r * prv + k * e, c.Q)
  }

  /** Signing returns s and r exactly when they solve the equations. */
  lemma SignsExactly(c: Curve, prv: seq<Octet>, digest: seq<Octet>, k: seq<Octet>, e: int, r: nat, s: nat)
    requires SignatureCurve(c) && StandsForDigest(c.Q, digest, e)
    requires r < Pow(256, PointSize(c)) && s < Pow(256, PointSize(c))
    ensures SignSpec(c, prv, digest, k) == Some(ToBE(s, PointSize(c)) + ToBE(r, PointSize(c)))
       <==> Signs(c, LE(prv), e, BE(k), r, s)
  {
    hide Add, IsOnCurve, IsPrime, Times, BE, DigestScalar, Pow, Fits, StandsForDigest, SignPair, Signs;
    DigestIs(c.Q, digest, e);
    PairExactly(c, LE(prv), e, BE(k), r, s);
    var pair := SignPair(c, Scalar(c.Q, LE(prv)), e, Scalar(c.Q, BE(k)));
    if pair.Some? { HalvesDetermine(c, pair.value.1, pair.value.0, s, r); }
  }

  /** Two numbers of point size are determined by their encodings. */
  lemma HalvesDetermine(c: Curve, s: nat, r: nat, s': nat, r': nat)
    requires c.Q <= Pow(256, PointSize(c)) && s < c.Q && r < c.Q
    requires r' < Pow(256, PointSize(c)) && s' < Pow(256, PointSize(c))
    ensures var ps := PointSize(c);
            ToBE(s, ps) + ToBE(r, ps) == ToBE(s', ps) + ToBE(r', ps) ==> s == s' && r == r'
  {
    hide ToBE, BE, Pow;
    var ps := PointSize(c);
    BEToBE(s, ps);
    BEToBE(r, ps);
    BEToBE(s', ps);
    BEToBE(r', ps);
    var a, b := ToBE(s, ps) + ToBE(r, ps), ToBE(s', ps) + ToBE(r', ps);
    assert a[..ps] == ToBE(s, ps) && a[ps..] == ToBE(r, ps);
    assert b[..ps] == ToBE(s', ps) && b[ps..] == ToBE(r', ps);
  }

  lemma PairExactly(c: Curve, prv: nat, e: int, k: nat, r: nat, s: nat)
    requires SignatureCurve(c) && 0 < e < c.Q
    ensures SignPair(c, Scalar(c.Q, prv), e, Scalar(c.Q, k)) == Some((r, s)) <==> Signs(c, prv, e, k, r, s)
  {
    hide Add, IsOnCurve, IsPrime, Times, Fits, Pow, Cong;
    TimesMod(c, k, c.Q, c.Base());
    PairEquation(c.Q, prv, e, k, r, s);
  }

  /** Reducing the key and the nonce first does not change s. */
  lemma PairEquation(q: int, prv: nat, e: int, k: nat, r: int, s: int)
    requires q > 1
    ensures 0 <= s < q && Cong(s, r * prv + k * e, q) <==> s == (r * (prv % q) + k % q * e) % q
  {
    CongMod(prv, q);
    CongMod(k, q);
    CongRefl(r, q);
    CongRefl(e, q);
    CongMul(r, r, prv % q, prv, q);
    CongMul(k % q, k, e, e, q);
    CongAdd(r * (prv % q), r * prv, k % q * e, k * e, q);
    var u, v := r * (prv % q) + k % q * e, r * prv + k * e;
    CongIffModEq(u, v, q);
    CongIffModEq(s, v, q);
    DivMod(u, q);
    if 0 <= s < q { ModReduced(s, q); }
    if s == u % q { ModReduced(s, q); }
  }

  /** Signing fails exactly when no pair solves the equations: the key, the nonce, the abscissa or
      the resulting s is zero modulo q. */
  lemma SigningFails(c: Curve, prv: seq<Octet>, digest: seq<Octet>, k: seq<Octet>, e: int)
    requires SignatureCurve(c) && StandsForDigest(c.Q, digest, e)
    ensures var C := Times(c, BE(k), c.Base());
            SignSpec(c, prv, digest, k) == None <==>
              LE(prv) % c.Q == 0 || BE(k) % c.Q == 0 || C.Infinity? || C.x % c.Q == 0
              || (C.x % c.Q * LE(prv) + BE(k) * e) % c.Q == 0
  {
    hide Add, IsOnCurve, IsPrime, Times, BE, DigestScalar, Pow, Fits, StandsForDigest;
    var q, C := c.Q, Times(c, BE(k), c.Base());
    DigestIs(q, digest, e);
    TimesMod(c, BE(k), q, c.Base());
    if C.Affine? {
      PairRemainder(q, LE(prv), e, BE(k), C.x % q);
      DivMod(C.x, q);
    }
  }

  lemma PairRemainder(q: int, prv: nat, e: int, k: nat, r: int)
    requires q > 1
    ensures (r * (prv % q) + k % q * e) % q == (r * prv + k * e) % q
  {
    var s := (r * prv + k * e) % q;
    DivMod(r * prv + k * e, q);
    CongMod(r * prv + k * e, q);
    PairEquation(q, prv, e, k, r, s);
  }

  // -------------------------------------------------------------------- verification

  /** Verification accepts exactly the well-formed signatures for which z1·G + z2·pub has abscissa r
      modulo q, where e·z1 = s and e·z2 = -r modulo q. */
  lemma VerifiesExactly(c: Curve, pubRaw: seq<Octet>, digest: seq<Octet>, sig: seq<Octet>, e: int, z1: nat, z2: nat)
    requires SignatureCurve(c) && StandsForDigest(c.Q, digest, e) && z1 < c.Q && z2 < c.Q
    requires |sig| == 2 * PointSize(c) && |pubRaw| == 2 * PointSize(c)
    requires Cong(e * z1, BE(sig[..PointSize(c)]), c.Q) && Cong(e * z2 + BE(sig[PointSize(c)..]), 0, c.Q)
    ensures var ps := PointSize(c);
            var s, r, pub := BE(sig[..ps]), BE(sig[ps..]), Affine(LE(pubRaw[..ps]), LE(pubRaw[ps..]));
            VerifySpec(c, pubRaw, digest, sig) <==>
              && 0 < r < c.Q && 0 < s < c.Q && IsOnCurve(c, pub)
              && var C := Add(c, Times(c, z1, c.Base()), Times(c, z2, pub)); C.Affine? && C.x % c.Q == r
  {
    hide Add, Times, IsPrime, BE, IsOnCurve, VerifyScalars, StandsForDigest, DigestScalar, Pow, Fits, Cong;
    var ps, q := PointSize(c), c.Q;
    DigestIs(q, digest, e);
    ModReduced(e, q);
    PrimeInverse(e, q);
    var v := ModInverse(e, q).value;
    ScalarsExactly(q, e, v, BE(sig[ps..]), BE(sig[..ps]), z1, z2);
  }

  lemma ScalarsExactly(q: int, e: int, v: int, r: nat, s: nat, z1: nat, z2: nat)
    requires q > 1 && (e * v) % q == 1 && z1 < q && z2 < q && Cong(e * z1, s, q) && Cong(e * z2 + r, 0, q)
    ensures VerifyScalars(q, r, s, v) == (z1, z2)
  {
    ScalarsDefined(q, r, s, v);
    hide VerifyScalars;
    var a: int := r;
    ScalarIs(q, e, v, s, z1);
    ScalarIs(q, e, v, -a, z2);
    NegatedScalar(q, a, v);
  }

  /** Dividing by e is multiplying by its inverse. */
  lemma ScalarIs(q: int, e: int, v: int, a: int, z: int)
    requires q > 1 && (e * v) % q == 1 && 0 <= z < q && Cong(e * z, a, q)
    ensures a * v % q == z
  {
    hide Cong;
    CongRefl(v, q);
    CongMul(e * z, a, v, v, q);
    CongSym(e * z * v, a * v, q);
    CongRefl(z, q);
    ModReduced(1, q);
    CongIffModEq(e * v, 1, q);
    CongMul(e * v, 1, z, z, q);
    assert e * z * v == e * v * z;
    CongTrans(a * v, e * v * z, 1 * z, q);
    CongIffModEq(a * v, z, q);
    ModReduced(z, q);
  }

  lemma NegatedScalar(q: int, r: int, v: int)
    requires q > 1
    ensures (q - r * v % q) % q == (-r) * v % q
  {
    hide Cong;
    CongMod(r * v, q);
    CongIntro(q, 0, q, 1);
    CongAdd(q, 0, r * v % q, r * v, q);
    assert (-r) * v == 0 - r * v;
    CongIffModEq(q - r * v % q, 0 - r * v, q);
  }

  /** Wrong lengths are refused. */
  lemma VerifyRefuses(c: Curve, pubRaw: seq<Octet>, digest: seq<Octet>, sig: seq<Octet>)
    requires SignatureCurve(c) && (|sig| != 2 * PointSize(c) || |pubRaw| != 2 * PointSize(c))
    ensures !VerifySpec(c, pubRaw, digest, sig)
  {
  }

  /** Under the public key of prv, (s, r) is accepted exactly when r is the abscissa modulo q of t·G
      for the t with e·t = s - r·prv modulo q. */
  lemma AcceptedExactly(c: Curve, prv: seq<Octet>, digest: seq<Octet>, e: int, r: nat, s: nat, t: nat)
    requires SignatureCurve(c) && StandsForDigest(c.Q, digest, e) && LE(prv) % c.Q != 0
    requires 0 < r < c.Q && 0 < s < c.Q && Cong(e * t, s - r * LE(prv), c.Q)
    ensures PublicKeySpec(c, prv).Some?
    ensures var ps := PointSize(c);
            var C := Times(c, t, c.Base());
            VerifySpec(c, PublicKeySpec(c, prv).value, digest, ToBE(s, ps) + ToBE(r, ps)) <==> (C.Affine? && C.x % c.Q == r)
  {
    hide Add, Times, IsPrime, BE, IsOnCurve, VerifySpec, DigestScalar, StandsForDigest, Pow, Fits;
    var q := c.Q;
    DigestIs(q, digest, e);
    DivMod(t, q);
    PublicKeyExists(c, Scalar(q, LE(prv)));
    ReducedEquation(q, LE(prv), e, r, s, t);
    TimesMod(c, t, q, c.Base());
    AcceptanceCriterion(c, prv, digest, r, s, t % q);
  }

  lemma ReducedEquation(q: int, prv: nat, e: int, r: int, s: int, t: nat)
    requires q > 1 && Cong(e * t, s - r * prv, q)
    ensures 0 <= t % q < q && Cong(e * (t % q), s - r * (prv % q), q)
  {
    hide Cong;
    DivMod(t, q);
    CongMod(t, q);
    CongMod(prv, q);
    CongRefl(e, q);
    CongRefl(r, q);
    CongRefl(s, q);
    CongMul(e, e, t % q, t, q);
    CongMul(r, r, prv % q, prv, q);
    CongSym(r * (prv % q), r * prv, q);
    CongAdd(s, s, r * prv, r * (prv % q), q);
    CongTrans(e * (t % q), e * t, s - r * prv, q);
    CongTrans(e * (t % q), s - r * prv, s - r * (prv % q), q);
  }

  /** The raw public key is the little-endian coordinates of prv·G, for every prv not divisible by q. */
  lemma PublicKeyExactly(c: Curve, prv: seq<Octet>)
    requires SignatureCurve(c)
    ensures PublicKeySpec(c, prv).Some? <==> LE(prv) % c.Q != 0
    ensures LE(prv) % c.Q != 0 ==>
      var ps, raw := PointSize(c), PublicKeySpec(c, prv).value;
      |raw| == 2 * ps && Affine(LE(raw[..ps]), LE(raw[ps..])) == Times(c, LE(prv), c.Base())
  {
    hide Add, Times, IsPrime, BE, IsOnCurve, Pow, Fits;
    TimesMod(c, LE(prv), c.Q, c.Base());
    if LE(prv) % c.Q != 0 {
      PublicKeyExists(c, Scalar(c.Q, LE(prv)));
      PublicKeyDecodes(c, prv);
    }
  }
}
