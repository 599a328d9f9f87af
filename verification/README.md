# A verified model of the GOST cryptography library

This project models the cores of a Go library of Russian national cryptography and proves what
they are for. It covers the constant-time elliptic-curve stack with signatures and key agreement,
the Kuznyechik cipher in its four implementations, the GOST 28147-89 cipher, the stream,
authentication and hash machines built on block ciphers, and the search for a certificate chain.

Most of the library pairs a fast or stateful form with a simple mathematical one. The proofs say
that the two are the same function:

* `Words`, `Ct`, `MontgomeryField`, `FieldModel`: 64-bit limbs as naturals with explicit carries; CIOS
  multiplication, unrolled on 4 limbs and looped on any number, is multiplication in the field.
* `AffineCurve`, `CurveGroup`: the affine reference, and multiples of a point.
* `ProjectiveCurve`, `CompleteFormulas`, `ConstantTimeCurve`, `ConstantTimeScalar`: the projective
  formulas, written once over an abstract ring and carried from limbs to residues to integers by
  ring homomorphisms; the window and ladder multiplications.
* `WindowExactness`: the points on which those multiplications return the affine multiple.
* `Bytes`, `Signature`, `Vko`: codecs, signing, verification, key agreement.
* `Gf256`, `GfPolynomial`, `Blocks`, `WordLanes`: bytes under exclusive or, additive maps and their
  decomposition over byte positions and bits, words as lanes.
* `Kuznyechik`, `KuznyechikTables`, `KuznyechikConstantTime`, `KuznyechikCipher`,
  `KuznyechikMatrix`, `KuznyechikSimd`, `KuznyechikBulk`: the four forms of the cipher.
* `Counters`, `Positions`, `CtrAcpkm`: counter mode with ACPKM re-keying.
* `BinaryPoly`, `MgmField`, `Mgm`, `Omac`: polynomials over GF(2), the MGM field, MGM and CMAC.
* `LittleEndian`, `BlockBuffer`, `StreebogTransform`, `Streebog`, `Gostr341194`: the two hashes.
* `Gost28147`, `Cnt`: the older cipher and its counter stream with key meshing.
* `ChainSearch`: the depth-bounded search for a GOST certificate chain.
* `SignatureLaws`, `VkoLaws`, `KuznyechikLaws`, `CtrAcpkmLaws`, `MgmLaws`, `OmacLaws`, `StreebogLaws`,
  `Gostr341194Laws`, `Gost28147Laws`, `CntLaws`, `ChainSearchLaws`, `ConstantsAsNumbers`: each operation
  a second time, in the terms of its standard (values of bytes, multiples of points, sequences that
  satisfy a recurrence), and the proof that the functions the code is tied to are the same.

Objects whose methods update fields are classes. Each carries a ghost record of its whole history
(the message, the stream position), and its validity predicate says that the state is a function
of that history; independence of call boundaries follows.

`dafny verify dfyconfig.toml` checks the whole project.

## What the code does differently from its comments

* `gost3410curves/ctpoint.go:3-17` calls the addition formulas complete. They fail exactly when the
  difference of the operands is a point of order two (`CompleteFormulas.AddIsComplete`), which
  exists on the curves with cofactor 4. Among the points killed by 4Q the fixed-window
  multiplication inherits this on those of order two and four and on no others
  (`WindowExactness.WindowExact`; `WindowExactness.WindowFails` is an input): multiples of such a
  point can come back as the identity. Key agreement is not affected. The cofactor kills those
  points, so the agreement fails with the identity error either way (`Vko.AgreementRaw`).
* `x509gost/verify.go:122-123` says that at most eight certificates, leaf included, are traversed.
  The code allows eight below the root, nine in all (`ChainSearch.NineCertificatesVerify`).
* `x509gost/verify.go` checks the constraints of the first chain found only. A pool can hold a path
  that meets them and still fail (`ChainSearch.LaterChainNotTried`); `ChainSearch.SucceedsExactly`
  says which path is looked at, and `ChainSearch.CompleteWhenAllMeet` and
  `ChainSearch.CompleteWhenOneIssuer` name pools on which nothing is lost.
* `gostr341194/gostr341194.go:371-377` speaks of the empty input. The test is on a 64-bit bit
  counter, so every length that is a multiple of 2^61 bytes takes the branch
  (`Gostr341194.ExtraBlockExactly`).

## Hypotheses

* The affine addition is associative on the curve (`CurveGroup.Associative`). It is the only fact
  about elliptic curves that is assumed; commutativity, inverses, closure and the agreement of
  doubling with addition are proved.
* The field characteristic and the group order are prime (above 3; above 13 where the window method
  meets points of even order), the curve is nonsingular, the base point has the stated order, and
  the order fits the limbs.
* The S-box of Kuznyechik repeats no byte. The other tables of constants are arbitrary.

## Model

| member | source | states |
|---|---|---|
| `Words.MulAddCarry` | gost3410curves/ctfield.go:103-117 | The two words returned are exactly a·b + c + d: neither word addition loses a carry. |
| `Ct.MaskIsAllOnesOrZero` | internal/ct/ct.go:20-20 | The mask is all ones for an odd selector and zero for an even one. |
| `Ct.EqIsComparison` | internal/ct/ct.go:23-29 | The branch-free comparison is all ones exactly when the words are equal. |
| `Ct.SelectByMask` | gost3410curves/ctfield.go:132-139 | Under an all-ones mask the selection is its first operand, under zero its second. |
| `MontgomeryField.NewField` | gost3410curves/ctfield.go:49-73 | A field is built exactly for odd p with 0 < p < 2^(64n); it holds n0 = -1/p mod 2^64, R² mod p and R mod p. |
| `MontgomeryField.SubLimbs` | gost3410curves/ctfield.go:120-129 | Limb subtraction is exact up to the returned borrow. |
| `MontgomeryField.Cmov` | gost3410curves/ctfield.go:132-139 | Selects a whole limb vector by an all-ones or zero mask. |
| `MontgomeryField.CondSubP` | gost3410curves/ctfield.go:143-149 | From any value below 2p, extra top bit included, returns the value reduced once. |
| `MontgomeryField.Add4` | gost3410curves/ctfield.go:155-175 | Unrolled addition is (a + b) mod p for reduced operands. |
| `MontgomeryField.Sub4` | gost3410curves/ctfield.go:179-199 | Unrolled subtraction is (a - b) mod p for reduced operands. |
| `MontgomeryField.Row4` | gost3410curves/ctfield.go:207-238 | One CIOS row keeps the accumulator below a + p, its top word at most 1, and divides t + a·b_i + m·p by 2^64 exactly. |
| `MontgomeryField.Mul4` | gost3410curves/ctfield.go:207-238 | Unrolled CIOS: for reduced a and any b the result is below p and r·R is congruent to a·b modulo p. |
| `MontgomeryField.AddLoop` | gost3410curves/ctfield8.go:93-102 | Looped addition is (a + b) mod p, at any limb count. |
| `MontgomeryField.SubLoop` | gost3410curves/ctfield8.go:104-120 | Looped subtraction is (a - b) mod p, at any limb count. |
| `MontgomeryField.AddProductRow` | gost3410curves/ctfield8.go:126-135 | The product half of a row adds a·b_i to the accumulator without losing a carry. |
| `MontgomeryField.ReduceRow` | gost3410curves/ctfield8.go:137-149 | The reduction half divides t + m·p by 2^64 exactly and leaves a top word of at most 1. |
| `MontgomeryField.MulLoop` | gost3410curves/ctfield8.go:122-155 | Looped CIOS has the contract of the unrolled one, at any limb count. |
| `FieldModel.Sum` | gost3410curves/ctfield.go:155-175 | Addition of Montgomery forms is the Montgomery form of the sum, with 4 or any other number of limbs. |
| `FieldModel.Difference` | gost3410curves/ctfield.go:179-199 | Subtraction of Montgomery forms is the Montgomery form of the difference. |
| `FieldModel.Multiply` | gost3410curves/ctfield.go:207-238 | Multiplication of Montgomery forms is the Montgomery form of the product. |
| `FieldModel.ToMont` | gost3410curves/ctfield.go:244-244 | toMont yields the Montgomery form. |
| `FieldModel.FromMont` | gost3410curves/ctfield.go:247-253 | fromMont yields the decoded residue. |
| `FieldModel.MontRoundTrip` | gost3410curves/ctfield.go:244-253 | fromMont(toMont(x)) = x for every reduced x. |
| `FieldModel.Inv` | gost3410curves/ctfield.go:259-273 | Square-and-multiply returns the Montgomery form of a^(p-2). |
| `FieldModel.InvIsInverse` | gost3410curves/ctfield.go:259-273 | For prime p and a not zero, a times inv(a) is the Montgomery one (by Fermat, proved in ModArith.Fermat). |
| `AffineCurve.Double` | gost3410curves/curves.go:402-426 | Doubling a reduced point of the curve gives the identity or a reduced point of the curve. |
| `AffineCurve.Add` | gost3410curves/curves.go:361-396 | Adding reduced points of the curve gives the identity or a reduced point of the curve. |
| `AffineCurve.TangentDenominator` | gost3410curves/curves.go:410-421 | The denominator 2y inverted by Double is never zero. |
| `AffineCurve.ChordDenominator` | gost3410curves/curves.go:382-394 | The denominator inverted by Add is never zero. |
| `AffineCurve.EqualX` | gost3410curves/curves.go:370-380 | In the branch with equal x coordinates q is -p exactly when y + y' vanishes, and otherwise q = p with y not zero. |
| `AffineCurve.AddNeg` | gost3410curves/curves.go:360-380 | p + (-p) is the identity and the identity is neutral on both sides. |
| `AffineCurve.DoubleIsAdd` | gost3410curves/curves.go:361-426 | Double(p) = Add(p, p). |
| `AffineCurve.AddCommutes` | gost3410curves/curves.go:361-396 | Add is commutative. |
| `CurveGroup.TimesAdd` | gost3410curves/curves.go:445-460 | (m + n)p = mp + np. |
| `CurveGroup.TimesTimes` | gost3410curves/curves.go:445-460 | (mn)p = m(np). |
| `CurveGroup.ScalarMult` | gost3410curves/curves.go:445-460 | Double-and-add returns the k-fold sum, and the identity for k not positive. |
| `ProjectiveCurve.AddClosedForm` | gost3410curves/ctpoint.go:86-142 | The straight-line addition computes the three closed polynomials. |
| `ProjectiveCurve.DoubleClosedForm` | gost3410curves/ctpoint.go:145-187 | The straight-line doubling computes those polynomials of (p, p) in X and Y, and 8y³z in Z. |
| `ProjectiveCurve.SumCommutes` | gost3410curves/ctpoint.go:86-142 | The addition is commutative, coordinate by coordinate. |
| `ProjectiveCurve.IdentitySum` | gost3410curves/ctpoint.go:86-142 | Adding (0:1:0) on either side scales p by its own y coordinate. |
| `ProjectiveCurve.ScaledSum` | gost3410curves/ctpoint.go:86-142 | The sum does not depend on the representatives: scaling the operands scales the result. |
| `CompleteFormulas.DoubleIsSelfSum` | gost3410curves/ctpoint.go:145-187 | On the curve double(p) and add(p, p) agree in every coordinate modulo the prime. |
| `CompleteFormulas.LiftSum` | gost3410curves/ctpoint.go:86-142 | The sum of two lifted affine points is a multiple of the lifted affine sum, and the factor vanishes exactly when A - B has order two. |
| `CompleteFormulas.AddIsComplete` | gost3410curves/ctpoint.go:3-17 | The addition stands for A + B if and only if A - B is not a point of order two; in the exceptional case it yields (0:0:0). |
| `CompleteFormulas.DoubleIsComplete` | gost3410curves/ctpoint.go:145-187 | The doubling stands for 2A for every point A, points of order two included. |
| `ConstantTimeCurve.NewCtCurve` | gost3410curves/ctpoint.go:32-46 | The curve constants are the Montgomery forms of a and 3b. |
| `ConstantTimeCurve.Identity` | gost3410curves/ctpoint.go:49-51 | The identity stands for the point at infinity. |
| `ConstantTimeCurve.FromAffine` | gost3410curves/ctpoint.go:57-67 | Stands for the affine point it is made from. |
| `ConstantTimeCurve.ToAffine` | gost3410curves/ctpoint.go:71-83 | Returns the one affine point the coordinates stand for. |
| `ConstantTimeCurve.FeEqual` | gost3410curves/ctfield.go:276-283 | True exactly on equal limbs. |
| `ConstantTimeCurve.CtAddStands` | gost3410curves/ctpoint.go:86-142 | The addition on limbs stands for A + B if and only if A - B is not a point of order two. |
| `ConstantTimeCurve.CtDoubleStands` | gost3410curves/ctpoint.go:145-187 | The doubling on limbs stands for 2A. |
| `ConstantTimeCurve.Cswap` | gost3410curves/ctpoint.go:190-208 | Exchanges the two points for bit 1 and leaves both alone for bit 0. |
| `ConstantTimeScalar.ScalarBytesToLimbs` | gost3410curves/ctscalar.go:40-47 | The limbs hold the big-endian value of the bytes. |
| `ConstantTimeScalar.LimbDigitOfValue` | gost3410curves/ctscalar.go:84-92 | A window digit read from one limb is that digit of the scalar's value. |
| `ConstantTimeScalar.SelectWindow` | gost3410curves/ctscalar.go:99-111 | The masked scan of sixteen entries equals indexing. |
| `ConstantTimeScalar.BuildTable` | gost3410curves/ctscalar.go:66-73 | For every point P of the curve: all sixteen entries stand for their multiple if and only if no jP with 1 <= j <= 13 has order two, and an entry after the first exceptional addition is (0:0:0). |
| `ConstantTimeCurve.CtAddAbsorbs` | gost3410curves/ctpoint.go:86-142 | (0:0:0) absorbs every addition. |
| `ConstantTimeCurve.CtDoubleAbsorbs` | gost3410curves/ctpoint.go:145-187 | Doubling keeps (0:0:0). |
| `ConstantTimeScalar.AddMultiples` | gost3410curves/ctscalar.go:65-94 | Adding mP and dP stands for (m + d)P exactly when |m - d|P does not have order two and neither operand had collapsed; otherwise the sum is (0:0:0). |
| `ConstantTimeScalar.ScalarMultLimbs` | gost3410curves/ctscalar.go:65-94 | For every point and every limb scalar, the loop stands for (k mod 16^windows)P when no addition on the way was exceptional, and is (0:0:0) otherwise. |
| `WindowExactness.WindowExact` | gost3410curves/ctscalar.go:185-199 | On a point killed by 4Q, Q a prime above 13, every multiple by a scalar below Q is right if and only if P is the identity or 4P is not: exactly the points of order two and four fail. |
| `WindowExactness.WindowFails` | gost3410curves/ctscalar.go:185-199 | On y² = x³ + x over GF(5), with every hypothesis of the method met, 3(0, 0) is returned as the identity although it is (0, 0). |
| `WindowExactness.OrderTwoMultiple` | gost3410curves/ctscalar.go:65-94 | If jP has order two for some j prime to Q, then 4P is the identity. |
| `WindowExactness.SafeBelowOrder` | gost3410curves/ctscalar.go:65-94 | When 4P is not the identity no window of a scalar below Q is exceptional. |
| `WindowExactness.OddOrderExact` | gost3410curves/ctscalar.go:185-199 | A point of odd order is multiplied correctly by every scalar of at most bitlen(Q) bits. |
| `WindowExactness.LadderExact` | gost3410curves/ctscalar.go:116-133 | The limbs the ladder returns for k stand for kP if and only if P does not have order two or k is 0; converted to affine they read as kP if and only if P does not have order two or k is even. |
| `ConstantTimeScalar.ScalarMultLadder` | gost3410curves/ctscalar.go:116-133 | For every point the ladder stands for (k mod 2^orderBits)P, unless P has order two and those bits are not all zero, when it is (0:0:0). |
| `ConstantTimeScalar.ScalarMultCT` | gost3410curves/ctscalar.go:185-199 | For every point and every scalar that fits the limbs: the affine (k mod 16^windows)P, or the identity if an addition on the way was exceptional; kP on a curve wider than 512 bits. |
| `Bytes.FillBE` | gost3410sign/gost3410sign.go:233-244 | The slice holds the low bytes of n in big-endian order, and nothing else changes. |
| `Bytes.PutLE` | gost3410sign/gost3410sign.go:248-262 | The slice holds the low bytes of n in little-endian order, and nothing else changes. |
| `Bytes.Reverse` | gost3410sign/gost3410sign.go:223-230 | A reversed copy. |
| `Bytes.LEOfReversed` | gost3410sign/gost3410sign.go:248-262 | Reading back a fixed-width little-endian encoding gives the number. |
| `Bytes.BEDigit` | gost3410sign/gost3410sign.go:233-244 | Byte i of n is digit n - 1 - i of the big-endian value in base 256. |
| `Signature.ScalarMultSecret` | gost3410curves/ctscalar.go:141-147 | Each path on every point of the curve; both return kP when P has odd order and k at most bitlen(Q) bits. |
| `Signature.SignDigest` | gost3410sign/gost3410sign.go:53-109 | Computes the signature of section 6.1 of RFC 7091, or nil in the cases it names. |
| `Signature.VerifyDigest` | gost3410sign/gost3410sign.go:123-188 | Decides the verification equation of section 6.2 of RFC 7091 on encoded inputs. |
| `Signature.PublicKeyRaw` | gost3410sign/gost3410sign.go:193-215 | The little-endian coordinates of dP, or nil. |
| `Signature.PublicKeyDecodes` | gost3410sign/gost3410sign.go:193-215 | A raw public key decodes to exactly dP. |
| `Signature.VerificationPoint` | gost3410sign/gost3410sign.go:163-187 | The point the verifier computes is tP for the t that solves e·t = s - r·d modulo q. |
| `Signature.AcceptanceCriterion` | gost3410sign/gost3410sign.go:123-188 | Verification accepts (r, s) if and only if that point is affine with x coordinate r modulo q. |
| `Signature.SignatureAccepted` | gost3410sign/gost3410sign.go:53-188 | Whenever a signature is produced, the public key exists and verification accepts it, through every encoding and the rule e = 0 becomes 1. |
| `SignatureLaws.SignsExactly` | gost3410sign/gost3410sign.go:53-109 | Signing returns ToBE(s) || ToBE(r) if and only if key and nonce are not multiples of q, r is the nonzero abscissa modulo q of the nonce's multiple of G, and s = r·prv + k·e modulo q is nonzero, e the big-endian digest modulo q with 0 replaced by 1. |
| `SignatureLaws.SigningFails` | gost3410sign/gost3410sign.go:53-109 | Signing returns nothing exactly when key, nonce, abscissa or s is zero modulo q. |
| `SignatureLaws.VerifiesExactly` | gost3410sign/gost3410sign.go:123-188 | A well-formed signature under any public key is accepted if and only if r and s are in range, the key is on the curve and z1·G + z2·pub has abscissa r, for the z1 and z2 with e·z1 = s and e·z2 = -r modulo q. |
| `SignatureLaws.VerifyRefuses` | gost3410sign/gost3410sign.go:123-135 | Wrong lengths are refused. |
| `SignatureLaws.AcceptedExactly` | gost3410sign/gost3410sign.go:123-188 | Under the public key of prv, (s, r) is accepted if and only if t·G has abscissa r modulo q for the t with e·t = s - r·prv. |
| `SignatureLaws.PublicKeyExactly` | gost3410sign/gost3410sign.go:193-215 | The raw key exists exactly for a prv that q does not divide and decodes to prv·G. |
| `Vko.LoadPrivateLE` | vko/vko.go:98-116 | Decoding of the private key with its three error cases. |
| `Vko.LoadPublicLE` | vko/vko.go:120-135 | Decoding of the public key; points off the curve are refused. |
| `Vko.Big2LeFixed` | vko/vko.go:62-74 | Fixed-width little-endian bytes. |
| `Vko.AgreementRaw` | vko/vko.go:146-219 | The agreement bytes of d, the UKM and any peer point of the curve, with every error case, on either multiplication path; peer points of order two and four end in the same error on both. |
| `Vko.SecretAgreement` | vko/vko.go:146-219 | The secret multiple is dQ, or it is the identity where the specification fails with the identity error too. |
| `Vko.Kek` | vko/vko.go:223-245 | For every peer key the key-encryption key is the hash of the agreement, errors in source order, constant-time or not; for an unsupported cofactor exactly the error that follows from the multiple of the chosen path. |
| `Vko.DeriveQLE` | vko/vko.go:304-322 | The encoded public key. |
| `Vko.ReductionPreservesPoint` | vko/vko.go:186-203 | Reducing UKM·cofactor modulo cofactor·q never changes the agreement point. |
| `Vko.AgreementIsOneMultiple` | vko/vko.go:172-219 | Agreement is the encoding of one multiple (UKM·cofactor·d)Q, and fails exactly when that is the identity. |
| `Vko.DerivedKeyDecodes` | vko/vko.go:304-322 | A derived public key decodes to dP. |
| `Vko.DerivedKeyHasOddOrder` | vko/vko.go:304-322 | Public keys derived from the base point have odd order, so both paths multiply them exactly. |
| `Vko.AgreementIsSymmetric` | vko/vko.go:223-245 | Both parties obtain the same key or the same failure, for every UKM and hash. |
| `VkoLaws.AgreesExactly` | vko/vko.go:172-245 | On key bytes, peer coordinates and UKM bytes, all little-endian, the answer is the hash of the coordinates of (UKM·cofactor·key)Q, or the identity error when that is the identity. |
| `VkoLaws.RefusesExactly` | vko/vko.go:223-245 | Each refused input with its error, in the order of the tests. |
| `VkoLaws.UnsupportedExactly` | vko/vko.go:172-219 | On any other cofactor the agreement is refused once the first multiple is known not to be the identity. |
| `VkoLaws.DerivesPublicKey` | vko/vko.go:304-322 | The derived key is the public key of the signature code, with one more error for the length. |
| `VkoLaws.DerivesExactly` | vko/vko.go:304-322 | The derived key is the coordinates of key·G. |
| `Gf256.GfLoop` | kuznyechik/kuznyechik.go:90-108 | The shift-and-add loop computes the eight-step product. |
| `GfPolynomial.GfIsProduct` | kuznyechik/kuznyechik.go:90-108 | gf(a, b) is the only byte congruent to the product of polynomials modulo x^8+x^7+x^6+x+1. |
| `GfPolynomial.GfCommutes` | kuznyechik/kuznyechik.go:90-108 | gf is commutative. |
| `KuznyechikMatrix.GfXor` | kuznyechik/kuznyechik.go:90-108 | gf is additive in each argument. |
| `KuznyechikMatrix.GfSwap` | kuznyechik/kuznyechik.go:90-108 | Multiplications by two constants commute. |
| `Kuznyechik.RInvOfR` | kuznyechik/kuznyechik.go:127-158 | r and rInv undo each other. |
| `Kuznyechik.LInverse` | kuznyechik/kuznyechik.go:161-172 | l and lInv undo each other on every block. |
| `Kuznyechik.LAdditive` | kuznyechik/kuznyechik.go:161-165 | l respects exclusive or. |
| `Kuznyechik.LInvAdditive` | kuznyechik/kuznyechik.go:168-172 | lInv respects exclusive or. |
| `Kuznyechik.DecryptEncrypt` | kuznyechik/kuznyechik.go:305-350 | Decryption undoes encryption for every key schedule and block (sections 4.5.1 and 4.5.2 of RFC 7801). |
| `KuznyechikTables.SubstituteBytes` | kuznyechik/kuznyechik.go:111-122 | In-place s and sInv. |
| `KuznyechikTables.XorInto` | kuznyechik/kuznyechik.go:174-178 | In-place key addition. |
| `KuznyechikTables.RStep` | kuznyechik/kuznyechik.go:127-136 | In-place r. |
| `KuznyechikTables.RInvStep` | kuznyechik/kuznyechik.go:140-158 | In-place rInv. |
| `KuznyechikTables.LInPlace` | kuznyechik/kuznyechik.go:161-165 | In-place l. |
| `KuznyechikTables.LInvInPlace` | kuznyechik/kuznyechik.go:168-172 | In-place lInv. |
| `KuznyechikTables.BuildInverse` | kuznyechik/kuznyechik.go:70-73 | The filled inverse S-box undoes an S-box that repeats no byte. |
| `KuznyechikTables.UnpackPack` | kuznyechik/kuznyechik.go:212-217 | Packing a block into two words loses nothing. |
| `KuznyechikTables.BuildTables` | kuznyechik/kuznyechik.go:219-240 | Every entry of both fused tables is the packed image of one byte alone in a block. |
| `Blocks.Decompose` | kuznyechik/kuznyechik.go:180-203 | An additive map of a substituted block is the sum of its images over single byte positions. |
| `KuznyechikTables.SlEncrypt` | kuznyechik/kuznyechik.go:243-255 | The fused table pass is l after s for every block. |
| `KuznyechikTables.LInvFast` | kuznyechik/kuznyechik.go:258-270 | The fused inverse pass is lInv for every block. |
| `KuznyechikCipher.BuildConstants` | kuznyechik/kuznyechik.go:70-86 | The 32 iteration constants are l of the blocks holding 1 to 32. |
| `KuznyechikCipher.Cipher.NewCipher` | kuznyechik/kuznyechik.go:287-298 | A table-driven instance with the round keys of its key. |
| `KuznyechikCipher.Cipher.ExpandKey` | kuznyechik/kuznyechik.go:355-379 | Both paths derive the ten round keys of section 4.4 of RFC 7801. |
| `KuznyechikCipher.Cipher.Encrypt` | kuznyechik/kuznyechik.go:305-325 | Both paths write the encryption of the block and nothing else, in place or not. |
| `KuznyechikCipher.Cipher.Decrypt` | kuznyechik/kuznyechik.go:329-350 | Both paths write the decryption of the block and nothing else, in place or not. |
| `KuznyechikCipher.RoundTrip` | kuznyechik/kuznyechik.go:305-350 | Encrypting with one instance and decrypting with another of the same key restores the buffer, whichever path each takes. |
| `KuznyechikLaws.ConstantsCount` | kuznyechik/kuznyechik.go:77-85 | The inverse linear map takes constant i to fifteen zero bytes and the number i + 1. |
| `KuznyechikLaws.RoundKeysExactly` | kuznyechik/kuznyechik.go:355-379 | The round keys are the pairs a two-term recurrence reaches after every eight steps, over the constants that L takes from the numbers 1 to 32. |
| `KuznyechikLaws.EncryptsExactly` | kuznyechik/kuznyechik.go:305-325 | Nine rounds of key addition, substitution and L, and a last key addition, on any sequence of states. |
| `KuznyechikLaws.LExactly` | kuznyechik/kuznyechik.go:161-165 | L is sixteen steps of one byte register. |
| `KuznyechikLaws.RExamples` | kuznyechik/kuznyechik.go:127-136 | The four examples of section 5.2 of RFC 7801. |
| `ConstantsAsNumbers.FeedbackCoefficients` | kuznyechik/kuznyechik.go:127-136 | The coefficients as one number. |
| `WordLanes.BroadcastLane` | kuznyechik/ctkuznyechik.go:133-135 | Multiplying by 0x01..01 puts the byte in every lane. |
| `WordLanes.ZeroLanesExact` | kuznyechik/ctkuznyechik.go:137-145 | The compare and fill leave 0xFF exactly in the zero lanes: no carry crosses a lane. |
| `KuznyechikConstantTime.CtSbox` | kuznyechik/ctkuznyechik.go:129-159 | The scan of 256 entries substitutes each of the sixteen bytes. |
| `KuznyechikConstantTime.MaskSelects` | internal/ct/ct.go:20-20 | The mask keeps a word for a set bit and clears it otherwise. |
| `KuznyechikConstantTime.BuildColumns` | kuznyechik/ctkuznyechik.go:61-79 | Every column is the packed image of one bit. |
| `Blocks.BitDecompose` | kuznyechik/ctkuznyechik.go:50-54 | Adding the columns selected by the bits of a byte gives the image of the byte. |
| `KuznyechikConstantTime.CtLinear` | kuznyechik/ctkuznyechik.go:165-184 | The masked column sum is the linear map on the packed block. |
| `KuznyechikConstantTime.CtSLEncrypt` | kuznyechik/ctkuznyechik.go:188-197 | The constant-time round half is l after s. |
| `KuznyechikConstantTime.CtLInvFast` | kuznyechik/ctkuznyechik.go:201-209 | The constant-time inverse linear step is lInv. |
| `KuznyechikConstantTime.CtSInv` | kuznyechik/ctkuznyechik.go:212-220 | The constant-time inverse substitution is sInv. |
| `KuznyechikCipher.Cipher.NewCipherCT` | kuznyechik/ctkuznyechik.go:37-48 | A constant-time instance with the same round keys. |
| `KuznyechikMatrix.LIsMatrix` | kuznyechik/simd_amd64.go:65-74 | Byte j of l is the product of row j of the matrix of unit images, over GF(2^8). |
| `KuznyechikSimd.BuildSimdTables` | kuznyechik/simd_amd64.go:55-94 | The nibble sub-tables, the matrix and the product tables. |
| `KuznyechikSimd.Hi4Exact` | kuznyechik/simd_amd64.go:102-104 | The high multiplication by 0x1000 and the mask give each byte shifted right by four. |
| `KuznyechikSimd.SimdS` | kuznyechik/simd_amd64.go:110-128 | The sixteen masked nibble lookups substitute every lane. |
| `KuznyechikSimd.SimdL` | kuznyechik/simd_amd64.go:133-165 | The four interleaved accumulators hold the whole matrix row. |
| `KuznyechikSimd.EncryptSliced` | kuznyechik/simd_amd64.go:194-205 | Every lane ends with the encryption of the block it held. |
| `KuznyechikBulk.SimdBulkEncrypt` | kuznyechik/simd_amd64.go:171-218 | All whole 32-block chunks are encrypted block by block, the rest is untouched. |
| `KuznyechikBulk.EncryptBlocks` | kuznyechik/bulk.go:19-37 | The output is that of successive Encrypt calls, with or without the vector engine, in place or not. |
| `KuznyechikBulk.SlicedCounters` | kuznyechik/simd_ctr_amd64.go:32-49 | Lane l holds the big-endian counter plus l, full carries included. |
| `Counters.AddCounter` | kuznyechik/simd_ctr_amd64.go:53-63 | Adds k to the big-endian counter modulo 256^n. |
| `KuznyechikBulk.CTRXORBlocks` | kuznyechik/simd_ctr_amd64.go:70-123 | On any run of whole blocks inside dst and src: the counter-mode keystream over it, nothing else written, and iv advanced by exactly the block count. |
| `CtrAcpkm.FusedXOR` | ctracpkm/ctracpkm.go:266-275 | The fused call of the Kuznyechik cipher writes exactly the batch of the stream mode, leaves the rest of dst and advances the counter by the batch. |
| `CtrAcpkm.FusedKeystream` | ctracpkm/ctracpkm.go:80-88 | The keystream of the fused call is that of the per-block stream. |
| `Counters.IncCounter` | ctracpkm/ctracpkm.go:333-340 | The increment is + 1 modulo 256^n on the big-endian value. |
| `CtrAcpkm.CTR.NewCTR` | ctracpkm/ctracpkm.go:116-135 | A fresh plain stream. |
| `CtrAcpkm.CTR.NewCTRACPKM` | ctracpkm/ctracpkm.go:144-193 | A fresh ACPKM stream; section size 0 is plain CTR. |
| `CtrAcpkm.CTR.RekeyACPKM` | ctracpkm/ctracpkm.go:311-327 | The next key is D encrypted block by block under the retiring key (section 6.2.1 of RFC 8645). |
| `CtrAcpkm.RekeySyncs` | ctracpkm/ctracpkm.go:212-220 | The lazy rekey fires exactly when a section is used up, and then the key is that of the current section. |
| `CtrAcpkm.CTR.BatchBlocks` | ctracpkm/ctracpkm.go:257-263 | A batch never reaches past the input or the current section. |
| `CtrAcpkm.BatchIsStream` | ctracpkm/ctracpkm.go:256-305 | Every byte of a batch is the stream byte at its position. |
| `CtrAcpkm.AfterBatch` | ctracpkm/ctracpkm.go:256-305 | A batch leaves the key, counts and counter position a per-block run would leave. |
| `CtrAcpkm.CTR.BulkXOR` | ctracpkm/ctracpkm.go:256-305 | The batch writes exactly its run of the stream, fused or through scratch buffers. |
| `CtrAcpkm.CTR.XORKeyStream` | ctracpkm/ctracpkm.go:202-247 | Writes the input under the stream from the current position, whatever mixture of paths it takes, and advances the position. |
| `CtrAcpkm.StreamSplit` | ctracpkm/ctracpkm.go:90-92 | Cutting the input anywhere changes nothing. |
| `CtrAcpkm.StreamInvolution` | ctracpkm/ctracpkm.go:202-247 | The stream undoes itself. |
| `CtrAcpkm.StateDetermined` | ctracpkm/ctracpkm.go:93-106 | The carried state depends only on how many bytes were produced, not on calls or paths. |
| `CtrAcpkmLaws.StreamExactly` | ctracpkm/ctracpkm.go:202-247 | Stream byte p is a byte of the block of value IV + p / n modulo 256^n under the key of its section, each key the encrypted blocks of the constant. |
| `CtrAcpkmLaws.PlainStreamExactly` | ctracpkm/ctracpkm.go:116-135 | Without sections one key serves the same counters. |
| `CtrAcpkmLaws.NextKeyIs` | ctracpkm/ctracpkm.go:311-327 | The next key is the blocks of the constant, encrypted under the retiring one. |
| `ConstantsAsNumbers.AcpkmConstant` | ctracpkm/ctracpkm.go:311-327 | The constant D as one number. |
| `Counters.AddIsModular` | ctracpkm/ctracpkm.go:333-340 | Counter addition is addition of big-endian values modulo 256^n. |
| `MgmField.GfMulLoop` | mgm/mgm.go:287-326 | The bit loop computes the accumulator recursion. |
| `MgmField.GfMulIsProduct` | mgm/mgm.go:287-326 | gfMul is congruent to the product of polynomials over GF(2) modulo the field polynomial. |
| `MgmField.GfMulUnique` | mgm/mgm.go:287-326 | It is the only block with that property. |
| `MgmField.GfMulCommutes` | mgm/mgm.go:287-326 | gfMul is commutative. |
| `MgmField.GfMulXor` | mgm/mgm.go:287-326 | gfMul is additive in each factor. |
| `Mgm.NewMGM` | mgm/mgm.go:92-125 | An object exactly for 8- and 16-byte blocks and a tag of 4 bytes up to a block. |
| `Mgm.MGM.IncrR` | mgm/mgm.go:258-266 | Advances the right half modulo 256^(n/2); the left half is untouched. |
| `Mgm.MGM.IncrL` | mgm/mgm.go:270-278 | Advances the left half modulo 256^(n/2); the right half is untouched. |
| `Mgm.MGM.Crypt` | mgm/mgm.go:330-352 | The counter pass of section 4 of RFC 9058, in place or not. |
| `Mgm.MGM.Auth` | mgm/mgm.go:356-432 | The tag over additional data, ciphertext and length block. |
| `Mgm.LimitsExact` | mgm/mgm.go:218-254 | The two length checks hold exactly when the combined bit length is below 2^(n/2), 64-bit wrap-around included. |
| `Mgm.LengthsNotTruncated` | mgm/mgm.go:404-419 | For accepted lengths both halves of the length block hold the exact bit lengths. |
| `Mgm.MGM.Seal` | mgm/mgm.go:135-162 | Ciphertext and tag appended to dst, or a panic exactly outside the accepted inputs. |
| `Mgm.MGM.Open` | mgm/mgm.go:167-205 | Plaintext appended to dst, or the error, in every case. |
| `Mgm.CryptInvolution` | mgm/mgm.go:330-352 | The counter pass undoes itself. |
| `Mgm.OpenExactlySealed` | mgm/mgm.go:135-205 | Open returns pt if and only if the input is accepted and is the seal of pt. |
| `Mgm.IncRMeans` | mgm/mgm.go:258-266 | A run of k advances leaves the left half and adds k to the right half modulo 256^(n/2). |
| `Mgm.IncLMeans` | mgm/mgm.go:270-278 | A run of k advances leaves the right half and adds k to the left half modulo 256^(n/2). |
| `MgmLaws.AcceptsExactly` | mgm/mgm.go:135-162 | Accepted are exactly a nonce of one block with its top bit 0, and some input of combined bit length below 2^(n/2). |
| `MgmLaws.CiphertextBlock` | mgm/mgm.go:330-352 | Block j of the ciphertext is the data under the encrypted block whose left half is that of E(nonce) and whose right half is j more. |
| `MgmLaws.TagExactly` | mgm/mgm.go:356-432 | The tag is the leading bytes of the encrypted sum of products of zero-filled blocks and the length block with encrypted counters, whose left half counts up from E of the nonce with its top bit set. |
| `MgmLaws.SealedParts` | mgm/mgm.go:135-162 | What Seal appends is the ciphertext, then its tag. |
| `StreebogTransform.LinearLP` | streebog/streebog.go:210-241 | The permutation and the bitwise rows compute L after P. |
| `StreebogTransform.LPXor` | streebog/streebog.go:184-194 | L after P respects exclusive or. |
| `StreebogTransform.BuildLpTable` | streebog/streebog.go:197-206 | Every table entry is the image of one byte alone in the state. |
| `StreebogTransform.Lps` | streebog/streebog.go:265-288 | The table pass is L after P after S for every 512-bit state. |
| `StreebogTransform.EWords` | streebog/streebog.go:302-311 | The keyed permutation of section 8 of RFC 6986. |
| `StreebogTransform.GWords` | streebog/streebog.go:314-319 | The compression function of section 8 of RFC 6986. |
| `Streebog.Add512` | streebog/streebog.go:332-346 | Byte-wise addition with carry is addition modulo 2^512. |
| `LittleEndian.SumIsModular` | streebog/streebog.go:332-346 | The carry recursion is addition modulo 256^n. |
| `Streebog.Hasher.constructor` | streebog/streebog.go:362-375 | A new hash holds the empty message. |
| `Streebog.Hasher.Reset` | streebog/streebog.go:377-391 | Back to the empty message. |
| `Streebog.Hasher.Compress` | streebog/streebog.go:485-491 | One block: chaining value, N = bits compressed, Sigma = sum of the blocks modulo 2^512. |
| `Streebog.Hasher.Write` | streebog/streebog.go:407-440 | The bytes join the message, however the buffer stood. |
| `Streebog.Hasher.Sum` | streebog/streebog.go:443-482 | Appends the one-shot digest of everything written and modifies nothing. |
| `Streebog.StateDetermined` | streebog/streebog.go:352-358 | The state depends only on the concatenated message. |
| `StreebogLaws.DigestExactly` | streebog/streebog.go:443-482 | The digest is the procedure of section 8 of RFC 6986, a recursion on the remaining message with chaining value, count and checksum, from the zero block or the block of bytes 1; the short digest is the upper half. |
| `StreebogLaws.PadValue` | streebog/streebog.go:443-482 | The padded tail is the tail's number plus 256 to its length. |
| `StreebogLaws.CompressesExactly` | streebog/streebog.go:302-319 | The compression function over any sequences of thirteen round keys and states. |
| `StreebogLaws.LpsExactly` | streebog/streebog.go:265-288 | Word i of LPS is the linear map of word i of the substituted and permuted bytes. |
| `StreebogLaws.RowOfBit` | streebog/streebog.go:210-241 | The linear map takes a lone bit to its row. |
| `StreebogLaws.LoadLowFirst` | streebog/streebog.go:243-251 | Words are read with their low byte first. |
| `Gostr341194.PIsPermutation` | gostr341194/gostr341194.go:154-162 | P moves every byte to a place of its own. |
| `Gostr341194.PsiInjective` | gostr341194/gostr341194.go:173-196 | Psi loses nothing. |
| `LittleEndian.AddBytes` | gostr341194/gostr341194.go:272-281 | addMod is addition modulo 256^n. |
| `Gostr341194.ExtraBlockExactly` | gostr341194/gostr341194.go:371-377 | The extra zero block is compressed exactly for lengths that are multiples of 2^61 bytes, hence below that only for the empty message. |
| `Gostr341194.Hasher.constructor` | gostr341194/gostr341194.go:294-303 | A new hash holds the empty message. |
| `Gostr341194.Hasher.Reset` | gostr341194/gostr341194.go:301-303 | Back to the empty message. |
| `Gostr341194.Hasher.ProcessBlock` | gostr341194/gostr341194.go:389-394 | One block: chaining value, length modulo 2^64, checksum modulo 2^256. |
| `Gostr341194.Hasher.Write` | gostr341194/gostr341194.go:305-340 | The bytes join the message, however the buffer stood. |
| `Gostr341194.Hasher.Sum` | gostr341194/gostr341194.go:354-385 | Appends the one-shot digest of everything written and modifies nothing. |
| `Gostr341194.StateDetermined` | gostr341194/gostr341194.go:284-290 | The state depends only on the concatenated message. |
| `Gostr341194Laws.DigestExactly` | gostr341194/gostr341194.go:354-385 | For every message of fewer than 2^64 bits the digest is the procedure of section 6 of RFC 5831, a recursion on the remaining message. |
| `Gostr341194Laws.ChiExactly` | gostr341194/gostr341194.go:234-267 | The mixing stage over three runs of the byte recurrence behind psi. |
| `Gostr341194Laws.KeysExactly` | gostr341194/gostr341194.go:234-253 | The key words step by A and by A twice, with C3 before the third key, and P spreads their sum. |
| `Gostr341194Laws.EncryptHExactly` | gostr341194/gostr341194.go:220-231 | Word i of the chaining value is encrypted under key i. |
| `Gostr341194Laws.AExactly` | gostr341194/gostr341194.go:121-133 | A drops the lowest word and puts its sum with the next on top. |
| `ConstantsAsNumbers.CompressionConstant` | gostr341194/gostr341194.go:89-114 | C3 as one number. |
| `Gost28147.SubstitutesNibbles` | gost28147/gost28147.go:136-146 | t replaces each of the eight nibbles by its own row. |
| `Gost28147.Cipher.constructor` | gost28147/gost28147.go:82-93 | Eight little-endian subkeys. |
| `Gost28147.Cipher.XCrypt` | gost28147/gost28147.go:156-162 | The 32 rounds over a schedule. |
| `Gost28147.Cipher.Encrypt` | gost28147/gost28147.go:98-109 | Writes the encrypted block and nothing else, in place or not. |
| `Gost28147.Cipher.Decrypt` | gost28147/gost28147.go:112-123 | Writes the decrypted block and nothing else, in place or not. |
| `Gost28147.RoundsUndone` | gost28147/gost28147.go:62-72 | Reversed rounds on swapped halves walk the forward rounds back, at every depth. |
| `Gost28147.DecryptEncrypt` | gost28147/gost28147.go:98-123 | Decrypt and Encrypt undo each other for every S-box, key and block. |
| `Gost28147Laws.CryptExactly` | gost28147/gost28147.go:98-123 | Each direction runs one sequence of words through the rounds, the subkeys rising three times or once before they fall. |
| `Gost28147Laws.SchedulesExactly` | gost28147/gost28147.go:62-72 | The subkey of each round in closed form. |
| `Gost28147Laws.RotationExactly` | gost28147/gost28147.go:149-152 | The rotation is eleven doublings with end-around carry. |
| `Gost28147Laws.LoadLowFirst` | gost28147/gost28147.go:82-93 | Words are read with their low byte first. |
| `Cnt.HiStepModular` | gost28147cnt/cnt.go:163-172 | The end-around carry is addition modulo 2^32 - 1 and never yields zero. |
| `Cnt.StepsWords` | gost28147cnt/cnt.go:157-172 | A run of m steps adds m·C2 modulo 2^32 below and m·C1 modulo 2^32 - 1 above; the upper word is nonzero from the first step on. |
| `Cnt.BetweenMeshes` | gost28147cnt/cnt.go:134-181 | Within 128 blocks from a meshing point the key stays and the counter only steps. |
| `Cnt.CountMeans` | gost28147cnt/cnt.go:137-141 | The byte count meets the threshold exactly before blocks 128, 256, and so on. |
| `Cnt.CNT.constructor` | gost28147cnt/cnt.go:79-88 | A fresh stream. |
| `Cnt.CNT.MeshKey` | gost28147cnt/cnt.go:116-130 | New key from the decrypted constant, counter re-encrypted under it (section 2.3.2 of RFC 4357). |
| `Cnt.AdvanceCounter` | gost28147cnt/cnt.go:157-172 | Both counter words advance by one step. |
| `Cnt.CNT.NextGamma` | gost28147cnt/cnt.go:134-181 | The next state and gamma block; the key changes exactly before blocks 128, 256, and so on. |
| `Cnt.CNT.XORKeyStream` | gost28147cnt/cnt.go:97-110 | Writes the input under the stream from the current position and advances it. |
| `Cnt.StreamSplit` | gost28147cnt/cnt.go:97-110 | Output depends only on the concatenated input. |
| `Cnt.StreamInvolution` | gost28147cnt/cnt.go:97-110 | Encryption and decryption are one operation. |
| `CntLaws.GammaExactly` | gost28147cnt/cnt.go:97-181 | Gamma block m of section j is the encrypted block whose words lie m + 1 steps past the start of the section, the first start being the encrypted IV, later ones the encrypted last counter under the meshed key. |
| `CntLaws.AdvancedUnique` | gost28147cnt/cnt.go:157-172 | Those words determine the counter block. |
| `ConstantsAsNumbers.MeshingConstant` | gost28147cnt/cnt.go:116-130 | The meshing constant as one number. |
| `ChainSearch.BuildRec` | x509gost/verify.go:376-426 | The recursive search returns the first chain in pool order, and on failure the flag tells exactly whether a pool is mixed. |
| `ChainSearch.IsPathEverywhere` | x509gost/verify.go:376-426 | A path is a chain whose every position meets the edge and pool conditions. |
| `ChainSearch.SearchExact` | x509gost/verify.go:376-426 | The search returns exactly the least path with at most depth certificates below the root, in the order that puts roots before intermediates and then goes by pool index, lexicographic along the path; it returns none exactly when there is no such path. |
| `ChainSearch.PrecedesAsymmetric` | x509gost/verify.go:376-426 | The search order is asymmetric, so the least path is unique. |
| `ChainSearch.ValidateConstraints` | x509gost/verify.go:330-369 | No error exactly when every position meets the critical-extension, path-length and name checks; else the first error. |
| `ChainSearch.BuildChain` | x509gost/verify.go:264-304 | The outcome of search and checks, each error in its case. |
| `ChainSearch.OutcomeSound` | x509gost/verify.go:264-304 | A returned chain is a path of at most nine certificates that meets every check at every position. |
| `ChainSearch.NoChainExact` | x509gost/verify.go:296-301 | The two no-chain errors are raised exactly when no path within the bound exists. |
| `ChainSearch.SucceedsExactly` | x509gost/verify.go:290-295 | A chain is returned if and only if it is the least path within the bound and meets every check at every position. |
| `ChainSearch.CompleteWhenAllMeet` | x509gost/verify.go:290-295 | If every path within the bound meets the checks, verification succeeds exactly when there is one. |
| `ChainSearch.OneIssuerOnePath` | x509gost/verify.go:376-426 | When the leaf and every intermediate have at most one usable issuer in the pools there is at most one path. |
| `ChainSearch.CompleteWhenOneIssuer` | x509gost/verify.go:290-295 | On such pools verification succeeds if and only if some path within the bound meets the checks. |
| `ChainSearch.LaterChainNotTried` | x509gost/verify.go:290-295 | A concrete pool where a valid path exists and verification fails, because only the first chain is checked. |
| `ChainSearch.UnconstrainedMeets` | x509gost/verify.go:330-369 | When no certificate imposes a constraint every path meets the checks. |
| `ChainSearch.NineCertificatesVerify` | x509gost/verify.go:74-76 | A chain of nine certificates verifies: the bound counts those below the root. |
| `ChainSearchLaws.MeetsExactly` | x509gost/verify.go:330-369 | What the checks ask: no unhandled critical extension, no more intermediates below a certificate than it allows, and names admitted by each certificate above them. |
| `ChainSearchLaws.FailsExactly` | x509gost/verify.go:330-369 | The error is that of the first failing position, extension before path length before names. |
| `ChainSearchLaws.MixedExactly` | x509gost/verify.go:296-301 | Without a path the error names a mixed pool exactly when some entry is outside the family. |
| `Omac.ShiftLeftXorRb` | omac/omac.go:127-142 | The shift with conditional reduction is the doubling of the field. |
| `Omac.SubkeysAreProducts` | omac/omac.go:108-117 | K1 and K2 are the encrypted zero block times w and w² in the field. |
| `Omac.OMAC.constructor` | omac/omac.go:65-84 | A fresh accumulator with both subkeys. |
| `Omac.OMAC.CbcStep` | omac/omac.go:224-231 | Chaining the full buffer keeps the tag of every continuation. |
| `Omac.OMAC.Write` | omac/omac.go:151-173 | The bytes join the message, in any pieces. |
| `Omac.OMAC.Sum` | omac/omac.go:180-213 | Appends the tag of everything written (section 2.4 of RFC 4493) and modifies nothing. |
| `OmacLaws.TagExactly` | omac/omac.go:180-213 | On the message cut into whole blocks and a last one, the tag is the leading bytes of the encryption of the chained state plus the last block under E(0)·w, or padded with 0x80 under E(0)·w². |

## Left out

- KuznyechikCipher.Cipher.NewCipher: takes the S-box as a parameter that repeats no byte instead of the literal table.
- CtrAcpkm.CTR.BulkXOR: the scratch buffers are local sequences, and their reuse across calls is not modelled.
- CtrAcpkm.FusedXOR: the fused interface is bound to the one cipher of the library that implements it, Kuznyechik with 16-byte blocks.
- Gost28147.SubstitutesNibbles: t is written as a recursion over nibbles instead of a loop with shifts by 4i.
- Mgm.MGM.Seal: dst, plaintext and additional data are values; overlap of dst with the input and the reuse of dst's capacity are not modelled. The scratch fields pad, mul and lenB are locals.
- Mgm.LimitsExact: models a 64-bit platform, where the shift in maxFieldLen always fits.
- ChainSearch.BuildChain: signature checking with validity dates and issuer constraints is one predicate on a pair of certificates, and name matching another; the checks on the leaf that come before the search are not modelled.
- The texts of the 8-limb point and scalar files: they repeat the 4-limb formulas, which are modelled over any number of limbs. A machine word of big.Int is fixed at 64 bits.
- Literal curve constants, S-boxes, permutation, matrix rows and round constants are parameters. The chosen literals that a property depends on (the coefficients of r, C3, the meshing constant, the field polynomials) are included.
- ct.ByteEq and ct.SelectByte: the same laws on bytes.
- Byte slices that share storage at different offsets: buffers are one array or do not overlap, as the aliasing check in the source demands.
- The facade packages, the KDF and wrapping compositions, magma, the imitation MAC, certificate parsing, timing behaviour, lazy initialisation, entropy and detection of processor features.
- The vector instructions are given by their effect on each lane; the registers are sequences of 32 bytes.
