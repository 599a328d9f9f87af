/** Byte blocks under exclusive or, additive maps on them, and their decomposition over
    byte positions and over bits. Shared by the table-driven ciphers and hashes. */
module Blocks {
  import opened Gf256

  /** Byte-wise exclusive or of two blocks of one length. */
  function XorSeq(a: seq<Byte>, b: seq<Byte>): (r: seq<Byte>)
    requires |a| == |b|
    ensures |r| == |a|
    ensures forall i :: 0 <= i < |r| ==> r[i] == Xor(a[i], b[i])
  {
    seq(|a|, i requires 0 <= i < |a| => Xor(a[i], b[i]))
  }

  function Zeros(n: nat): (r: seq<Byte>)
    ensures |r| == n && forall i :: 0 <= i < n ==> r[i] == 0
  {
    seq(n, _ => 0)
  }

  /** The block of length n with b at position pos and 0 elsewhere. */
  function Unit(n: nat, pos: nat, b: Byte): (r: seq<Byte>)
    requires pos < n
    ensures |r| == n && r[pos] == b
    ensures forall i :: 0 <= i < n && i != pos ==> r[i] == 0
  {
    Zeros(n)[pos := b]
  }

  lemma XorSeqZero(a: seq<Byte>)
    ensures XorSeq(a, Zeros(|a|)) == a && XorSeq(Zeros(|a|), a) == a
    ensures XorSeq(a, a) == Zeros(|a|)
  {
    hide Xor;
    forall i | 0 <= i < |a|
      ensures Xor(a[i], 0) == a[i] && Xor(0, a[i]) == a[i] && Xor(a[i], a[i]) == 0
    {
      XorZero(a[i]);
    }
    assert XorSeq(a, Zeros(|a|)) == a;
    assert XorSeq(Zeros(|a|), a) == a;
    assert XorSeq(a, a) == Zeros(|a|);
  }

  lemma XorSeqCancel(a: seq<Byte>, k: seq<Byte>)
    requires |a| == |k|
    ensures XorSeq(XorSeq(a, k), k) == a
  {
    hide Xor;
    forall i | 0 <= i < |a| ensures XorSeq(XorSeq(a, k), k)[i] == a[i] {
      XorCancel(k[i], a[i]);
    }
  }

  lemma XorSeqAssoc(a: seq<Byte>, b: seq<Byte>, c: seq<Byte>)
    requires |a| == |b| == |c|
    ensures XorSeq(XorSeq(a, b), c) == XorSeq(a, XorSeq(b, c))
  {
    hide Xor;
    forall i | 0 <= i < |a| ensures XorSeq(XorSeq(a, b), c)[i] == XorSeq(a, XorSeq(b, c))[i] {
      XorAssoc(a[i], b[i], c[i]);
    }
  }

  lemma XorSeqSwap(a: seq<Byte>, b: seq<Byte>, c: seq<Byte>, d: seq<Byte>)
    requires |a| == |b| == |c| == |d|
    ensures XorSeq(XorSeq(a, b), XorSeq(c, d)) == XorSeq(XorSeq(a, c), XorSeq(b, d))
  {
    hide Xor;
    var l, r := XorSeq(XorSeq(a, b), XorSeq(c, d)), XorSeq(XorSeq(a, c), XorSeq(b, d));
    forall i | 0 <= i < |a| ensures l[i] == r[i] {
      XorSwap(a[i], b[i], c[i], d[i]);
    }
  }

  lemma XorSeqConcat(a: seq<Byte>, b: seq<Byte>, c: seq<Byte>, d: seq<Byte>)
    requires |a| == |c| && |b| == |d|
    ensures XorSeq(a + b, c + d) == XorSeq(a, c) + XorSeq(b, d)
  {
    hide Xor;
    assert XorSeq(a + b, c + d) == XorSeq(a, c) + XorSeq(b, d);
  }

  // ---- additive maps ----

  /** One instance of additivity; also the trigger of Additive. */
  ghost predicate AdditiveAt(n: nat, f: seq<Byte> -> seq<Byte>, a: seq<Byte>, b: seq<Byte>)
  {
    |a| == n && |b| == n ==>
      |f(a)| == n && |f(b)| == n && f(XorSeq(a, b)) == XorSeq(f(a), f(b))
  }

  /** f maps blocks of length n to blocks of length n and respects exclusive or. */
  ghost predicate Additive(n: nat, f: seq<Byte> -> seq<Byte>)
  {
    forall a, b :: AdditiveAt(n, f, a, b)
  }

  lemma AdditiveZero(n: nat, f: seq<Byte> -> seq<Byte>)
    requires Additive(n, f)
    ensures f(Zeros(n)) == Zeros(n)
  {
    var z := Zeros(n);
    assert AdditiveAt(n, f, z, z);
    XorSeqZero(z);
    XorSeqZero(f(z));
  }

  /** The contributions of the first k byte positions of x, after a byte substitution t. */
  function SumOver(n: nat, f: seq<Byte> -> seq<Byte>, t: Byte -> Byte, x: seq<Byte>, k: nat): (r: seq<Byte>)
    requires |x| == n && k <= n
    requires forall p: nat, b: Byte :: p < n ==> |f(Unit(n, p, b))| == n
    ensures |r| == n
  {
    if k == 0 then Zeros(n)
    else XorSeq(SumOver(n, f, t, x, k - 1), f(Unit(n, k - 1, t(x[k - 1]))))
  }

  /** The first k bytes of t applied bytewise to x, followed by zeros. */
  function Masked(n: nat, t: Byte -> Byte, x: seq<Byte>, k: nat): (r: seq<Byte>)
    requires |x| == n && k <= n
    ensures |r| == n
  {
    seq(n, i requires 0 <= i < n => if i < k then t(x[i]) else 0)
  }

  lemma MaskedStep(n: nat, t: Byte -> Byte, x: seq<Byte>, k: nat)
    requires |x| == n && 0 < k <= n
    ensures Masked(n, t, x, k) == XorSeq(Masked(n, t, x, k - 1), Unit(n, k - 1, t(x[k - 1])))
  {
    hide Xor;
    var m, u := Masked(n, t, x, k - 1), Unit(n, k - 1, t(x[k - 1]));
    forall i | 0 <= i < n ensures Masked(n, t, x, k)[i] == XorSeq(m, u)[i] {
      XorZero(m[i]);
      XorZero(u[i]);
    }
  }

  /** An additive map of a substituted block is the sum over its byte positions. */
  lemma {:induction false} Decompose(n: nat, f: seq<Byte> -> seq<Byte>, t: Byte -> Byte, x: seq<Byte>, k: nat)
    requires Additive(n, f) && |x| == n && k <= n
    requires forall p: nat, b: Byte :: p < n ==> |f(Unit(n, p, b))| == n
    ensures SumOver(n, f, t, x, k) == f(Masked(n, t, x, k))
  {
    if k == 0 {
      AdditiveZero(n, f);
      assert Masked(n, t, x, 0) == Zeros(n);
    } else {
      Decompose(n, f, t, x, k - 1);
      MaskedStep(n, t, x, k);
      assert AdditiveAt(n, f, Masked(n, t, x, k - 1), Unit(n, k - 1, t(x[k - 1])));
    }
  }

  lemma UnitXor(n: nat, p: nat, a: Byte, b: Byte)
    requires p < n
    ensures Unit(n, p, Xor(a, b)) == XorSeq(Unit(n, p, a), Unit(n, p, b))
  {
    hide Xor;
    XorZero(0);
    assert Unit(n, p, Xor(a, b)) == XorSeq(Unit(n, p, a), Unit(n, p, b));
  }

  // ---- bits of a byte ----

  /** v >> j. */
  function ShrBy(v: Byte, j: nat): Byte { if j == 0 then v else Shr(ShrBy(v, j - 1)) }

  /** v << j. */
  function ShlBy(v: Byte, j: nat): Byte { if j == 0 then v else Shl(ShlBy(v, j - 1)) }

  /** The k low bits of v, summed. */
  function LowBits(v: Byte, k: nat): Byte
  {
    if k == 0 then 0 else Xor(LowBits(v, k - 1), Pick(Odd(ShrBy(v, k - 1)), ShlBy(1, k - 1)))
  }

  lemma LowBitsAll(v: Byte)
    ensures LowBits(v, 8) == v
  {
    hide Shr, Shl, Odd, Pick, Xor, ShrBy, ShlBy, LowBits;
    Shifts(v);
    PowersOfTwo();
    var b4 := Shr(Shr(Shr(Shr(v))));
    LowBitsUnfold(v);
    EightBitSum(v);
  }

  lemma Shifts(v: Byte)
    ensures ShrBy(v, 0) == v && ShrBy(v, 1) == Shr(v) && ShrBy(v, 2) == Shr(Shr(v)) && ShrBy(v, 3) == Shr(Shr(Shr(v)))
    ensures ShrBy(v, 4) == Shr(Shr(Shr(Shr(v)))) && ShrBy(v, 5) == Shr(ShrBy(v, 4))
    ensures ShrBy(v, 6) == Shr(Shr(ShrBy(v, 4))) && ShrBy(v, 7) == Shr(Shr(Shr(ShrBy(v, 4))))
  {
    hide Shr;
  }

  lemma PowersOfTwo()
    ensures ShlBy(1, 0) == 1 && ShlBy(1, 1) == 2 && ShlBy(1, 2) == 4 && ShlBy(1, 3) == 8
    ensures ShlBy(1, 4) == 0x10 && ShlBy(1, 5) == 0x20 && ShlBy(1, 6) == 0x40 && ShlBy(1, 7) == 0x80
  {
    assert ShlBy(1, 3) == 8;
    assert ShlBy(1, 6) == 0x40;
  }

  lemma LowBitsUnfold(v: Byte)
    ensures
      var b := (j: nat) => Pick(Odd(ShrBy(v, j)), ShlBy(1, j));
      LowBits(v, 8) == Xor(Xor(Xor(Xor(Xor(Xor(Xor(Xor(0, b(0)), b(1)), b(2)), b(3)), b(4)), b(5)), b(6)), b(7))
  {
    hide Shr, Shl, Odd, Pick, Xor, ShrBy, ShlBy;
    assert LowBits(v, 1) == Xor(0, Pick(Odd(ShrBy(v, 0)), ShlBy(1, 0)));
    assert LowBits(v, 2) == Xor(Xor(0, Pick(Odd(ShrBy(v, 0)), ShlBy(1, 0))), Pick(Odd(ShrBy(v, 1)), ShlBy(1, 1)));
    assert LowBits(v, 4) == Xor(Xor(LowBits(v, 2), Pick(Odd(ShrBy(v, 2)), ShlBy(1, 2))), Pick(Odd(ShrBy(v, 3)), ShlBy(1, 3)));
    assert LowBits(v, 6) == Xor(Xor(LowBits(v, 4), Pick(Odd(ShrBy(v, 4)), ShlBy(1, 4))), Pick(Odd(ShrBy(v, 5)), ShlBy(1, 5)));
  }

  lemma EightBitSum(v: Byte)
    ensures
      var b4 := Shr(Shr(Shr(Shr(v))));
      Xor(Xor(Xor(Xor(Xor(Xor(Xor(Xor(0, Pick(Odd(v), 1)), Pick(Odd(Shr(v)), 2)), Pick(Odd(Shr(Shr(v))), 4)),
        Pick(Odd(Shr(Shr(Shr(v)))), 8)), Pick(Odd(b4), 0x10)), Pick(Odd(Shr(b4)), 0x20)),
        Pick(Odd(Shr(Shr(b4))), 0x40)), Pick(Odd(Shr(Shr(Shr(b4)))), 0x80)) == v
  {
  }

  /** The contribution of the k low bits of the byte v at position p. */
  function BitSum(n: nat, f: seq<Byte> -> seq<Byte>, p: nat, v: Byte, k: nat): (r: seq<Byte>)
    requires p < n
    requires forall b: Byte :: |f(Unit(n, p, b))| == n
    ensures |r| == n
  {
    if k == 0 then Zeros(n)
    else XorSeq(BitSum(n, f, p, v, k - 1),
                if Odd(ShrBy(v, k - 1)) then f(Unit(n, p, ShlBy(1, k - 1))) else Zeros(n))
  }

  /** Adding the columns selected by the bits of v gives the image of v at position p. */
  lemma {:induction false} BitDecompose(n: nat, f: seq<Byte> -> seq<Byte>, p: nat, v: Byte, k: nat)
    requires Additive(n, f) && p < n
    requires forall b: Byte :: |f(Unit(n, p, b))| == n
    ensures BitSum(n, f, p, v, k) == f(Unit(n, p, LowBits(v, k)))
  {
    hide Xor, Odd, ShrBy, ShlBy;
    assert Unit(n, p, 0) == Zeros(n);
    AdditiveZero(n, f);
    if k > 0 {
      BitDecompose(n, f, p, v, k - 1);
      var b := Pick(Odd(ShrBy(v, k - 1)), ShlBy(1, k - 1));
      UnitXor(n, p, LowBits(v, k - 1), b);
      assert AdditiveAt(n, f, Unit(n, p, LowBits(v, k - 1)), Unit(n, p, b));
    }
  }
}
