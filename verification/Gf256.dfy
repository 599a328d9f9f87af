/** Multiplication in GF(2)[x]/(x^8+x^7+x^6+x+1) as kuznyechik.go computes it, and its
    linearity in each argument. Bytes are bit-vectors; their sum is `Xor`. */
module Gf256 {

  type Byte = bv8

  function Xor(a: Byte, b: Byte): Byte { a ^ b }

  lemma XorZero(a: Byte)
    ensures Xor(a, 0) == a && Xor(0, a) == a
    ensures Xor(a, a) == 0
  {
  }

  lemma XorCancel(a: Byte, b: Byte)
    ensures Xor(a, Xor(a, b)) == b && Xor(Xor(b, a), a) == b
  {
  }

  lemma XorComm(a: Byte, b: Byte)
    ensures Xor(a, b) == Xor(b, a)
  {
  }

  lemma XorAssoc(a: Byte, b: Byte, c: Byte)
    ensures Xor(Xor(a, b), c) == Xor(a, Xor(b, c))
  {
  }

  /** Sums of two pairs regroup. */
  lemma XorSwap(a: Byte, b: Byte, c: Byte, d: Byte)
    ensures Xor(Xor(a, b), Xor(c, d)) == Xor(Xor(a, c), Xor(b, d))
  {
    hide Xor;
    XorAssoc(a, b, Xor(c, d));
    XorAssoc(b, c, d);
    XorComm(b, c);
    XorAssoc(c, b, d);
    XorAssoc(a, c, Xor(b, d));
  }

  // ---- one bit of the shift-and-add loop ----

  function Shl(a: Byte): Byte { a << 1 }

  function Shr(a: Byte): Byte { a >> 1 }

  predicate Odd(a: Byte) { a & 1 != 0 }

  predicate TopBit(a: Byte) { a & 0x80 != 0 }

  /** a when the bit c is set, 0 otherwise. */
  function Pick(c: bool, a: Byte): Byte { if c then a else 0 }

  /** Multiplication by x, reduced by the low byte 0xC3 of the field polynomial. */
  function Xtime(a: Byte): Byte
  {
    Xor(Shl(a), Pick(TopBit(a), 0xC3))
  }

  /** The product of a with the n low bits of b. */
  function GfBits(n: nat, a: Byte, b: Byte): Byte
  {
    if n == 0 then 0
    else Xor(Pick(Odd(b), a), GfBits(n - 1, Xtime(a), Shr(b)))
  }

  function Gf(a: Byte, b: Byte): Byte { GfBits(8, a, b) }

  /** The body of gf's loop writes the reduction as a conditional. */
  lemma XtimeBranches(a: Byte)
    ensures Xtime(a) == if TopBit(a) then Xor(Shl(a), 0xC3) else Shl(a)
  {
    hide Xor, Shl, TopBit;
    XorZero(Shl(a));
  }

  predicate Positive(b: Byte) { b > 0 }

  lemma NotPositive(b: Byte)
    ensures !Positive(b) ==> b == 0
  {
  }

  /** gf: shift-and-add until b is exhausted. */
  method GfLoop(a0: Byte, b0: Byte) returns (c: Byte)
    ensures c == Gf(a0, b0)
  {
    hide Xtime, GfBits, FitsBits, Xor, Odd, Shr, Shl, TopBit, Positive;
    var a, b := a0, b0;
    c := 0;
    ghost var n: nat := 8;
    EightBits(b);
    XorZero(GfBits(n, a, b));
    while Positive(b)
      invariant Xor(c, GfBits(n, a, b)) == Gf(a0, b0)
      invariant FitsBits(n, b)
      decreases n
    {
      GfStep(n, a, b);
      XorAssoc(c, Pick(Odd(b), a), GfBits(n - 1, Xtime(a), Shr(b)));
      XorZero(c);
      if Odd(b) { c := Xor(c, a); }
      XtimeBranches(a);
      if TopBit(a) {
        a := Xor(Shl(a), 0xC3);
      } else {
        a := Shl(a);
      }
      b := Shr(b);
      n := n - 1;
    }
    NotPositive(b);
    GfZeroRight(n, a);
    XorZero(c);
  }

  /** One unfolding of GfBits and of FitsBits, for a b that is not exhausted. */
  lemma GfStep(n: nat, a: Byte, b: Byte)
    requires Positive(b) && FitsBits(n, b)
    ensures n > 0 && FitsBits(n - 1, Shr(b))
    ensures GfBits(n, a, b) == Xor(Pick(Odd(b), a), GfBits(n - 1, Xtime(a), Shr(b)))
  {
    hide Xtime, Xor, Odd, Pick, Shr;
  }

  /** b has at most n bits. */
  ghost predicate FitsBits(n: nat, b: Byte)
  {
    if n == 0 then b == 0 else FitsBits(n - 1, Shr(b))
  }

  lemma EightShifts(b: Byte)
    ensures Shr(Shr(Shr(Shr(Shr(Shr(Shr(Shr(b)))))))) == 0
  {
  }

  lemma EightBits(b: Byte)
    ensures FitsBits(8, b)
  {
    hide Shr;
    var b1, b2, b3, b4 := Shr(b), Shr(Shr(b)), Shr(Shr(Shr(b))), Shr(Shr(Shr(Shr(b))));
    var b5, b6, b7, b8 := Shr(b4), Shr(Shr(b4)), Shr(Shr(Shr(b4))), Shr(Shr(Shr(Shr(b4))));
    EightShifts(b);
    assert FitsBits(0, b8) && FitsBits(1, b7) && FitsBits(2, b6);
    assert FitsBits(3, b5) && FitsBits(4, b4) && FitsBits(5, b3);
    assert FitsBits(6, b2) && FitsBits(7, b1);
  }

  lemma {:induction false} GfZeroRight(n: nat, a: Byte)
    ensures GfBits(n, a, 0) == 0
  {
    hide Xtime;
    if n > 0 {
      GfZeroRight(n - 1, Xtime(a));
      assert Shr(0) == 0 && !Odd(0);
      assert Pick(Odd(0), a) == 0;
      XorZero(0);
    }
  }

  // ---- linearity ----

  lemma ShlXor(a: Byte, b: Byte)
    ensures Shl(Xor(a, b)) == Xor(Shl(a), Shl(b))
  {
  }

  lemma ShrXor(a: Byte, b: Byte)
    ensures Shr(Xor(a, b)) == Xor(Shr(a), Shr(b))
  {
  }

  lemma TopBitXor(a: Byte, b: Byte)
    ensures TopBit(Xor(a, b)) == (TopBit(a) != TopBit(b))
  {
  }

  lemma OddXor(a: Byte, b: Byte)
    ensures Odd(Xor(a, b)) == (Odd(a) != Odd(b))
  {
  }

  lemma PickXor(c: bool, a: Byte, b: Byte)
    ensures Pick(c, Xor(a, b)) == Xor(Pick(c, a), Pick(c, b))
  {
  }

  lemma PickBitXor(c: bool, d: bool, a: Byte)
    ensures Pick(c != d, a) == Xor(Pick(c, a), Pick(d, a))
  {
  }

  lemma XtimeXor(a: Byte, b: Byte)
    ensures Xtime(Xor(a, b)) == Xor(Xtime(a), Xtime(b))
  {
    hide Xor, Shl, TopBit, Pick;
    ShlXor(a, b);
    TopBitXor(a, b);
    PickBitXor(TopBit(a), TopBit(b), 0xC3);
    XorSwap(Shl(a), Shl(b), Pick(TopBit(a), 0xC3), Pick(TopBit(b), 0xC3));
  }

  /** Additive in the left factor. */
  lemma {:induction false} GfXorLeft(n: nat, a: Byte, a': Byte, b: Byte)
    ensures GfBits(n, Xor(a, a'), b) == Xor(GfBits(n, a, b), GfBits(n, a', b))
  {
    hide Xtime, Pick, Xor, Shr, Odd;
    if n == 0 {
      XorZero(0);
    } else {
      XtimeXor(a, a');
      GfXorLeft(n - 1, Xtime(a), Xtime(a'), Shr(b));
      PickXor(Odd(b), a, a');
      XorSwap(Pick(Odd(b), a), Pick(Odd(b), a'),
              GfBits(n - 1, Xtime(a), Shr(b)), GfBits(n - 1, Xtime(a'), Shr(b)));
    }
  }

  /** Additive in the right factor. */
  lemma {:induction false} GfXorRight(n: nat, a: Byte, b: Byte, b': Byte)
    ensures GfBits(n, a, Xor(b, b')) == Xor(GfBits(n, a, b), GfBits(n, a, b'))
  {
    hide Xtime, Pick, Xor, Shr, Odd;
    if n == 0 {
      XorZero(0);
    } else {
      ShrXor(b, b');
      OddXor(b, b');
      GfXorRight(n - 1, Xtime(a), Shr(b), Shr(b'));
      PickBitXor(Odd(b), Odd(b'), a);
      XorSwap(Pick(Odd(b), a), Pick(Odd(b'), a),
              GfBits(n - 1, Xtime(a), Shr(b)), GfBits(n - 1, Xtime(a), Shr(b')));
    }
  }

  /** Multiplying by x commutes with multiplying by b. */
  lemma {:induction false} GfXtime(n: nat, a: Byte, b: Byte)
    ensures GfBits(n, Xtime(a), b) == Xtime(GfBits(n, a, b))
  {
    hide Xtime, Pick, Xor, Shr, Odd;
    XtimeZero();
    if n > 0 {
      GfXtime(n - 1, Xtime(a), Shr(b));
      XtimeXor(Pick(Odd(b), a), GfBits(n - 1, Xtime(a), Shr(b)));
      XtimePick(Odd(b), a);
    }
  }

  lemma XtimeZero()
    ensures Xtime(0) == 0
  {
  }

  lemma XtimePick(c: bool, a: Byte)
    ensures Xtime(Pick(c, a)) == Pick(c, Xtime(a))
  {
    hide Xtime;
    XtimeZero();
  }

  lemma {:induction false} GfZeroLeft(n: nat, b: Byte)
    ensures GfBits(n, 0, b) == 0
  {
    hide Xtime, Xor, Shr, Odd;
    if n > 0 {
      XtimeZero();
      GfZeroLeft(n - 1, Shr(b));
      XorZero(0);
    }
  }

  lemma GfPick(c: bool, a: Byte, b: Byte)
    ensures Gf(Pick(c, a), b) == Pick(c, Gf(a, b))
  {
    hide GfBits;
    GfZeroLeft(8, b);
  }

  lemma GfOfZero(b: Byte)
    ensures Gf(0, b) == 0
  {
    hide GfBits;
    GfZeroLeft(8, b);
  }

  lemma GfAdditive(a: Byte, a': Byte, b: Byte)
    ensures Gf(Xor(a, a'), b) == Xor(Gf(a, b), Gf(a', b))
  {
    hide GfBits, Xor;
    GfXorLeft(8, a, a', b);
  }

  lemma GfOfXtime(a: Byte, b: Byte)
    ensures Gf(Xtime(a), b) == Xtime(Gf(a, b))
  {
    hide GfBits, Xtime;
    GfXtime(8, a, b);
  }

  lemma GfNone(a: Byte, b: Byte)
    ensures GfBits(0, a, b) == 0
  {
    hide Xtime, Shr, Odd;
  }

  /** (v x) c == (v c) x: two multiplications commute. */
  lemma {:induction false} GfScalars(n: nat, v: Byte, x: Byte, c: Byte)
    ensures Gf(GfBits(n, v, x), c) == GfBits(n, Gf(v, c), x)
  {
    hide Xtime, Pick, Xor, Shr, Odd, Gf;
    if n == 0 {
      GfOfZero(c);
    } else {
      var rest := GfBits(n - 1, Xtime(v), Shr(x));
      GfAdditive(Pick(Odd(x), v), rest, c);
      GfPick(Odd(x), v, c);
      GfScalars(n - 1, Xtime(v), Shr(x), c);
      GfOfXtime(v, c);
    }
  }

  /** 1 is the unit of the left factor. */
  lemma GfOne(b: Byte)
    ensures Gf(1, b) == b
  {
    hide Shr, Odd, Pick, Xor, Xtime, GfBits;
    XtimeOfOne();
    var b1, b2, b3, b4 := Shr(b), Shr(Shr(b)), Shr(Shr(Shr(b))), Shr(Shr(Shr(Shr(b))));
    var b5, b6, b7 := Shr(b4), Shr(Shr(b4)), Shr(Shr(Shr(b4)));
    GfUnfold(8, 1, b); GfUnfold(7, 2, b1); GfUnfold(6, 4, b2); GfUnfold(5, 8, b3);
    GfUnfold(4, 0x10, b4); GfUnfold(3, 0x20, b5); GfUnfold(2, 0x40, b6); GfUnfold(1, 0x80, b7);
    GfNone(Xtime(0x80), Shr(b7));
    BitsOfByte(b);
  }

  lemma XtimeOfOne()
    ensures Xtime(1) == 2 && Xtime(2) == 4 && Xtime(4) == 8 && Xtime(8) == 0x10
    ensures Xtime(0x10) == 0x20 && Xtime(0x20) == 0x40 && Xtime(0x40) == 0x80
  {
  }

  lemma GfUnfold(n: nat, a: Byte, b: Byte)
    requires n > 0
    ensures GfBits(n, a, b) == Xor(Pick(Odd(b), a), GfBits(n - 1, Xtime(a), Shr(b)))
  {
    hide Shr, Odd, Pick, Xor, Xtime;
  }

  /** A byte is the sum of its bits. */
  lemma BitsOfByte(b: Byte)
    ensures
      var b4 := Shr(Shr(Shr(Shr(b))));
      Xor(Pick(Odd(b), 1), Xor(Pick(Odd(Shr(b)), 2), Xor(Pick(Odd(Shr(Shr(b))), 4),
        Xor(Pick(Odd(Shr(Shr(Shr(b)))), 8), Xor(Pick(Odd(b4), 0x10), Xor(Pick(Odd(Shr(b4)), 0x20),
        Xor(Pick(Odd(Shr(Shr(b4))), 0x40), Xor(Pick(Odd(Shr(Shr(Shr(b4)))), 0x80), 0)))))))) == b
  {
  }
}
