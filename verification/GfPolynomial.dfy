/** gf of kuznyechik.go is multiplication of polynomials over GF(2) modulo x^8+x^7+x^6+x+1. */
module GfPolynomial {
  import opened Gf256
  import opened Blocks
  import opened BinaryPoly
  import opened MgmField

  /** A byte as a polynomial. */
  function BytePoly(a: Byte): Poly { BlockPoly([a]) }

  /** The modulus. */
  const MODULUS: Poly := {8, 7, 6, 1, 0}

  lemma BytePolyXor(a: Byte, b: Byte)
    ensures BytePoly(Xor(a, b)) == Plus(BytePoly(a), BytePoly(b))
  {
    hide Xor, BlockPoly, Plus;
    assert XorSeq([a], [b]) == [Xor(a, b)];
    PolyXor([a], [b]);
  }

  lemma BytePolyZero()
    ensures BytePoly(0) == {}
  {
    hide BlockPoly;
    PolyZeros(1);
    assert Zeros(1) == [0];
  }

  lemma ReductionByte(e: nat)
    requires e < 8
    ensures Odd(ShrBy(0xC3, e)) <==> e in {7, 6, 1, 0}
  {
    hide Odd, Shr, ShrBy;
    Shifts(0xC3);
    ReductionByteBits();
  }

  lemma ReductionByteBits()
    ensures
      && Odd(0xC3) && Odd(Shr(0xC3)) && !Odd(Shr(Shr(0xC3))) && !Odd(Shr(Shr(Shr(0xC3))))
      && Shr(Shr(Shr(Shr(0xC3)))) == 0xC && !Odd(0xC) && Shr(0xC) == 6 && !Odd(6) && Shr(6) == 3 && Odd(3)
      && Shr(3) == 1 && Odd(1)
  {
  }

  lemma ReductionPolyByte()
    ensures BytePoly(0xC3) == MODULUS - {8}
  {
    hide Odd, ShrBy, BlockPoly;
    PolyBelow([0xC3]);
    forall e: nat ensures e in BytePoly(0xC3) <==> e in MODULUS - {8} {
      if e < 8 {
        InBlockPoly([0xC3], e);
        ReductionByte(e);
      }
    }
  }

  lemma ShlIsShifted(a: Byte)
    ensures ShiftedLeft([a]) == [Shl(a)]
  {
    ShlNoCarry(a);
    hide ShlCarry, Shl;
    assert ShiftedLeft([a])[0] == Shl(a);
  }

  lemma ShlNoCarry(a: Byte)
    ensures ShlCarry(a, 0) == Shl(a)
  {
  }

  lemma DropLeading(s: Poly, up: Poly)
    requires 8 in up && s == up - {8}
    ensures Plus(s, MODULUS - {8}) == Plus(up, MODULUS)
  {
  }

  /** Xtime multiplies by the variable. */
  lemma XtimePoly(a: Byte)
    ensures Congruent(BytePoly(Xtime(a)), Up(BytePoly(a)), MODULUS)
  {
    hide Odd, ShrBy, TopBit, Congruent, Up, BlockPoly, Shl, Xor, Plus;
    var s, up := BytePoly(Shl(a)), Up(BytePoly(a));
    ShlIsShifted(a);
    PolyBelow([Shl(a)]);
    UpBelow([a]);
    TopOfBlock([a]);
    forall e: nat | e < 8 ensures e in s <==> e in up { ShiftedPoly([a], e); }
    BytePolyXor(Shl(a), Pick(TopBit(a), 0xC3));
    if TopBit(a) {
      ReductionPolyByte();
      DropLeading(s, up);
      CongruentReduce(up, MODULUS);
    } else {
      BytePolyZero();
      assert s == up;
      PlusEmpty(s);
      CongruentSame(up, MODULUS);
    }
  }

  /** The n low coefficients of b. */
  function LowPoly(b: Byte, n: nat): Poly
  {
    if n == 0 then {} else Plus(if Odd(b) then {0} else {}, Up(LowPoly(Shr(b), n - 1)))
  }

  lemma {:induction false} InLowPoly(b: Byte, n: nat, e: nat)
    ensures e in LowPoly(b, n) <==> e < n && Odd(ShrBy(b, e))
    decreases n
  {
    hide Odd, Shr, Up;
    if n > 0 {
      InUp(LowPoly(Shr(b), n - 1), e);
      if e > 0 {
        InLowPoly(Shr(b), n - 1, e - 1);
        ShrByStep(b, e - 1);
      }
    }
  }

  lemma LowPolyAll(b: Byte)
    ensures LowPoly(b, 8) == BytePoly(b)
  {
    hide LowPoly, BlockPoly, Odd, ShrBy;
    PolyBelow([b]);
    forall e: nat ensures e in LowPoly(b, 8) <==> e in BytePoly(b) {
      InLowPoly(b, 8, e);
      if e < 8 { InBlockPoly([b], e); }
    }
  }

  lemma {:induction false} GfBitsPoly(n: nat, a: Byte, b: Byte)
    ensures Congruent(BytePoly(GfBits(n, a, b)), Times(LowPoly(b, n), BytePoly(a)), MODULUS)
  {
    hide Odd, Shr, Xtime, Xor, BytePoly, Times, Up, Congruent, Plus;
    var pa := BytePoly(a);
    if n == 0 {
      BytePolyZero();
      TimesZero(pa);
      CongruentSame({}, MODULUS);
    } else {
      var r := GfBits(n - 1, a, Shr(b));
      var t := LowPoly(Shr(b), n - 1);
      var bit := if Odd(b) then {0} else {};
      GfXtime(n - 1, a, Shr(b));
      BytePolyXor(Pick(Odd(b), a), Xtime(r));
      GfBitsPoly(n - 1, a, Shr(b));
      XtimePoly(r);
      CongruentUp(BytePoly(r), Times(t, pa), MODULUS);
      TimesUp(t, pa);
      CongruentTrans(BytePoly(Xtime(r)), Up(BytePoly(r)), Times(Up(t), pa), MODULUS);
      TimesPlusLeft(bit, Up(t), pa);
      TimesOne(pa);
      TimesZero(pa);
      BytePolyZero();
      CongruentSame(Times(bit, pa), MODULUS);
      CongruentPlus(Times(bit, pa), Times(bit, pa), BytePoly(Xtime(r)), Times(Up(t), pa), MODULUS);
    }
  }

  /** gf(a, b) is the only byte congruent to the product of a and b. */
  lemma GfIsProduct(a: Byte, b: Byte, r: Byte)
    ensures r == Gf(a, b) <==> Congruent(BytePoly(r), Times(BytePoly(a), BytePoly(b)), MODULUS)
  {
    hide GfBits, BlockPoly, Times, Congruent;
    var p, z := Times(BytePoly(a), BytePoly(b)), Gf(a, b);
    GfBitsPoly(8, a, b);
    LowPolyAll(b);
    TimesCommutes(BytePoly(a), BytePoly(b));
    if Congruent(BytePoly(r), p, MODULUS) {
      CongruentSym(BytePoly(z), p, MODULUS);
      CongruentTrans(BytePoly(r), p, BytePoly(z), MODULUS);
      PolyBelow([r]);
      PolyBelow([z]);
      ReducedUnique(BytePoly(r), BytePoly(z), MODULUS, 8);
      PolyInjective([r], [z]);
    }
  }

  lemma GfCommutes(a: Byte, b: Byte)
    ensures Gf(a, b) == Gf(b, a)
  {
    hide GfBits, BlockPoly, Times, Congruent;
    GfIsProduct(b, a, Gf(b, a));
    TimesCommutes(BytePoly(a), BytePoly(b));
    GfIsProduct(a, b, Gf(b, a));
  }
}
