/** gfMul of mgm.go: the shift-and-add loop on big-endian bytes computes the product of
    polynomials over GF(2) modulo the field polynomial, the only one of degree below n bits. */
module MgmField {
  import opened Gf256
  import opened Blocks
  import opened BinaryPoly

  // ---- blocks as polynomials ----

  /** Coefficient e of a big-endian block. */
  predicate BitOf(b: seq<Byte>, e: nat)
    requires e < 8 * |b|
  {
    Odd(ShrBy(b[|b| - 1 - e / 8], e % 8))
  }

  function BlockPoly(b: seq<Byte>): Poly { set e: nat | e < 8 * |b| && BitOf(b, e) }

  lemma {:induction false} ShrByXor(a: Byte, b: Byte, k: nat)
    ensures ShrBy(Xor(a, b), k) == Xor(ShrBy(a, k), ShrBy(b, k))
  {
    hide Shr, Xor;
    if k > 0 {
      ShrByXor(a, b, k - 1);
      ShrXor(ShrBy(a, k - 1), ShrBy(b, k - 1));
    }
  }

  lemma {:induction false} ShrByZero(k: nat)
    ensures ShrBy(0, k) == 0 && !Odd(ShrBy(0, k))
  {
    assert Shr(0) == 0 && !Odd(0);
    hide Shr, Odd;
    if k > 0 { ShrByZero(k - 1); }
  }

  lemma PolyXor(a: seq<Byte>, b: seq<Byte>)
    requires |a| == |b|
    ensures BlockPoly(XorSeq(a, b)) == Plus(BlockPoly(a), BlockPoly(b))
  {
    hide Odd, Xor, ShrBy;
    forall e: nat ensures e in BlockPoly(XorSeq(a, b)) <==> e in Plus(BlockPoly(a), BlockPoly(b)) {
      if e < 8 * |a| {
        var i, k := |a| - 1 - e / 8, e % 8;
        ShrByXor(a[i], b[i], k);
        OddXor(ShrBy(a[i], k), ShrBy(b[i], k));
      }
    }
  }

  lemma PolyZeros(n: nat)
    ensures BlockPoly(Zeros(n)) == {}
  {
    hide Odd, ShrBy;
    forall e: nat | e < 8 * n ensures !BitOf(Zeros(n), e) { ShrByZero(e % 8); }
  }

  lemma PolyBelow(b: seq<Byte>)
    ensures Below(BlockPoly(b), 8 * |b|)
  {
    hide Odd, ShrBy;
  }

  /** A block is determined by its polynomial. */
  lemma PolyInjective(a: seq<Byte>, b: seq<Byte>)
    requires |a| == |b| && BlockPoly(a) == BlockPoly(b)
    ensures a == b
  {
    hide Odd, ShrBy, BlockPoly;
    forall i | 0 <= i < |a| ensures a[i] == b[i] {
      forall k | 0 <= k < 8 ensures Odd(ShrBy(a[i], k)) == Odd(ShrBy(b[i], k)) {
        var e := 8 * (|a| - 1 - i) + k;
        assert e / 8 == |a| - 1 - i && e % 8 == k;
        InBlockPoly(a, e);
        InBlockPoly(b, e);
      }
      SameBits(a[i], b[i], 8);
      LowBitsAll(a[i]);
      LowBitsAll(b[i]);
    }
  }

  lemma InBlockPoly(b: seq<Byte>, e: nat)
    requires e < 8 * |b|
    ensures e in BlockPoly(b) <==> Odd(ShrBy(b[|b| - 1 - e / 8], e % 8))
  {
    hide Odd, ShrBy;
  }

  lemma {:induction false} SameBits(a: Byte, b: Byte, n: nat)
    requires forall k :: 0 <= k < n ==> Odd(ShrBy(a, k)) == Odd(ShrBy(b, k))
    ensures LowBits(a, n) == LowBits(b, n)
  {
    hide Odd, ShrBy, ShlBy, Xor;
    if n > 0 { SameBits(a, b, n - 1); }
  }

  // ---- one left shift of the byte string ----

  /** (b << 1) | c. */
  function ShlCarry(b: Byte, c: Byte): Byte { (b << 1) | c }

  /** The carry out of a byte: (b & 0x80) >> 7. */
  function CarryOut(b: Byte): Byte { (b & 0x80) >> 7 }

  /** The whole block shifted left by one bit, the top bit lost. */
  function ShiftedLeft(z: seq<Byte>): (r: seq<Byte>)
    ensures |r| == |z|
  {
    seq(|z|, i requires 0 <= i < |z| => ShlCarry(z[i], if i + 1 < |z| then CarryOut(z[i + 1]) else 0))
  }

  lemma CarryIsTop(b: Byte)
    ensures CarryOut(b) == if TopBit(b) then 1 else 0
    ensures TopBit(b) == Odd(ShrBy(b, 7))
  {
    Shifts(b);
    CarryRaw(b);
  }

  lemma CarryRaw(b: Byte)
    ensures CarryOut(b) == if TopBit(b) then 1 else 0
    ensures TopBit(b) == Odd(Shr(Shr(Shr(Shr(Shr(Shr(Shr(b))))))))
  {
  }

  lemma ShlCarryRaw(b: Byte, c: Byte)
    requires c == 0 || c == 1
    ensures Odd(ShlCarry(b, c)) == (c == 1) && Shr(ShlCarry(b, c)) == Low7(b)
  {
  }

  function Low7(b: Byte): Byte { b & 0x7F }

  /** Bits of a byte with its top bit cleared. */
  lemma Low7Bit(b: Byte, k: nat)
    requires k < 7
    ensures Odd(ShrBy(Low7(b), k)) == Odd(ShrBy(b, k))
  {
    hide Odd, Low7, Shr, ShrBy;
    Shifts(b);
    Shifts(Low7(b));
    Low7Bits(b);
  }

  lemma Low7Bits(b: Byte)
    ensures
      var c := Low7(b);
      && Odd(c) == Odd(b) && Odd(Shr(c)) == Odd(Shr(b)) && Odd(Shr(Shr(c))) == Odd(Shr(Shr(b)))
      && Odd(Shr(Shr(Shr(c)))) == Odd(Shr(Shr(Shr(b))))
      && Odd(Shr(Shr(Shr(Shr(c))))) == Odd(Shr(Shr(Shr(Shr(b)))))
      && Odd(Shr(Shr(Shr(Shr(Shr(c)))))) == Odd(Shr(Shr(Shr(Shr(Shr(b))))))
      && Odd(Shr(Shr(Shr(Shr(Shr(Shr(c))))))) == Odd(Shr(Shr(Shr(Shr(Shr(Shr(b)))))))
  {
  }

  lemma {:induction false} ShrByStep(b: Byte, k: nat)
    ensures ShrBy(b, k + 1) == ShrBy(Shr(b), k)
  {
    hide Shr;
    if k > 0 { ShrByStep(b, k - 1); }
  }

  /** Bit k of a shifted byte is bit k - 1 of the byte, or the carry. */
  lemma ShiftedBit(b: Byte, c: Byte, k: nat)
    requires k < 8 && (c == 0 || c == 1)
    ensures Odd(ShrBy(ShlCarry(b, c), k)) == if k == 0 then c == 1 else Odd(ShrBy(b, k - 1))
  {
    hide Odd, Shr, ShlCarry, Low7;
    ShlCarryRaw(b, c);
    if k > 0 {
      ShrByStep(ShlCarry(b, c), k - 1);
      Low7Bit(b, k - 1);
    }
  }

  /** Shifting the bytes multiplies by the variable and drops the overflow. */
  lemma ShiftedPoly(z: seq<Byte>, e: nat)
    requires e < 8 * |z|
    ensures e in BlockPoly(ShiftedLeft(z)) <==> e in Up(BlockPoly(z))
  {
    hide Odd, ShrBy, ShlCarry, CarryOut, TopBit, Up, BlockPoly;
    var r := ShiftedLeft(z);
    var i, k := |z| - 1 - e / 8, e % 8;
    var c := if i + 1 < |z| then CarryOut(z[i + 1]) else 0;
    InUp(BlockPoly(z), e);
    InBlockPoly(r, e);
    if i + 1 < |z| { CarryIsTop(z[i + 1]); }
    ShiftedBit(z[i], c, k);
    if e > 0 {
      InBlockPoly(z, e - 1);
      if k == 0 {
        assert (e - 1) / 8 == e / 8 - 1 && (e - 1) % 8 == 7;
        assert |z| - 1 - (e - 1) / 8 == i + 1;
      } else {
        assert (e - 1) / 8 == e / 8 && (e - 1) % 8 == k - 1;
      }
    }
  }

  // ---- the field ----

  /** The field polynomials of RFC 9058: w^64+w^4+w^3+w+1 and w^128+w^7+w^2+w+1. */
  function FieldPoly(n: nat): Poly { if n == 8 then {64, 4, 3, 1, 0} else {128, 7, 2, 1, 0} }

  /** The reduction constant: the low byte of the field polynomial. */
  function Reduction(n: nat): Byte { if n == 8 then 0x1B else 0x87 }

  lemma ReductionBits()
    ensures
      && Odd(0x1B) && Odd(Shr(0x1B)) && !Odd(Shr(Shr(0x1B))) && Odd(Shr(Shr(Shr(0x1B))))
      && Shr(Shr(Shr(Shr(0x1B)))) == 1 && Odd(1) && Shr(1) == 0
    ensures
      && Odd(0x87) && Odd(Shr(0x87)) && Odd(Shr(Shr(0x87))) && !Odd(Shr(Shr(Shr(0x87))))
      && Shr(Shr(Shr(Shr(0x87)))) == 8 && !Odd(8) && Shr(8) == 4 && !Odd(4) && Shr(4) == 2 && !Odd(2) && Shr(2) == 1
  {
  }

  lemma ZeroShifts()
    ensures !Odd(0) && Shr(0) == 0
  {
  }

  lemma ReductionBit(n: nat, k: nat)
    requires n == 8 || n == 16
    requires k < 8
    ensures Odd(ShrBy(Reduction(n), k)) <==> k in FieldPoly(n)
  {
    hide Odd, Shr, ShrBy;
    ReductionBits();
    Shifts(0x1B);
    Shifts(0x87);
    ShrByZero(0);
    ZeroShifts();
  }

  /** The reduction constant in the last byte is the field polynomial without its leading term. */
  lemma ReductionPoly(n: nat)
    requires n == 8 || n == 16
    ensures BlockPoly(Unit(n, n - 1, Reduction(n))) == FieldPoly(n) - {8 * n}
  {
    hide Odd, ShrBy, Reduction, BlockPoly;
    var u := Unit(n, n - 1, Reduction(n));
    forall e: nat ensures e in BlockPoly(u) <==> e in FieldPoly(n) - {8 * n} {
      PolyBelow(u);
      if e < 8 * n {
        InBlockPoly(u, e);
        if e < 8 { ReductionBit(n, e); } else { ShrByZero(e % 8); }
      }
    }
  }

  /** z times w in the field. */
  function TimesW(z: seq<Byte>): (r: seq<Byte>)
    requires |z| == 8 || |z| == 16
    ensures |r| == |z|
  {
    var s := ShiftedLeft(z);
    if TopBit(z[0]) then XorSeq(s, Unit(|z|, |z| - 1, Reduction(|z|))) else s
  }

  lemma TimesWPoly(z: seq<Byte>)
    requires |z| == 8 || |z| == 16
    ensures Congruent(BlockPoly(TimesW(z)), Up(BlockPoly(z)), FieldPoly(|z|))
  {
    hide Odd, ShrBy, TopBit, Congruent, Up, BlockPoly, ShiftedLeft, Unit, Reduction, FieldPoly;
    var n := |z|;
    var s, up := BlockPoly(ShiftedLeft(z)), Up(BlockPoly(z));
    PolyBelow(ShiftedLeft(z));
    UpBelow(z);
    TopOfBlock(z);
    forall e: nat | e < 8 * n ensures e in s <==> e in up { ShiftedPoly(z, e); }
    if TopBit(z[0]) {
      PolyXor(ShiftedLeft(z), Unit(n, n - 1, Reduction(n)));
      ReductionPoly(n);
      FieldLeading(n);
      assert Plus(s, FieldPoly(n) - {8 * n}) == Plus(up, FieldPoly(n));
      CongruentReduce(up, FieldPoly(n));
    } else {
      assert s == up;
      CongruentSame(up, FieldPoly(n));
    }
  }

  lemma FieldLeading(n: nat)
    requires n == 8 || n == 16
    ensures 8 * n in FieldPoly(n) && Below(FieldPoly(n), 8 * n + 1)
  {
  }

  lemma UpBelow(z: seq<Byte>)
    ensures Below(Up(BlockPoly(z)), 8 * |z| + 1)
  {
    hide BlockPoly, Up;
    PolyBelow(z);
    forall e | e in Up(BlockPoly(z)) ensures e < 8 * |z| + 1 { InUp(BlockPoly(z), e); }
  }

  /** The test for overflow looks at the leading coefficient. */
  lemma TopOfBlock(z: seq<Byte>)
    requires |z| > 0
    ensures TopBit(z[0]) <==> 8 * |z| in Up(BlockPoly(z))
  {
    hide BlockPoly, Up, TopBit, Odd, ShrBy;
    var e := 8 * |z| - 1;
    assert e / 8 == |z| - 1 && e % 8 == 7;
    InUp(BlockPoly(z), 8 * |z|);
    InBlockPoly(z, e);
    CarryIsTop(z[0]);
  }

  // ---- the product ----

  /** The k leading coefficients of y, moved down. */
  function TopPoly(y: seq<Byte>, k: nat): Poly
    requires k <= 8 * |y|
  {
    set e: nat | e < k && LeadingBit(y, k, e)
  }

  /** Coefficient e of the k leading coefficients of y. */
  predicate LeadingBit(y: seq<Byte>, k: nat, e: nat)
    requires e < k <= 8 * |y|
  {
    BitOf(y, e + 8 * |y| - k)
  }

  lemma TopPolyStep(y: seq<Byte>, k: nat)
    requires 0 < k <= 8 * |y|
    ensures TopPoly(y, k) == Plus(Up(TopPoly(y, k - 1)), if BitOf(y, 8 * |y| - k) then {0} else {})
  {
    hide Odd, ShrBy, Up;
    var t := TopPoly(y, k - 1);
    forall e: nat ensures e in TopPoly(y, k) <==> e in Plus(Up(t), if BitOf(y, 8 * |y| - k) then {0} else {}) {
      InUp(t, e);
      if 0 < e < k { assert (e - 1) + 8 * |y| - (k - 1) == e + 8 * |y| - k; }
    }
  }

  lemma TopPolyAll(y: seq<Byte>)
    ensures TopPoly(y, 8 * |y|) == BlockPoly(y)
  {
    hide Odd, ShrBy;
  }

  /** The accumulator after the k leading bits of y. */
  function GfAcc(x: seq<Byte>, y: seq<Byte>, k: nat): (z: seq<Byte>)
    requires |x| == |y| && (|x| == 8 || |x| == 16) && k <= 8 * |y|
    ensures |z| == |x|
  {
    if k == 0 then Zeros(|x|)
    else
      var z := if k == 1 then Zeros(|x|) else TimesW(GfAcc(x, y, k - 1));
      if BitOf(y, 8 * |y| - k) then XorSeq(z, x) else z
  }

  function GfMul(x: seq<Byte>, y: seq<Byte>): (z: seq<Byte>)
    requires |x| == |y| && (|x| == 8 || |x| == 16)
    ensures |z| == |x|
  {
    GfAcc(x, y, 8 * |y|)
  }

  lemma {:induction false} GfAccPoly(x: seq<Byte>, y: seq<Byte>, k: nat)
    requires |x| == |y| && (|x| == 8 || |x| == 16) && k <= 8 * |y|
    ensures Congruent(BlockPoly(GfAcc(x, y, k)), Times(TopPoly(y, k), BlockPoly(x)), FieldPoly(|x|))
  {
    hide BitOf, TimesW, BlockPoly, Times, Up, Congruent, FieldPoly, Plus;
    var n, f, px := |x|, FieldPoly(|x|), BlockPoly(x);
    if k == 0 {
      PolyZeros(n);
      TimesZero(px);
      CongruentSame({}, f);
      assert TopPoly(y, 0) == {};
    } else {
      GfAccPoly(x, y, k - 1);
      var t := TopPoly(y, k - 1);
      var z := if k == 1 then Zeros(n) else TimesW(GfAcc(x, y, k - 1));
      ShiftStep(x, y, k, z);
      var bit := if BitOf(y, 8 * |y| - k) then {0} else {};
      TopPolyStep(y, k);
      TimesPlusLeft(Up(t), bit, px);
      if BitOf(y, 8 * |y| - k) {
        PolyXor(z, x);
        TimesOne(px);
        CongruentSame(px, f);
        CongruentPlus(BlockPoly(z), Times(Up(t), px), px, px, f);
      } else {
        TimesZero(px);
        PlusEmpty(Times(Up(t), px));
      }
    }
  }

  lemma PlusEmpty(a: Poly)
    ensures Plus(a, {}) == a
  {
  }

  lemma ShiftStep(x: seq<Byte>, y: seq<Byte>, k: nat, z: seq<Byte>)
    requires |x| == |y| && (|x| == 8 || |x| == 16) && 0 < k <= 8 * |y|
    requires Congruent(BlockPoly(GfAcc(x, y, k - 1)), Times(TopPoly(y, k - 1), BlockPoly(x)), FieldPoly(|x|))
    requires z == if k == 1 then Zeros(|x|) else TimesW(GfAcc(x, y, k - 1))
    ensures Congruent(BlockPoly(z), Times(Up(TopPoly(y, k - 1)), BlockPoly(x)), FieldPoly(|x|))
  {
    hide BitOf, TimesW, BlockPoly, Times, Congruent, FieldPoly, Plus;
    var f, px, t := FieldPoly(|x|), BlockPoly(x), TopPoly(y, k - 1);
    if k == 1 {
      PolyZeros(|x|);
      assert t == {} && Up(t) == {};
      TimesZero(px);
      CongruentSame({}, f);
    } else {
      var a := GfAcc(x, y, k - 1);
      TimesWPoly(a);
      CongruentUp(BlockPoly(a), Times(t, px), f);
      TimesUp(t, px);
      CongruentTrans(BlockPoly(z), Up(BlockPoly(a)), Up(Times(t, px)), f);
    }
  }

  /** gfMul is multiplication modulo the field polynomial. */
  lemma GfMulIsProduct(x: seq<Byte>, y: seq<Byte>)
    requires |x| == |y| && (|x| == 8 || |x| == 16)
    ensures Congruent(BlockPoly(GfMul(x, y)), Times(BlockPoly(x), BlockPoly(y)), FieldPoly(|x|))
  {
    hide BlockPoly, Times, Congruent, FieldPoly, GfAcc, TopPoly;
    GfAccPoly(x, y, 8 * |y|);
    TopPolyAll(y);
    TimesCommutes(BlockPoly(x), BlockPoly(y));
  }

  /** It is the only block with that property. */
  lemma GfMulUnique(x: seq<Byte>, y: seq<Byte>, r: seq<Byte>)
    requires |x| == |y| == |r| && (|x| == 8 || |x| == 16)
    ensures r == GfMul(x, y) <==> Congruent(BlockPoly(r), Times(BlockPoly(x), BlockPoly(y)), FieldPoly(|x|))
  {
    hide BlockPoly, Times, Congruent, FieldPoly, GfMul;
    var f, p, z := FieldPoly(|x|), Times(BlockPoly(x), BlockPoly(y)), GfMul(x, y);
    GfMulIsProduct(x, y);
    if Congruent(BlockPoly(r), p, f) {
      CongruentSym(BlockPoly(z), p, f);
      CongruentTrans(BlockPoly(r), p, BlockPoly(z), f);
      PolyBelow(r);
      PolyBelow(z);
      FieldLeading(|x|);
      ReducedUnique(BlockPoly(r), BlockPoly(z), f, 8 * |x|);
      PolyInjective(r, z);
    }
  }

  lemma GfMulCommutes(x: seq<Byte>, y: seq<Byte>)
    requires |x| == |y| && (|x| == 8 || |x| == 16)
    ensures GfMul(x, y) == GfMul(y, x)
  {
    hide BlockPoly, Times, Congruent, FieldPoly, GfMul;
    GfMulIsProduct(y, x);
    TimesCommutes(BlockPoly(x), BlockPoly(y));
    GfMulUnique(x, y, GfMul(y, x));
  }

  /** Additive in each factor. */
  lemma GfMulXor(a: seq<Byte>, b: seq<Byte>, y: seq<Byte>)
    requires |a| == |b| == |y| && (|a| == 8 || |a| == 16)
    ensures GfMul(XorSeq(a, b), y) == XorSeq(GfMul(a, y), GfMul(b, y))
    ensures GfMul(y, XorSeq(a, b)) == XorSeq(GfMul(y, a), GfMul(y, b))
  {
    hide BlockPoly, Times, Congruent, FieldPoly, GfMul, XorSeq, Plus;
    var f := FieldPoly(|a|);
    var p, q, py := GfMul(a, y), GfMul(b, y), BlockPoly(y);
    GfMulIsProduct(a, y);
    GfMulIsProduct(b, y);
    CongruentPlus(BlockPoly(p), Times(BlockPoly(a), py), BlockPoly(q), Times(BlockPoly(b), py), f);
    PolyXor(p, q);
    PolyXor(a, b);
    TimesPlusLeft(BlockPoly(a), BlockPoly(b), py);
    GfMulUnique(XorSeq(a, b), y, XorSeq(p, q));
    GfMulCommutes(XorSeq(a, b), y);
    GfMulCommutes(a, y);
    GfMulCommutes(b, y);
  }

  // ---- the loop ----

  /** The test y[bit/8] & (0x80 >> bit%8) reads coefficient N - 1 - bit. */
  lemma MaskedBit(b: Byte, j: nat)
    requires j < 8
    ensures HasBit(b, ShrBy(0x80, j)) <==> Odd(ShrBy(b, 7 - j))
  {
    hide Odd, Shr, ShrBy, HasBit;
    Shifts(b);
    Shifts(0x80);
    MaskedBits(b);
    if j == 0 {} else if j == 1 {} else if j == 2 {} else if j == 3 {}
    else if j == 4 {} else if j == 5 {} else if j == 6 {} else {}
  }

  predicate HasBit(b: Byte, m: Byte) { b & m != 0 }

  lemma MaskedBits(b: Byte)
    ensures
      var b4, m4 := Shr(Shr(Shr(Shr(b)))), Shr(Shr(Shr(Shr(0x80))));
      && (Odd(b) <==> HasBit(b, Shr(Shr(Shr(m4))))) && (Odd(Shr(b)) <==> HasBit(b, Shr(Shr(m4))))
      && (Odd(Shr(Shr(b))) <==> HasBit(b, Shr(m4))) && (Odd(Shr(Shr(Shr(b)))) <==> HasBit(b, m4))
      && (Odd(b4) <==> HasBit(b, Shr(Shr(Shr(0x80))))) && (Odd(Shr(b4)) <==> HasBit(b, Shr(Shr(0x80))))
      && (Odd(Shr(Shr(b4))) <==> HasBit(b, Shr(0x80))) && (Odd(Shr(Shr(Shr(b4)))) <==> HasBit(b, 0x80))
  {
  }

  /** The left shift, from the last byte up with a carry, and the reduction. */
  method ShiftAndReduce(z: array<Byte>, reduction: Byte)
    requires (z.Length == 8 || z.Length == 16) && reduction == Reduction(z.Length)
    modifies z
    ensures z[..] == TimesW(old(z[..]))
  {
    hide ShlCarry, CarryOut, TopBit, Reduction, Xor;
    var n := z.Length;
    ghost var z0 := z[..];
    var overflow := TopBit(z[0]);
    var carry: Byte := 0;
    var i := n;
    while i > 0
      invariant 0 <= i <= n
      invariant forall k :: i <= k < n ==> z[k] == ShiftedLeft(z0)[k]
      invariant forall k :: 0 <= k < i ==> z[k] == z0[k]
      invariant carry == if i < n then CarryOut(z0[i]) else 0
    {
      i := i - 1;
      var nc := CarryOut(z[i]);
      z[i] := ShlCarry(z[i], carry);
      carry := nc;
    }
    assert z[..] == ShiftedLeft(z0);
    if overflow {
      ghost var s := z[..];
      z[n - 1] := Xor(z[n - 1], reduction);
      LastByteXor(s, reduction);
      assert z[..] == s[n - 1 := Xor(s[n - 1], reduction)];
    }
  }

  lemma LastByteXor(s: seq<Byte>, r: Byte)
    requires |s| > 0
    ensures s[|s| - 1 := Xor(s[|s| - 1], r)] == XorSeq(s, Unit(|s|, |s| - 1, r))
  {
    hide Xor;
    forall i | 0 <= i < |s| ensures Xor(s[i], 0) == s[i] { XorZero(s[i]); }
  }

  /** gfMul. */
  method GfMulLoop(reduction: Byte, x: seq<Byte>, y: seq<Byte>) returns (r: seq<Byte>)
    requires |x| == |y| && (|x| == 8 || |x| == 16) && reduction == Reduction(|x|)
    ensures r == GfMul(x, y)
  {
    hide TimesW, Xor, XorSeq, ShrBy, Odd, Reduction, GfAcc, HasBit;
    var n := |x|;
    var z := new Byte[n](_ => 0);
    assert z[..] == Zeros(n);
    NoBits(x, y);
    for bit := 0 to 8 * n
      invariant z[..] == GfAcc(x, y, bit)
    {
      if bit != 0 { ShiftAndReduce(z, reduction); }
      BitStep(x, y, bit, z[..]);
      if HasBit(y[bit / 8], ShrBy(0x80, bit % 8)) {
        AddInto(z, x);
      }
    }
    r := z[..];
  }

  /** One bit of y, as the loop tests it. */
  lemma BitStep(x: seq<Byte>, y: seq<Byte>, bit: nat, z: seq<Byte>)
    requires |x| == |y| && (|x| == 8 || |x| == 16) && bit < 8 * |x|
    requires z == if bit == 0 then Zeros(|x|) else TimesW(GfAcc(x, y, bit))
    ensures GfAcc(x, y, bit + 1) == if HasBit(y[bit / 8], ShrBy(0x80, bit % 8)) then XorSeq(z, x) else z
  {
    hide TimesW, XorSeq, ShrBy, Odd, GfAcc, HasBit;
    MaskedBit(y[bit / 8], bit % 8);
    BitIndex(|x|, bit);
    GfAccStep(x, y, bit + 1, z);
  }

  lemma NoBits(x: seq<Byte>, y: seq<Byte>)
    requires |x| == |y| && (|x| == 8 || |x| == 16)
    ensures GfAcc(x, y, 0) == Zeros(|x|)
  {
    hide TimesW;
  }

  lemma BitIndex(n: nat, bit: nat)
    requires bit < 8 * n
    ensures (8 * n - (bit + 1)) / 8 == n - 1 - bit / 8 && (8 * n - (bit + 1)) % 8 == 7 - bit % 8
  {
  }

  lemma GfAccStep(x: seq<Byte>, y: seq<Byte>, k: nat, z: seq<Byte>)
    requires |x| == |y| && (|x| == 8 || |x| == 16) && 0 < k <= 8 * |y|
    requires z == if k == 1 then Zeros(|x|) else TimesW(GfAcc(x, y, k - 1))
    ensures GfAcc(x, y, k) == if BitOf(y, 8 * |y| - k) then XorSeq(z, x) else z
  {
    hide TimesW, BitOf, XorSeq;
  }

  /** dst[i] ^= a[i]. */
  method AddInto(dst: array<Byte>, a: seq<Byte>)
    requires dst.Length == |a|
    modifies dst
    ensures dst[..] == XorSeq(old(dst[..]), a)
  {
    hide Xor;
    for i := 0 to |a|
      invariant forall k :: 0 <= k < i ==> dst[k] == Xor(old(dst[k]), a[k])
      invariant forall k :: i <= k < |a| ==> dst[k] == old(dst[k])
    {
      dst[i] := Xor(dst[i], a[i]);
    }
    assert dst[..] == XorSeq(old(dst[..]), a);
  }
}
