/** The constants the proofs depend on, as the numbers their standards print. */
module ConstantsAsNumbers {
  import opened ModArith
  import opened Gf256
  import opened Blocks
  import opened Kuznyechik
  import opened Counters
  import CtrAcpkm
  import Cnt
  import Gostr341194
  import CtrAcpkmLaws

  lemma {:induction false} ValueConcat(a: seq<Byte>, b: seq<Byte>)
    ensures Value(a + b) == Value(a) * Pow(256, |b|) + Value(b)
  {
    hide Index;
    if |b| == 0 {
      assert a + b == a;
    } else {
      ValueConcat(a, b[..|b| - 1]);
      assert (a + b)[..|a + b| - 1] == a + b[..|b| - 1];
      MulAssoc(Value(a), 256, Pow(256, |b| - 1));
      assert Value(a) * (256 * Pow(256, |b| - 1)) == 256 * (Value(a) * Pow(256, |b| - 1));
    }
  }

  lemma FourBytes(b: seq<Byte>)
    requires |b| == 4
    ensures Value(b) == 0x100_0000 * Index(b[0]) + 0x1_0000 * Index(b[1]) + 0x100 * Index(b[2]) + Index(b[3])
  {
    hide Index;
    assert b[..3][..2] == b[..2] && b[..2][..1] == b[..1] && b[..1][..0] == [];
    assert Value(b[..1]) == Index(b[0]);
    assert Value(b[..2]) == 256 * Value(b[..1]) + Index(b[1]);
    assert Value(b[..3]) == 256 * Value(b[..2]) + Index(b[2]);
  }

  lemma FourAt(d: seq<Byte>, i: nat)
    requires i + 4 <= |d|
    ensures Value(d[i..i + 4])
         == 0x100_0000 * Index(d[i]) + 0x1_0000 * Index(d[i + 1]) + 0x100 * Index(d[i + 2]) + Index(d[i + 3])
  {
    hide Value, Index;
    FourBytes(d[i..i + 4]);
  }

  lemma WordIs(d: seq<Byte>, i: nat, b0: Byte, b1: Byte, b2: Byte, b3: Byte, w: nat)
    requires i + 4 <= |d| && d[i] == b0 && d[i + 1] == b1 && d[i + 2] == b2 && d[i + 3] == b3
    requires w == 0x100_0000 * Index(b0) + 0x1_0000 * Index(b1) + 0x100 * Index(b2) + Index(b3)
    ensures Value(d[i..i + 4]) == w
  {
    hide Value, Index;
    FourAt(d, i);
  }

  lemma FourWords(b: seq<Byte>)
    requires |b| == 16
    ensures Value(b) == 0x1_0000_0000_0000_0000_0000_0000 * Value(b[..4]) + 0x1_0000_0000_0000_0000 * Value(b[4..8])
                      + 0x1_0000_0000 * Value(b[8..12]) + Value(b[12..])
  {
    hide Value, Pow;
    FourPower();
    ValueConcat(b[..4], b[4..8]);
    ValueConcat(b[..8], b[8..12]);
    ValueConcat(b[..12], b[12..]);
    assert b[..8] == b[..4] + b[4..8] && b[..12] == b[..8] + b[8..12] && b == b[..12] + b[12..];
  }

  lemma TwoWords(b: seq<Byte>)
    requires |b| == 8
    ensures Value(b) == 0x1_0000_0000 * Value(b[0..4]) + Value(b[4..8])
  {
    hide Value, Pow;
    FourPower();
    ValueConcat(b[0..4], b[4..8]);
    assert b == b[0..4] + b[4..8];
  }

  lemma FourPower()
    ensures Pow(256, 4) == 0x1_0000_0000 && Pow(256, 8) == 0x1_0000_0000_0000_0000
    ensures Pow(256, 16) == 0x1_0000_0000_0000_0000_0000_0000_0000_0000
  {
    assert Pow(256, 2) == 65536;
    PowAdd(256, 2, 2);
    PowAdd(256, 4, 4);
    PowAdd(256, 8, 8);
  }

  lemma TwoHalves(b: seq<Byte>)
    requires |b| == 32
    ensures Value(b) == 0x1_0000_0000_0000_0000_0000_0000_0000_0000 * Value(b[..16]) + Value(b[16..])
  {
    hide Value, Pow;
    FourPower();
    ValueConcat(b[..16], b[16..]);
    assert b == b[..16] + b[16..];
  }

  /** The coefficients of the linear feedback (section 4.2 of RFC 7801). */
  lemma FeedbackCoefficients()
    ensures Value(LC) == 0x94208510_C2C001FB_01C0C210_85209401
  {
    hide Value;
    FourWords(LC);
    FourBytes(LC[..4]);
    FourBytes(LC[4..8]);
    FourBytes(LC[8..12]);
    FourBytes(LC[12..]);
  }

  /** A 32-byte number by its eight words. */
  lemma EightWords(d: seq<Byte>)
    requires |d| == 32
    ensures Value(d) ==
      0x1_0000_0000_0000_0000_0000_0000_0000_0000 *
        (0x1_0000_0000_0000_0000_0000_0000 * Value(d[0..4]) + 0x1_0000_0000_0000_0000 * Value(d[4..8])
          + 0x1_0000_0000 * Value(d[8..12]) + Value(d[12..16]))
      + (0x1_0000_0000_0000_0000_0000_0000 * Value(d[16..20]) + 0x1_0000_0000_0000_0000 * Value(d[20..24])
          + 0x1_0000_0000 * Value(d[24..28]) + Value(d[28..32]))
  {
    hide Value;
    TwoHalves(d);
    FourWords(d[..16]);
    FourWords(d[16..]);
    assert d[..16][..4] == d[0..4] && d[..16][4..8] == d[4..8] && d[..16][8..12] == d[8..12] && d[..16][12..] == d[12..16];
    assert d[16..][..4] == d[16..20] && d[16..][4..8] == d[20..24] && d[16..][8..12] == d[24..28]
        && d[16..][12..] == d[28..32];
  }

  /** The constant D of CTR-ACPKM (section 6.2.1 of RFC 8645). */
  lemma AcpkmConstant()
    ensures Value(CtrAcpkm.D())
         == 0x80818283_84858687_88898A8B_8C8D8E8F_90919293_94959697_98999A9B_9C9D9E9F
  {
    hide Value, CtrAcpkm.D;
    EightWords(CtrAcpkm.D());
    AcpkmWord(0);
    AcpkmWord(4);
    AcpkmWord(8);
    AcpkmWord(12);
    AcpkmWord(16);
    AcpkmWord(20);
    AcpkmWord(24);
    AcpkmWord(28);
  }

  lemma AcpkmWord(i: nat)
    requires i < 29
    ensures Value(CtrAcpkm.D()[i..i + 4]) == 0x0101_0101 * (0x80 + i) + 0x0001_0203
  {
    hide Value, Index, CtrAcpkm.D;
    FourBytes(CtrAcpkm.D()[i..i + 4]);
    CtrAcpkmLaws.ConstantCounts(i);
    CtrAcpkmLaws.ConstantCounts(i + 1);
    CtrAcpkmLaws.ConstantCounts(i + 2);
    CtrAcpkmLaws.ConstantCounts(i + 3);
  }

  /** A number of 32 bytes by its four parts. */
  lemma FourParts(a: seq<Byte>, b: seq<Byte>, c: seq<Byte>, d: seq<Byte>)
    requires |a| == |b| == |c| == |d| == 8
    ensures Value(a + b + c + d) ==
      0x1_0000_0000_0000_0000 * (0x1_0000_0000_0000_0000 * (0x1_0000_0000_0000_0000 * Value(a) + Value(b)) + Value(c)) + Value(d)
  {
    hide Value, Pow;
    FourPower();
    ValueConcat(a, b);
    ValueConcat(a + b, c);
    ValueConcat(a + b + c, d);
  }

  /** The key-meshing constant (section 2.3.2 of RFC 4357). */
  lemma MeshingConstant()
    ensures Value(Cnt.MESH_CONSTANT)
         == 0x69007222_64C90423_8D3ADB96_46E92AC4_18FEAC94_00ED0712_C086DCC2_EF4CA92B
  {
    hide Value, Cnt.MESH_CONSTANT;
    MeshingParts();
    Meshing0();
    Meshing1();
    Meshing2();
    Meshing3();
    FourParts([0x69, 0, 0x72, 0x22, 0x64, 0xC9, 0x04, 0x23],
              [0x8D, 0x3A, 0xDB, 0x96, 0x46, 0xE9, 0x2A, 0xC4],
              [0x18, 0xFE, 0xAC, 0x94, 0, 0xED, 0x07, 0x12],
              [0xC0, 0x86, 0xDC, 0xC2, 0xEF, 0x4C, 0xA9, 0x2B]);
  }

  lemma MeshingParts()
    ensures Cnt.MESH_CONSTANT ==
      [0x69, 0, 0x72, 0x22, 0x64, 0xC9, 0x04, 0x23]
        + [0x8D, 0x3A, 0xDB, 0x96, 0x46, 0xE9, 0x2A, 0xC4]
        + [0x18, 0xFE, 0xAC, 0x94, 0, 0xED, 0x07, 0x12]
        + [0xC0, 0x86, 0xDC, 0xC2, 0xEF, 0x4C, 0xA9, 0x2B]
  {
  }

  lemma Meshing0()
    ensures Value([0x69, 0, 0x72, 0x22, 0x64, 0xC9, 0x04, 0x23]) == 0x69007222_64C90423
  {
    hide Value;
    var d: seq<Byte> := [0x69, 0, 0x72, 0x22, 0x64, 0xC9, 0x04, 0x23];
    TwoWords(d);
    WordIs(d, 0, 0x69, 0, 0x72, 0x22, 0x69007222);
    WordIs(d, 4, 0x64, 0xC9, 0x04, 0x23, 0x64C90423);
  }

  lemma Meshing1()
    ensures Value([0x8D, 0x3A, 0xDB, 0x96, 0x46, 0xE9, 0x2A, 0xC4]) == 0x8D3ADB96_46E92AC4
  {
    hide Value;
    var d: seq<Byte> := [0x8D, 0x3A, 0xDB, 0x96, 0x46, 0xE9, 0x2A, 0xC4];
    TwoWords(d);
    WordIs(d, 0, 0x8D, 0x3A, 0xDB, 0x96, 0x8D3ADB96);
    WordIs(d, 4, 0x46, 0xE9, 0x2A, 0xC4, 0x46E92AC4);
  }

  lemma Meshing2()
    ensures Value([0x18, 0xFE, 0xAC, 0x94, 0, 0xED, 0x07, 0x12]) == 0x18FEAC94_00ED0712
  {
    hide Value;
    var d: seq<Byte> := [0x18, 0xFE, 0xAC, 0x94, 0, 0xED, 0x07, 0x12];
    TwoWords(d);
    WordIs(d, 0, 0x18, 0xFE, 0xAC, 0x94, 0x18FEAC94);
    WordIs(d, 4, 0, 0xED, 0x07, 0x12, 0x00ED0712);
  }

  lemma Meshing3()
    ensures Value([0xC0, 0x86, 0xDC, 0xC2, 0xEF, 0x4C, 0xA9, 0x2B]) == 0xC086DCC2_EF4CA92B
  {
    hide Value;
    var d: seq<Byte> := [0xC0, 0x86, 0xDC, 0xC2, 0xEF, 0x4C, 0xA9, 0x2B];
    TwoWords(d);
    WordIs(d, 0, 0xC0, 0x86, 0xDC, 0xC2, 0xC086DCC2);
    WordIs(d, 4, 0xEF, 0x4C, 0xA9, 0x2B, 0xEF4CA92B);
  }

  /** The bytes of C3, most significant first. */
  function C3Bytes(): (d: seq<Byte>)
    ensures |d| == 32
  {
    seq(32, i requires 0 <= i < 32 => Gostr341194.C3[31 - i])
  }

  /** The constant C3 (section 5.1 of RFC 5831). */
  lemma CompressionConstant()
    ensures Value(C3Bytes()) == 0xFF00FFFF_000000FF_FF0000FF_00FFFF00_00FF00FF_00FF00FF_FF00FF00_FF00FF00
  {
    hide Value, C3Bytes;
    CompressionParts();
    Compression0();
    Compression1();
    Compression2();
    Compression3();
    FourParts([0xFF, 0, 0xFF, 0xFF, 0, 0, 0, 0xFF],
              [0xFF, 0, 0, 0xFF, 0, 0xFF, 0xFF, 0],
              [0, 0xFF, 0, 0xFF, 0, 0xFF, 0, 0xFF],
              [0xFF, 0, 0xFF, 0, 0xFF, 0, 0xFF, 0]);
  }

  lemma CompressionParts()
    ensures C3Bytes() ==
      [0xFF, 0, 0xFF, 0xFF, 0, 0, 0, 0xFF]
        + [0xFF, 0, 0, 0xFF, 0, 0xFF, 0xFF, 0]
        + [0, 0xFF, 0, 0xFF, 0, 0xFF, 0, 0xFF]
        + [0xFF, 0, 0xFF, 0, 0xFF, 0, 0xFF, 0]
  {
  }

  lemma Compression0()
    ensures Value([0xFF, 0, 0xFF, 0xFF, 0, 0, 0, 0xFF]) == 0xFF00FFFF_000000FF
  {
    hide Value;
    var d: seq<Byte> := [0xFF, 0, 0xFF, 0xFF, 0, 0, 0, 0xFF];
    TwoWords(d);
    WordIs(d, 0, 0xFF, 0, 0xFF, 0xFF, 0xFF00FFFF);
    WordIs(d, 4, 0, 0, 0, 0xFF, 0x000000FF);
  }

  lemma Compression1()
    ensures Value([0xFF, 0, 0, 0xFF, 0, 0xFF, 0xFF, 0]) == 0xFF0000FF_00FFFF00
  {
    hide Value;
    var d: seq<Byte> := [0xFF, 0, 0, 0xFF, 0, 0xFF, 0xFF, 0];
    TwoWords(d);
    WordIs(d, 0, 0xFF, 0, 0, 0xFF, 0xFF0000FF);
    WordIs(d, 4, 0, 0xFF, 0xFF, 0, 0x00FFFF00);
  }

  lemma Compression2()
    ensures Value([0, 0xFF, 0, 0xFF, 0, 0xFF, 0, 0xFF]) == 0x00FF00FF_00FF00FF
  {
    hide Value;
    var d: seq<Byte> := [0, 0xFF, 0, 0xFF, 0, 0xFF, 0, 0xFF];
    TwoWords(d);
    WordIs(d, 0, 0, 0xFF, 0, 0xFF, 0x00FF00FF);
    WordIs(d, 4, 0, 0xFF, 0, 0xFF, 0x00FF00FF);
  }

  lemma Compression3()
    ensures Value([0xFF, 0, 0xFF, 0, 0xFF, 0, 0xFF, 0]) == 0xFF00FF00_FF00FF00
  {
    hide Value;
    var d: seq<Byte> := [0xFF, 0, 0xFF, 0, 0xFF, 0, 0xFF, 0];
    TwoWords(d);
    WordIs(d, 0, 0xFF, 0, 0xFF, 0, 0xFF00FF00);
    WordIs(d, 4, 0xFF, 0, 0xFF, 0, 0xFF00FF00);
  }
}
