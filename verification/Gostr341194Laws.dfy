/** The hash as the procedure of section 6 of RFC 5831, and its compression function as the linear
    recurrences behind psi and the key words. */
module Gostr341194Laws {
  import opened ModArith
  import opened Gf256
  import opened Blocks
  import opened Kuznyechik
  import opened LittleEndian
  import opened Gostr341194
  import StreebogLaws

  // ---- the procedure ----

  /** From chaining value h, bit length l and checksum sigma on what remains: whole blocks while more
      than one block is left, then the last block, zero-filled, the length and the checksum. */
  function Procedure(e: Inner, h: Block32, l: nat, sigma: nat, rest: seq<Byte>): Block32
    requires InnerOk(e)
    decreases |rest|
  {
    if |rest| > 32 then
      var m := rest[..32];
      Procedure(e, Chi(e, m, h), l + 256, sigma + ValueLE(m), rest[32..])
    else
      var m := rest + Zeros(32 - |rest|);
      Chi(e, FromLE(sigma + ValueLE(m), 32), Chi(e, FromLE(l + 8 * |rest|, 32), Chi(e, m, h)))
  }

  /** The digest is the procedure from the zero block, for every message whose bit length fits 64 bits. */
  lemma DigestExactly(e: Inner, msg: seq<Byte>)
    requires InnerOk(e) && |msg| < 0x2000_0000_0000_0000
    ensures Digest(e, msg) == Procedure(e, Zeros(32), 0, 0, msg)
  {
    hide InnerOk, Digest, Procedure;
    if |msg| % 32 > 0 || |msg| == 0 { FragmentLeft(e, msg); } else { BlockLeft(e, msg); }
  }

  lemma FragmentLeft(e: Inner, msg: seq<Byte>)
    requires InnerOk(e) && |msg| < 0x2000_0000_0000_0000 && (|msg| % 32 > 0 || |msg| == 0)
    ensures Digest(e, msg) == Procedure(e, Zeros(32), 0, 0, msg)
  {
    hide InnerOk, Chi, FromLE, ValueLE, Chain, BlockSum, Procedure, LengthBlock, Tail, ExtraBlock, Digest;
    var j, t := |msg| / 32, Tail(msg);
    ExtraBlockExactly(|msg|);
    TailIs(msg);
    LengthIs(|msg|);
    Reached(e, msg, j);
    LastStage(e, Chain(e, msg, j), 256 * j, BlockSum(msg, j), t);
    WithTail(e, msg, j);
  }

  lemma WithTail(e: Inner, msg: seq<Byte>, j: nat)
    requires InnerOk(e) && |msg| / 32 == j && (|Tail(msg)| > 0 || ExtraBlock(|msg|))
    ensures 32 * j <= |msg|
    ensures var m := Tail(msg) + Zeros(32 - |Tail(msg)|);
            Digest(e, msg)
              == Chi(e, FromLE(BlockSum(msg, j) + ValueLE(m), 32), Chi(e, LengthBlock(|msg|), Chi(e, m, Chain(e, msg, j))))
  {
    hide InnerOk, Chi, FromLE, ValueLE, Chain, BlockSum, LengthBlock, Tail, ExtraBlock;
    if |Tail(msg)| == 0 {
      StreebogLaws.ZeroValue(32);
      assert Tail(msg) + Zeros(32) == Zeros(32);
    }
  }

  lemma TailIs(msg: seq<Byte>)
    ensures msg[32 * (|msg| / 32)..] == Tail(msg) && 256 * (|msg| / 32) + 8 * |Tail(msg)| == 8 * |msg|
    ensures |Tail(msg)| == |msg| % 32
  {
  }

  lemma BlockLeft(e: Inner, msg: seq<Byte>)
    requires InnerOk(e) && 0 < |msg| < 0x2000_0000_0000_0000 && |msg| % 32 == 0
    ensures Digest(e, msg) == Procedure(e, Zeros(32), 0, 0, msg)
  {
    hide InnerOk, Chi, FromLE, ValueLE, Chain, BlockSum, Procedure, LengthBlock, Tail, ExtraBlock, Digest, BlockOf;
    var j: nat := |msg| / 32 - 1;
    WholeIs(msg, j);
    LengthIs(|msg|);
    Reached(e, msg, j);
    LastStage(e, Chain(e, msg, j), 256 * j, BlockSum(msg, j), BlockOf(msg, j));
    NextBlock(e, msg, j);
    WithoutTail(e, msg, j + 1);
  }

  lemma WithoutTail(e: Inner, msg: seq<Byte>, j: nat)
    requires InnerOk(e) && |msg| / 32 == j && |Tail(msg)| == 0 && !ExtraBlock(|msg|)
    ensures 32 * j <= |msg|
    ensures Digest(e, msg) == Chi(e, FromLE(BlockSum(msg, j), 32), Chi(e, LengthBlock(|msg|), Chain(e, msg, j)))
  {
    hide InnerOk, Chi, FromLE, ValueLE, Chain, BlockSum, LengthBlock, Tail, ExtraBlock;
  }

  lemma WholeIs(msg: seq<Byte>, j: nat)
    requires |msg| == 32 * (j + 1) && |msg| < 0x2000_0000_0000_0000
    ensures |msg| / 32 == j + 1 && |Tail(msg)| == 0 && !ExtraBlock(|msg|)
    ensures msg[32 * j..] == BlockOf(msg, j) && BlockOf(msg, j) + Zeros(0) == BlockOf(msg, j)
  {
    ExtraBlockExactly(|msg|);
  }

  lemma NextBlock(e: Inner, msg: seq<Byte>, j: nat)
    requires InnerOk(e) && 32 * j + 32 <= |msg|
    ensures Chain(e, msg, j + 1) == Chi(e, BlockOf(msg, j), Chain(e, msg, j))
    ensures BlockSum(msg, j + 1) == BlockSum(msg, j) + ValueLE(BlockOf(msg, j))
  {
    hide Chi, ValueLE, InnerOk;
  }

  lemma LastStage(e: Inner, h: Block32, l: nat, sigma: nat, rest: seq<Byte>)
    requires InnerOk(e) && |rest| <= 32
    ensures var m := rest + Zeros(32 - |rest|);
            Procedure(e, h, l, sigma, rest)
              == Chi(e, FromLE(sigma + ValueLE(m), 32), Chi(e, FromLE(l + 8 * |rest|, 32), Chi(e, m, h)))
  {
    hide Chi, FromLE, ValueLE, InnerOk;
  }

  lemma OneBlock(e: Inner, h: Block32, l: nat, sigma: nat, rest: seq<Byte>)
    requires InnerOk(e) && |rest| > 32
    ensures Procedure(e, h, l, sigma, rest)
         == Procedure(e, Chi(e, rest[..32], h), l + 256, sigma + ValueLE(rest[..32]), rest[32..])
  {
    hide Chi, FromLE, ValueLE, InnerOk;
  }

  /** After j blocks with something left the procedure stands at their chaining value, length and sum. */
  lemma {:induction false} Reached(e: Inner, msg: seq<Byte>, j: nat)
    requires InnerOk(e) && 32 * j <= |msg| && (j > 0 ==> 32 * j < |msg|)
    ensures Procedure(e, Chain(e, msg, j), 256 * j, BlockSum(msg, j), msg[32 * j..])
         == Procedure(e, Zeros(32), 0, 0, msg)
  {
    hide Chi, FromLE, ValueLE, Procedure, InnerOk;
    if j == 0 {
      assert msg[0..] == msg;
    } else {
      Reached(e, msg, j - 1);
      var rest := msg[32 * (j - 1)..];
      OneBlock(e, Chain(e, msg, j - 1), 256 * (j - 1), BlockSum(msg, j - 1), rest);
      assert rest[..32] == BlockOf(msg, j - 1) && rest[32..] == msg[32 * j..];
      NextBlock(e, msg, j - 1);
    }
  }

  /** A bit length below 2^64 fills the length block as a 256-bit number would. */
  lemma LengthIs(len: nat)
    requires len < 0x2000_0000_0000_0000
    ensures LengthBlock(len) == FromLE(8 * len, 32)
  {
    hide FromLE, ValueLE, Pow;
    var v := 8 * len;
    var b := FromLE(v, 8) + Zeros(24);
    EightBytes();
    ValueOfLE(v, 8);
    ModReduced(v, WORD64);
    StreebogLaws.ValueConcat(FromLE(v, 8), Zeros(24));
    StreebogLaws.ZeroValue(24);
    StreebogLaws.TimesNothing(Pow(256, 8), 1);
    LEOfValue(b);
  }

  lemma EightBytes()
    ensures Pow(256, 8) == WORD64
  {
    assert Pow(256, 2) == 65536;
    PowAdd(256, 2, 2);
    PowAdd(256, 4, 4);
  }

  // ---- the compression function ----

  /** Each byte is the sum of the bytes 32, 30, 28, 26, 8 and 2 places before it. */
  ghost predicate Mixes(s: seq<Byte>) { forall i: nat :: i + 32 < |s| ==> MixesAt(s, i) }

  predicate MixesAt(s: seq<Byte>, i: nat)
    requires i + 32 < |s|
  {
    s[i + 32] == Sum6(s[i], s[i + 2], s[i + 4], s[i + 6], s[i + 24], s[i + 30])
  }

  function Sum6(a: Byte, b: Byte, c: Byte, d: Byte, f: Byte, g: Byte): Byte
  {
    Xor(Xor(Xor(Xor(Xor(a, b), c), d), f), g)
  }

  /** Psi moves along such a run by one 16-bit word. */
  lemma {:induction false} PsiRun(s: seq<Byte>, n: nat)
    requires Mixes(s) && 2 * n + 32 <= |s|
    ensures FPsiN(s[..32], n) == s[2 * n..2 * n + 32]
  {
    hide FPsi, Mixes;
    if n > 0 {
      PsiRun(s, n - 1);
      PsiStep(s, 2 * (n - 1));
    }
  }

  lemma PsiStep(s: seq<Byte>, i: nat)
    requires Mixes(s) && i + 34 <= |s|
    ensures FPsi(s[i..i + 32]) == s[i + 2..i + 34]
  {
    hide Xor;
    var x: Block32 := s[i..i + 32];
    assert MixesAt(s, i) && MixesAt(s, i + 1);
    assert PsiFold(x, 0) == s[i + 32] && PsiFold(x, 1) == s[i + 33];
    hide PsiFold;
    assert x[2..32] == s[i + 2..i + 32];
    assert s[i + 2..i + 34] == s[i + 2..i + 32] + [s[i + 32], s[i + 33]];
  }

  /** The mixing stage: s runs twelve words past the encrypted blocks, t one word past its sum with the
      message block, and w 61 words past the sum of that with the chaining value. */
  lemma ChiExactly(e: Inner, m: Block32, h: Block32, s: seq<Byte>, t: seq<Byte>, w: seq<Byte>)
    requires InnerOk(e) && |s| == 56 && |t| == 34 && |w| == 154 && Mixes(s) && Mixes(t) && Mixes(w)
    requires s[..32] == EncryptH(e, m, h)
    requires forall i :: 0 <= i < 32 ==> t[i] == Xor(m[i], s[24 + i]) && w[i] == Xor(h[i], t[2 + i])
    ensures Chi(e, m, h) == w[122..]
  {
    hide Xor, FPsiN, FPsi, EncryptH, Mixes, InnerOk;
    PsiRun(s, 12);
    var a := FPsiN(s[..32], 12);
    var b := XorSeq(m, a);
    assert b == t[..32];
    PsiStep(t, 0);
    assert t[0..32] == b;
    var c := XorSeq(h, FPsi(b));
    assert c == w[..32];
    PsiRun(w, 61);
    assert Chi(e, m, h) == FPsiN(c, 61);
  }

  /** The encryption stage: 64-bit word i of the chaining value under key i. */
  lemma EncryptHExactly(e: Inner, m: Block32, h: Block32, i: nat)
    requires InnerOk(e) && i < 4
    ensures EncryptH(e, m, h)[8 * i..8 * i + 8] == e(KeyOf(m, h, i), h[8 * i..8 * i + 8])
  {
    hide KeyOf;
    var low := e(KeyOf(m, h, 0), h[0..8]) + e(KeyOf(m, h, 1), h[8..16]);
    var high := e(KeyOf(m, h, 2), h[16..24]) + e(KeyOf(m, h, 3), h[24..32]);
    assert |low| == 16 && |high| == 16;
    if i == 0 {
      assert (low + high)[0..8] == e(KeyOf(m, h, 0), h[0..8]);
    } else if i == 1 {
      assert (low + high)[8..16] == e(KeyOf(m, h, 1), h[8..16]);
    } else if i == 2 {
      assert (low + high)[16..24] == e(KeyOf(m, h, 2), h[16..24]);
    } else {
      assert (low + high)[24..32] == e(KeyOf(m, h, 3), h[24..32]);
    }
  }

  /** A drops the lowest 64-bit word and puts its sum with the next one on top. */
  lemma AExactly(x: Block32, i: nat)
    requires i < 32
    ensures FA(x)[i] == if i < 24 then x[i + 8] else Xor(x[i - 24], x[i - 16])
  {
    hide Xor;
  }

  /** The key words: u steps by A, with the constant C3 added before the third key, v by A twice, and
      byte i of their sum is byte 4 (i mod 8) + i / 8 of the key. */
  lemma KeysExactly(m: Block32, h: Block32, us: seq<Block32>, vs: seq<Block32>, n: nat, i: nat)
    requires |us| == |vs| == 4 && us[0] == h && vs[0] == m && n < 4 && i < 32
    requires us[1] == FA(us[0]) && us[2] == XorSeq(FA(us[1]), C3) && us[3] == FA(us[2])
    requires vs[1] == FA(FA(vs[0])) && vs[2] == FA(FA(vs[1])) && vs[3] == FA(FA(vs[2]))
    ensures KeyOf(m, h, n)[4 * (i % 8) + i / 8] == Xor(us[n][i], vs[n][i])
  {
    hide FA, FP, Xor, C3;
    KeyWordsAre(m, h, us, vs, n);
    PIsPermutation(XorSeq(us[n], vs[n]), i);
  }

  lemma KeyWordsAre(m: Block32, h: Block32, us: seq<Block32>, vs: seq<Block32>, n: nat)
    requires |us| == |vs| == 4 && us[0] == h && vs[0] == m && n < 4
    requires us[1] == FA(us[0]) && us[2] == XorSeq(FA(us[1]), C3) && us[3] == FA(us[2])
    requires vs[1] == FA(FA(vs[0])) && vs[2] == FA(FA(vs[1])) && vs[3] == FA(FA(vs[2]))
    ensures KeyWords(m, h, n) == (us[n], vs[n])
  {
    hide FA, XorSeq;
    assert KeyWords(m, h, 0) == (us[0], vs[0]);
    assert n >= 1 ==> KeyWords(m, h, 1) == (us[1], vs[1]);
    assert n >= 2 ==> KeyWords(m, h, 2) == (us[2], vs[2]);
  }
}
