/** The counter stream in closed form (RFC 5830, section 6; RFC 4357, section 2.3.2): the words of every
    counter block, the keys between the meshing points, and where each section starts. */
module CntLaws {
  import opened ModArith
  import opened Gf256
  import opened Kuznyechik
  import opened LittleEndian
  import opened Cnt

  /** The words of c lie m steps past those of s: the lower one modulo 2^32, the upper one modulo
      2^32 - 1 among the numbers 1 to 2^32 - 1. */
  ghost predicate Advanced(s: seq<Byte>, c: seq<Byte>, m: nat)
  {
    && |s| == |c| == 8
    && Lo(c) == (Lo(s) + m * C2) % W32
    && 0 < Hi(c) < W32 && Cong(Hi(c), Hi(s) + m * C1, W32 - 1)
  }

  /** That determines the block. */
  lemma AdvancedUnique(s: seq<Byte>, c: seq<Byte>, d: seq<Byte>, m: nat)
    requires Advanced(s, c, m) && Advanced(s, d, m)
    ensures c == d
  {
    hide ValueLE;
    var t := Hi(s) + m * C1;
    SameResidue(Hi(c), Hi(d), t);
    SameWord(c[0..4], d[0..4]);
    SameWord(c[4..8], d[4..8]);
    assert c == c[0..4] + c[4..8] && d == d[0..4] + d[4..8];
  }

  lemma SameResidue(a: int, b: int, t: int)
    requires 0 < a < W32 && 0 < b < W32 && Cong(a, t, W32 - 1) && Cong(b, t, W32 - 1)
    ensures a == b
  {
    hide Cong;
    CongSym(b, t, W32 - 1);
    CongTrans(a, t, b, W32 - 1);
    CongRefl(1, W32 - 1);
    CongAdd(a, b, 1, 1, W32 - 1);
    CongReduced(a - 1, b - 1, W32 - 1);
  }

  lemma SameWord(a: seq<Byte>, b: seq<Byte>)
    requires |a| == |b| && ValueLE(a) == ValueLE(b)
    ensures a == b
  {
    hide ValueLE, FromLE;
    LEOfValue(a);
    LEOfValue(b);
  }

  lemma StepsAdvance(s: seq<Byte>, m: nat)
    requires |s| == 8 && m > 0
    ensures Advanced(s, Steps(s, m), m)
  {
    hide Steps, ValueLE, Cong;
    StepsWords(s, m);
    WordBound(Steps(s, m)[0..4]);
    WordBound(Steps(s, m)[4..8]);
    CongIffModEq(Lo(Steps(s, m)), Lo(s) + m * C2, W32);
    ModReduced(Lo(Steps(s, m)), W32);
  }

  /** The sections of 128 blocks: key ks[j], starting counter cs[j], last counter ls[j]. The first starts at
      the encrypted initial value; every later one takes the decrypted constant as its key and the
      last counter, encrypted under that key, as its start. */
  ghost predicate Sections(e: Ecb, key: seq<Byte>, iv: seq<Byte>, ks: seq<seq<Byte>>, cs: seq<seq<Byte>>, ls: seq<seq<Byte>>)
  {
    && |ks| == |cs| == |ls| > 0 && ks[0] == key && cs[0] == e.enc(key, iv)
    && (forall j :: 0 <= j < |cs| ==> Advanced(cs[j], ls[j], 128))
    && (forall j :: 0 <= j < |ks| - 1 ==> NextSection(e, ks[j], ls[j], ks[j + 1], cs[j + 1]))
  }

  ghost predicate NextSection(e: Ecb, k: seq<Byte>, last: seq<Byte>, next: seq<Byte>, start: seq<Byte>)
  {
    && next == e.dec(k, MESH_CONSTANT[0..8]) + e.dec(k, MESH_CONSTANT[8..16])
             + e.dec(k, MESH_CONSTANT[16..24]) + e.dec(k, MESH_CONSTANT[24..32])
    && start == e.enc(next, last)
  }

  lemma MeshedIs(e: Ecb, k: seq<Byte>)
    ensures MeshedKey(e, k) == e.dec(k, MESH_CONSTANT[0..8]) + e.dec(k, MESH_CONSTANT[8..16])
                             + e.dec(k, MESH_CONSTANT[16..24]) + e.dec(k, MESH_CONSTANT[24..32])
  {
    assert |MESH_CONSTANT| == 32;
    assert MeshedBlocks(e, k, 0) == [];
    assert MeshedBlocks(e, k, 1) == e.dec(k, MESH_CONSTANT[0..8]);
    assert MeshedBlocks(e, k, 2) == MeshedBlocks(e, k, 1) + e.dec(k, MESH_CONSTANT[8..16]);
    assert MeshedBlocks(e, k, 3) == MeshedBlocks(e, k, 2) + e.dec(k, MESH_CONSTANT[16..24]);
  }

  /** Steps continue from the first. */
  lemma {:induction false} StepsFrom(s: seq<Byte>, m: nat)
    requires |s| == 8
    ensures Steps(Steps(s, 1), m) == Steps(s, m + 1)
  {
    hide Step;
    if m > 0 { StepsFrom(s, m - 1); }
  }

  /** The state after the first block of a section, and then after each of its blocks. */
  lemma {:induction false} SectionState(e: Ecb, key: seq<Byte>, iv: seq<Byte>, ks: seq<seq<Byte>>, cs: seq<seq<Byte>>,
                                        ls: seq<seq<Byte>>, j: nat, m: nat)
    requires EcbOk(e) && |iv| == 8 && Sections(e, key, iv, ks, cs, ls) && j < |ks| && m < 128
    ensures |cs[j]| == 8 && StateAfter(e, key, iv, 128 * j + m + 1) == (ks[j], Steps(cs[j], m + 1))
    decreases j, m
  {
    hide EcbOk, Step, MeshedKey, StateAfter, Advanced;
    assert Advanced(cs[j], ls[j], 128);
    StartLength(cs[j], ls[j]);
    if m == 0 {
      if j == 0 {
        FirstState(e, key, iv);
      } else {
        assert NextSection(e, ks[j - 1], ls[j - 1], ks[j - 1 + 1], cs[j - 1 + 1]);
        assert Advanced(cs[j - 1], ls[j - 1], 128);
        SectionState(e, key, iv, ks, cs, ls, j - 1, 127);
        StepsAdvance(cs[j - 1], 128);
        AdvancedUnique(cs[j - 1], Steps(cs[j - 1], 128), ls[j - 1], 128);
        MeshedIs(e, ks[j - 1]);
        MeshedState(e, key, iv, j);
      }
      OneStep(cs[j]);
    } else {
      SectionState(e, key, iv, ks, cs, ls, j, 0);
      BetweenMeshes(e, key, iv, 128 * j, m);
      StepsFrom(cs[j], m);
    }
  }

  lemma StartLength(s: seq<Byte>, c: seq<Byte>)
    requires Advanced(s, c, 128)
    ensures |s| == |c| == 8
  {
  }

  lemma OneStep(s: seq<Byte>)
    requires |s| == 8
    ensures Steps(s, 1) == Step(s)
  {
    hide Step;
    assert Steps(s, 0) == s;
  }

  lemma FirstState(e: Ecb, key: seq<Byte>, iv: seq<Byte>)
    requires EcbOk(e) && |iv| == 8
    ensures |e.enc(key, iv)| == 8 && StateAfter(e, key, iv, 1) == (key, Step(e.enc(key, iv)))
  {
    hide Step;
    assert StateAfter(e, key, iv, 0) == (key, iv);
  }

  lemma MeshedState(e: Ecb, key: seq<Byte>, iv: seq<Byte>, j: nat)
    requires EcbOk(e) && |iv| == 8 && j > 0
    ensures var (k, c) := StateAfter(e, key, iv, 128 * j);
            var k2 := MeshedKey(e, k);
            |e.enc(k2, c)| == 8 && StateAfter(e, key, iv, 128 * j + 1) == (k2, Step(e.enc(k2, c)))
  {
    hide Step, MeshedKey;
    assert MeshBefore(128 * j);
  }

  /** Byte i of gamma block m of section j is byte i of the encrypted counter whose words are m + 1 steps
      past the start of the section. */
  lemma GammaExactly(e: Ecb, key: seq<Byte>, iv: seq<Byte>, ks: seq<seq<Byte>>, cs: seq<seq<Byte>>,
                     ls: seq<seq<Byte>>, j: nat, m: nat, c: seq<Byte>, i: nat)
    requires EcbOk(e) && |iv| == 8 && Sections(e, key, iv, ks, cs, ls) && j < |ks| && m < 128 && i < 8
    requires Advanced(cs[j], c, m + 1)
    ensures StreamByte(e, key, iv, 8 * (128 * j + m) + i) == e.enc(ks[j], c)[i]
  {
    hide EcbOk, Steps, StateAfter, Advanced, Sections;
    var p := 8 * (128 * j + m) + i;
    assert p / 8 == 128 * j + m && p % 8 == i;
    BlockLength(e);
    assert |ks| == |cs| by { SameCount(e, key, iv, ks, cs, ls); }
    SectionState(e, key, iv, ks, cs, ls, j, m);
    StepsAdvance(cs[j], m + 1);
    AdvancedUnique(cs[j], Steps(cs[j], m + 1), c, m + 1);
  }

  lemma SameCount(e: Ecb, key: seq<Byte>, iv: seq<Byte>, ks: seq<seq<Byte>>, cs: seq<seq<Byte>>, ls: seq<seq<Byte>>)
    requires Sections(e, key, iv, ks, cs, ls)
    ensures |ks| == |cs|
  {
  }
}
