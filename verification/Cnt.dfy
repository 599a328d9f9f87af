/** gost28147cnt: the GOST 28147-89 counter stream with CryptoPro key meshing (RFC 5830, section 6;
    RFC 4357, section 2.3.2), over any block cipher on 8 bytes. */
module Cnt {
  import opened ModArith
  import opened Gf256
  import opened Blocks
  import opened Kuznyechik
  import opened LittleEndian

  const C1: nat := 0x01010104
  const C2: nat := 0x01010101
  const MESH_THRESHOLD: nat := 1024
  const W32: nat := 0x1_0000_0000

  /** Encryption and decryption of one block under a 32-byte key. */
  datatype Ecb = Ecb(enc: (seq<Byte>, seq<Byte>) -> seq<Byte>, dec: (seq<Byte>, seq<Byte>) -> seq<Byte>)

  ghost predicate EcbOk(e: Ecb)
  {
    forall key, x :: |e.enc(key, x)| == 8 && |e.dec(key, x)| == 8
  }

  lemma BlockLength(e: Ecb)
    requires EcbOk(e)
    ensures forall key, x :: |e.enc(key, x)| == 8
  {
  }

  // ---- the counter ----

  /** The upper word: 32-bit addition with the carry added back in. */
  function HiStep(hi: nat): nat
    requires hi < W32
  {
    var s := (hi + C1) % W32;
    if hi > s then (s + 1) % W32 else s
  }

  /** It is addition modulo 2^32 - 1, and its result is never zero. */
  lemma HiStepModular(hi: nat)
    requires hi < W32
    ensures 0 < HiStep(hi) < W32
    ensures Cong(HiStep(hi), hi + C1, W32 - 1)
  {
    var t := hi + C1;
    if t < W32 {
      ModUnique(t, W32, 0, t);
      CongRefl(t, W32 - 1);
    } else {
      ModUnique(t, W32, 1, t - W32);
      ModUnique(t - W32 + 1, W32, 0, t - W32 + 1);
      CongIntro(t - W32 + 1, t, W32 - 1, -1);
    }
  }

  function Lo(c: seq<Byte>): nat
    requires |c| == 8
  {
    ValueLE(c[0..4])
  }

  function Hi(c: seq<Byte>): nat
    requires |c| == 8
  {
    ValueLE(c[4..8])
  }

  lemma WordBound(b: seq<Byte>)
    requires |b| == 4
    ensures ValueLE(b) < W32
  {
    hide Index, ToByte;
    LEOfValue(b);
    ValueOfLE(ValueLE(b), 4);
    PowWord();
  }

  lemma PowWord()
    ensures Pow(256, 4) == W32
  {
    assert Pow(256, 2) == 65536;
    PowAdd(256, 2, 2);
  }

  lemma WordRoundTrip(v: nat)
    requires v < W32
    ensures ValueLE(FromLE(v, 4)) == v
  {
    hide Pow;
    ValueOfLE(v, 4);
    PowWord();
    ModReduced(v, W32);
  }

  /** The counter advanced by one block. */
  function Step(c: seq<Byte>): (r: seq<Byte>)
    requires |c| == 8
    ensures |r| == 8
  {
    WordBound(c[4..8]);
    FromLE((Lo(c) + C2) % W32, 4) + FromLE(HiStep(Hi(c)), 4)
  }

  /** Both words of the advanced counter. */
  lemma StepWords(c: seq<Byte>)
    requires |c| == 8
    ensures Lo(Step(c)) == (Lo(c) + C2) % W32
    ensures Hi(c) < W32 && Hi(Step(c)) == HiStep(Hi(c))
    ensures 0 < Hi(Step(c)) && Cong(Hi(Step(c)), Hi(c) + C1, W32 - 1)
  {
    hide ValueLE, FromLE, HiStep;
    WordBound(c[4..8]);
    HiStepModular(Hi(c));
    WordRoundTrip((Lo(c) + C2) % W32);
    WordRoundTrip(HiStep(Hi(c)));
    assert Step(c)[0..4] == FromLE((Lo(c) + C2) % W32, 4);
    assert Step(c)[4..8] == FromLE(HiStep(Hi(c)), 4);
  }

  function Steps(c: seq<Byte>, m: nat): (r: seq<Byte>)
    requires |c| == 8
    ensures |r| == 8
  {
    if m == 0 then c else Step(Steps(c, m - 1))
  }

  /** A run of m steps adds m C2 modulo 2^32 below and m C1 modulo 2^32 - 1 above, and the upper
      word is nonzero from the first step on. */
  lemma {:induction false} StepsWords(c: seq<Byte>, m: nat)
    requires |c| == 8
    ensures Cong(Lo(Steps(c, m)), Lo(c) + m * C2, W32)
    ensures Cong(Hi(Steps(c, m)), Hi(c) + m * C1, W32 - 1)
    ensures m > 0 ==> Hi(Steps(c, m)) > 0
  {
    hide Step, Lo, Hi, Cong;
    if m == 0 {
      CongRefl(Lo(c), W32);
      CongRefl(Hi(c), W32 - 1);
    } else {
      var d := Steps(c, m - 1);
      StepsWords(c, m - 1);
      StepWords(d);
      CongMod(Lo(d) + C2, W32);
      AdvanceCong(Lo(Steps(c, m)), Lo(d), Lo(c), m - 1, C2, W32);
      AdvanceCong(Hi(Steps(c, m)), Hi(d), Hi(c), m - 1, C1, W32 - 1);
    }
  }

  lemma AdvanceCong(next: int, prev: int, start: int, m: int, step: int, w: int)
    requires w > 0 && Cong(next, prev + step, w) && Cong(prev, start + m * step, w)
    ensures Cong(next, start + (m + 1) * step, w)
  {
    hide Cong;
    CongRefl(step, w);
    CongAdd(prev, start + m * step, step, step, w);
    assert start + m * step + step == start + (m + 1) * step;
    CongTrans(next, prev + step, start + (m + 1) * step, w);
  }

  // ---- the stream ----

  /** The constant decrypted to derive the next key. */
  const MESH_CONSTANT: seq<Byte> := [
    0x69, 0x00, 0x72, 0x22, 0x64, 0xC9, 0x04, 0x23, 0x8D, 0x3A, 0xDB, 0x96, 0x46, 0xE9, 0x2A, 0xC4,
    0x18, 0xFE, 0xAC, 0x94, 0x00, 0xED, 0x07, 0x12, 0xC0, 0x86, 0xDC, 0xC2, 0xEF, 0x4C, 0xA9, 0x2B]

  /** The first n blocks of the constant, decrypted. */
  function MeshedBlocks(e: Ecb, key: seq<Byte>, n: nat): seq<Byte>
    requires n <= 4
  {
    if n == 0 then [] else MeshedBlocks(e, key, n - 1) + e.dec(key, MESH_CONSTANT[(n - 1) * 8..n * 8])
  }

  function MeshedKey(e: Ecb, key: seq<Byte>): seq<Byte> { MeshedBlocks(e, key, 4) }

  /** Meshing comes before block b exactly when b is a positive multiple of 128. */
  predicate MeshBefore(b: nat) { b > 0 && b % 128 == 0 }

  /** Key and counter after b blocks of gamma. */
  function StateAfter(e: Ecb, key: seq<Byte>, iv: seq<Byte>, b: nat): (r: (seq<Byte>, seq<Byte>))
    requires EcbOk(e) && |iv| == 8
    ensures |r.1| == 8
  {
    if b == 0 then (key, iv)
    else
      var (k, c) := StateAfter(e, key, iv, b - 1);
      if b == 1 then (k, Step(e.enc(k, c)))
      else if MeshBefore(b - 1) then
        var k2 := MeshedKey(e, k);
        (k2, Step(e.enc(k2, c)))
      else (k, Step(c))
  }

  /** Stream byte p: byte p mod 8 of the encrypted counter of block p / 8. */
  function StreamByte(e: Ecb, key: seq<Byte>, iv: seq<Byte>, p: nat): Byte
    requires EcbOk(e) && |iv| == 8
  {
    var (k, c) := StateAfter(e, key, iv, p / 8 + 1);
    e.enc(k, c)[p % 8]
  }

  /** data under the stream from byte pos on. */
  function Stream(e: Ecb, key: seq<Byte>, iv: seq<Byte>, pos: nat, data: seq<Byte>): (r: seq<Byte>)
    requires EcbOk(e) && |iv| == 8
    ensures |r| == |data|
  {
    seq(|data|, i requires 0 <= i < |data| => Xor(data[i], StreamByte(e, key, iv, pos + i)))
  }

  /** Cutting the input anywhere changes nothing. */
  lemma StreamSplit(e: Ecb, key: seq<Byte>, iv: seq<Byte>, pos: nat, a: seq<Byte>, b: seq<Byte>)
    requires EcbOk(e) && |iv| == 8
    ensures Stream(e, key, iv, pos, a + b) == Stream(e, key, iv, pos, a) + Stream(e, key, iv, pos + |a|, b)
  {
    hide StreamByte, Xor, EcbOk;
    var l, r := Stream(e, key, iv, pos, a + b), Stream(e, key, iv, pos, a) + Stream(e, key, iv, pos + |a|, b);
    forall k | 0 <= k < |l| ensures l[k] == r[k] {
      if k >= |a| { assert pos + k == (pos + |a|) + (k - |a|); }
    }
  }

  /** Encrypting twice from one position gives the input back. */
  lemma StreamInvolution(e: Ecb, key: seq<Byte>, iv: seq<Byte>, pos: nat, data: seq<Byte>)
    requires EcbOk(e) && |iv| == 8
    ensures Stream(e, key, iv, pos, Stream(e, key, iv, pos, data)) == data
  {
    hide StreamByte, Xor, EcbOk;
    var once := Stream(e, key, iv, pos, data);
    var r := Stream(e, key, iv, pos, once);
    forall k | 0 <= k < |data| ensures r[k] == data[k] {
      XorCancel(StreamByte(e, key, iv, pos + k), data[k]);
    }
  }

  /** Between two meshings the counter only steps: within the 128 blocks that start with block b,
      the key stays and the words advance as StepsWords says. */
  lemma {:induction false} BetweenMeshes(e: Ecb, key: seq<Byte>, iv: seq<Byte>, b: nat, m: nat)
    requires EcbOk(e) && |iv| == 8 && b % 128 == 0 && m < 128
    ensures
      var (k, c) := StateAfter(e, key, iv, b + 1);
      StateAfter(e, key, iv, b + 1 + m) == (k, Steps(c, m))
  {
    hide EcbOk, Step, MeshedKey;
    if m > 0 {
      BetweenMeshes(e, key, iv, b, m - 1);
      assert !MeshBefore(b + m);
    }
  }

  // ---- the object ----

  /** Bytes of gamma counted since the last meshing. */
  function CountAfter(b: nat): nat { if b == 0 then 0 else ((b - 1) % 128 + 1) * 8 }

  /** The two additions of nextGamma. */
  method AdvanceCounter(buf: seq<Byte>) returns (next: seq<Byte>)
    requires |buf| == 8
    ensures next == Step(buf)
  {
    hide ValueLE, FromLE;
    var lo := (ValueLE(buf[0..4]) + C2) % W32;
    var hi := ValueLE(buf[4..8]);
    WordBound(buf[4..8]);
    var before := hi;
    hi := (hi + C1) % W32;
    if before > hi { hi := (hi + 1) % W32; }
    next := FromLE(lo, 4) + FromLE(hi, 4);
  }

  class CNT {
    const e: Ecb
    var key: seq<Byte>
    var iv: seq<Byte>
    var gamma: seq<Byte>
    var num: nat
    var count: nat
    var first: bool
    ghost const key0: seq<Byte>
    ghost const iv0: seq<Byte>
    ghost var pos: nat

    /** Blocks of gamma generated for the first pos bytes. */
    ghost function Begun(): nat
      reads this
    {
      (pos + 7) / 8
    }

    ghost predicate Valid()
      reads this
    {
      && EcbOk(e) && |iv0| == 8
      && num == pos % 8
      && (key, iv) == StateAfter(e, key0, iv0, Begun())
      && first == (Begun() == 0)
      && count == CountAfter(Begun())
      && (num != 0 ==> gamma == e.enc(key, iv))
    }

    constructor (e: Ecb, key: seq<Byte>, iv: seq<Byte>)
      requires EcbOk(e) && |iv| == 8
      ensures Valid() && pos == 0 && this.e == e && key0 == key && iv0 == iv
    {
      this.e, this.key, key0, this.iv, iv0 := e, key, key, iv, iv;
      gamma, num, count, first, pos := Zeros(8), 0, 0, true, 0;
    }

    /** meshKey. */
    method MeshKey()
      requires EcbOk(e)
      modifies `key, `iv
      ensures key == MeshedKey(e, old(key)) && iv == e.enc(key, old(iv))
    {
      var newKey: seq<Byte> := [];
      for i := 0 to 4
        invariant newKey == MeshedBlocks(e, key, i)
        invariant key == old(key) && iv == old(iv)
      {
        newKey := newKey + e.dec(key, MESH_CONSTANT[i * 8..i * 8 + 8]);
      }
      key := newKey;
      iv := e.enc(key, iv);
    }

    /** nextGamma: meshing is due exactly before blocks 128, 256, and so on. */
    method NextGamma()
      requires Valid() && num == 0
      modifies this
      ensures EcbOk(e) && |iv0| == 8 && pos == old(pos) && num == 0
      ensures (key, iv) == StateAfter(e, key0, iv0, old(Begun()) + 1)
      ensures gamma == e.enc(key, iv) && !first && count == CountAfter(old(Begun()) + 1)
      ensures key == (if MeshBefore(old(Begun())) then MeshedKey(e, old(key)) else old(key))
    {
      hide EcbOk, Step, MeshedKey;
      ghost var b := Begun();
      CountMeans(b);
      if count == MESH_THRESHOLD {
        MeshKey();
        count := 0;
      }
      var buf;
      if first {
        buf := EncryptOne(iv);
        first := false;
      } else {
        buf := iv;
      }
      BlockLength(e);
      iv := AdvanceCounter(buf);
      gamma := EncryptOne(iv);
      count := count % MESH_THRESHOLD + 8;
    }

    /** Encrypt under the current key. */
    method EncryptOne(x: seq<Byte>) returns (y: seq<Byte>)
      ensures y == e.enc(key, x)
    {
      y := e.enc(key, x);
    }

    /** The gamma byte at the current position. */
    method NextByte() returns (g: Byte)
      requires Valid()
      modifies this
      ensures Valid() && pos == old(pos) + 1 && g == StreamByte(e, key0, iv0, old(pos))
    {
      hide EcbOk, StateAfter, CountAfter;
      if num == 0 { NextGamma(); }
      assert (pos + 8) / 8 == pos / 8 + 1;
      BlockLength(e);
      g := gamma[num];
      num := (num + 1) % 8;
      pos := pos + 1;
    }

    /** XORKeyStream. */
    method XORKeyStream(dst: array<Byte>, src: array<Byte>)
      requires Valid() && src.Length <= dst.Length
      modifies this, dst
      ensures Valid() && pos == old(pos) + src.Length
      ensures dst[..src.Length] == Stream(e, key0, iv0, old(pos), old(src[..]))
      ensures dst[src.Length..] == old(dst[src.Length..])
    {
      hide EcbOk, Xor, StreamByte, StateAfter, CountAfter;
      for i := 0 to src.Length
        invariant Valid() && pos == old(pos) + i
        invariant forall k :: 0 <= k < i ==> dst[k] == Xor(old(src[k]), StreamByte(e, key0, iv0, old(pos) + k))
        invariant forall k :: i <= k < dst.Length ==> dst[k] == old(dst[k])
        invariant src != dst ==> forall k :: 0 <= k < src.Length ==> src[k] == old(src[k])
      {
        var g := NextByte();
        dst[i] := Xor(src[i], g);
      }
    }
  }

  lemma Predecessor(b: nat)
    requires b > 0
    ensures (b - 1) % 128 == if b % 128 == 0 then 127 else b % 128 - 1
  {
  }

  /** The byte counter reaches the threshold exactly before the blocks that mesh. */
  lemma CountMeans(b: nat)
    ensures CountAfter(b) == MESH_THRESHOLD <==> MeshBefore(b)
    ensures CountAfter(b + 1) == (if MeshBefore(b) then 0 else CountAfter(b)) % MESH_THRESHOLD + 8
  {
    if b > 0 { Predecessor(b); }
  }
}
