/** GOST R 34.11-94 (RFC 5831): the compression function over any 64-bit block cipher, and the
    hash object whose digest depends only on the concatenated input. */
module Gostr341194 {
  import opened ModArith
  import opened Gf256
  import opened Blocks
  import opened Kuznyechik
  import opened LittleEndian
  import opened BlockBuffer

  const HASH_BLOCK: nat := 32
  const WORD64: nat := 0x1_0000_0000_0000_0000

  /** The inner cipher: 32-byte key, 8-byte block. */
  type Inner = (seq<Byte>, seq<Byte>) -> seq<Byte>

  ghost predicate InnerOk(e: Inner) { forall key, x :: |e(key, x)| == 8 }

  type Block32 = b: seq<Byte> | |b| == HASH_BLOCK witness Zeros(HASH_BLOCK)

  // ---- the compression function (section 5 of RFC 5831) ----

  /** A: the words x1, x2, x3, x4 become x2, x3, x4, x1 + x2. */
  function FA(x: Block32): Block32
  {
    x[8..32] + XorSeq(x[0..8], x[8..16])
  }

  /** P: output byte j comes from input byte phi(j), phi(i + 1 + 4(k - 1)) = 8 i + k. */
  function FP(x: Block32): Block32
  {
    seq(32, j requires 0 <= j < 32 => x[8 * (j % 4) + j / 4])
  }

  /** Psi: sixteen 16-bit words move down one place, and the sum of six of them enters on top. */
  function FPsi(x: Block32): Block32
  {
    x[2..32] + [PsiFold(x, 0), PsiFold(x, 1)]
  }

  /** Byte b of the sum of words 1, 2, 3, 4, 13 and 16. */
  function PsiFold(x: Block32, b: nat): Byte
    requires b < 2
  {
    Xor(Xor(Xor(Xor(Xor(x[b], x[2 + b]), x[4 + b]), x[6 + b]), x[24 + b]), x[30 + b])
  }

  function FPsiN(x: Block32, n: nat): Block32 { if n == 0 then x else FPsi(FPsiN(x, n - 1)) }

  /** C3, least significant byte first. */
  const C3: seq<Byte> := [0, 0xFF, 0, 0xFF, 0, 0xFF, 0, 0xFF, 0xFF, 0, 0xFF, 0, 0xFF, 0, 0xFF, 0,
                          0, 0xFF, 0xFF, 0, 0xFF, 0, 0, 0xFF, 0xFF, 0, 0, 0, 0xFF, 0xFF, 0, 0xFF]

  /** The u and v of key generation after i steps; C2 and C4 are zero. */
  function KeyWords(m: Block32, h: Block32, i: nat): (Block32, Block32)
    requires i <= 3
  {
    if i == 0 then (h, m)
    else
      var (u, v) := KeyWords(m, h, i - 1);
      (if i == 2 then XorSeq(FA(u), C3) else FA(u), FA(FA(v)))
  }

  /** Key i of four. */
  function KeyOf(m: Block32, h: Block32, i: nat): Block32
    requires i <= 3
  {
    var (u, v) := KeyWords(m, h, i);
    FP(XorSeq(u, v))
  }

  function EncryptH(e: Inner, m: Block32, h: Block32): Block32
    requires InnerOk(e)
  {
    var low := e(KeyOf(m, h, 0), h[0..8]) + e(KeyOf(m, h, 1), h[8..16]);
    var high := e(KeyOf(m, h, 2), h[16..24]) + e(KeyOf(m, h, 3), h[24..32]);
    assert |low| == 16 && |high| == 16;
    low + high
  }

  function Chi(e: Inner, m: Block32, h: Block32): Block32
    requires InnerOk(e)
  {
    FPsiN(XorSeq(h, FPsi(XorSeq(m, FPsiN(EncryptH(e, m, h), 12)))), 61)
  }

  /** P moves every byte to a place of its own: nothing of the key material is lost. */
  lemma PIsPermutation(x: Block32, i: nat)
    requires i < 32
    ensures x[i] == FP(x)[4 * (i % 8) + i / 8]
  {
    var j := 4 * (i % 8) + i / 8;
    assert j % 4 == i / 8 && j / 4 == i % 8;
  }

  /** Psi loses nothing: the word that falls off is recovered from the sum on top. */
  lemma PsiInjective(x: Block32, y: Block32)
    requires FPsi(x) == FPsi(y)
    ensures x == y
  {
    hide Xor, FPsi, PsiRest;
    forall i | 2 <= i < 32 ensures x[i] == y[i] {
      PsiBytes(x, i);
      PsiBytes(y, i);
    }
    forall b | 0 <= b < 2 ensures x[b] == y[b] {
      PsiTop(x, b);
      PsiTop(y, b);
      SameRest(x, y, b);
      XorCancel(PsiRest(x, b), x[b]);
      XorCancel(PsiRest(x, b), y[b]);
    }
  }

  /** The five words summed onto the lowest. */
  function PsiRest(x: Block32, b: nat): Byte
    requires b < 2
  {
    Xor(Xor(Xor(x[2 + b], x[4 + b]), Xor(x[6 + b], x[24 + b])), x[30 + b])
  }

  lemma SameRest(x: Block32, y: Block32, b: nat)
    requires b < 2 && forall i :: 2 <= i < 32 ==> x[i] == y[i]
    ensures PsiRest(x, b) == PsiRest(y, b)
  {
    hide Xor;
  }

  lemma PsiBytes(x: Block32, i: nat)
    requires 2 <= i < 32
    ensures FPsi(x)[i - 2] == x[i]
  {
    hide PsiFold;
  }

  lemma PsiTop(x: Block32, b: nat)
    requires b < 2
    ensures FPsi(x)[30 + b] == Xor(x[b], PsiRest(x, b))
  {
    hide Xor, PsiFold, PsiRest;
    assert FPsi(x)[30 + b] == PsiFold(x, b);
    PsiFoldLast(x, b);
  }

  lemma PsiFoldLast(x: Block32, b: nat)
    requires b < 2
    ensures PsiFold(x, b) == Xor(x[b], PsiRest(x, b))
  {
    hide Xor;
    FoldLast(x[b], x[2 + b], x[4 + b], x[6 + b], x[24 + b], x[30 + b]);
  }

  lemma FoldLast(a: Byte, b: Byte, c: Byte, d: Byte, f: Byte, g: Byte)
    ensures Xor(Xor(Xor(Xor(Xor(a, b), c), d), f), g) == Xor(a, Xor(Xor(Xor(b, c), Xor(d, f)), g))
  {
    hide Xor;
    XorAssoc(a, b, c);
    XorAssoc(a, Xor(b, c), d);
    XorAssoc(a, Xor(Xor(b, c), d), f);
    XorAssoc(Xor(b, c), d, f);
    XorAssoc(a, Xor(Xor(b, c), Xor(d, f)), g);
  }

  // ---- the digest of a whole message (section 6 of RFC 5831) ----

  function BlockOf(msg: seq<Byte>, j: nat): Block32
    requires 32 * j + 32 <= |msg|
  {
    msg[32 * j..32 * j + 32]
  }

  /** The sum of the first j blocks as numbers. */
  function BlockSum(msg: seq<Byte>, j: nat): nat
    requires 32 * j <= |msg|
  {
    if j == 0 then 0 else BlockSum(msg, j - 1) + ValueLE(BlockOf(msg, j - 1))
  }

  function Chain(e: Inner, msg: seq<Byte>, j: nat): Block32
    requires InnerOk(e) && 32 * j <= |msg|
  {
    if j == 0 then Zeros(HASH_BLOCK) else Chi(e, BlockOf(msg, j - 1), Chain(e, msg, j - 1))
  }

  /** The last fragment, zero-filled above. */
  function PadTail(tail: seq<Byte>): Block32
    requires |tail| < HASH_BLOCK
  {
    tail + Zeros(32 - |tail|)
  }

  /** A zero block is compressed before the length when no fragment is pending and the 64-bit
      length counter reads zero. */
  predicate ExtraBlock(len: nat) { len % 32 == 0 && 8 * len % WORD64 == 0 }

  /** The bytes after the last full block. */
  function Tail(msg: seq<Byte>): (t: seq<Byte>)
    ensures |t| < HASH_BLOCK && |t| == |msg| % 32
  {
    msg[|msg| / 32 * 32..]
  }

  /** The chaining value once the tail, or the extra block, is in. */
  function AfterTail(e: Inner, msg: seq<Byte>): Block32
    requires InnerOk(e)
  {
    var h := Chain(e, msg, |msg| / 32);
    if |Tail(msg)| > 0 then Chi(e, PadTail(Tail(msg)), h)
    else if ExtraBlock(|msg|) then Chi(e, Zeros(32), h)
    else h
  }

  /** The sum of all blocks modulo 2^256. */
  function Checksum(msg: seq<Byte>): Block32
  {
    FromLE(BlockSum(msg, |msg| / 32) + (if |Tail(msg)| > 0 then ValueLE(PadTail(Tail(msg))) else 0), 32)
  }

  /** The bit length modulo 2^64. */
  function LengthBlock(len: nat): Block32 { FromLE(8 * len % WORD64, 8) + Zeros(24) }

  /** The digest of a whole message. */
  function Digest(e: Inner, msg: seq<Byte>): Block32
    requires InnerOk(e)
  {
    Chi(e, Checksum(msg), Chi(e, LengthBlock(|msg|), AfterTail(e, msg)))
  }

  /** The extra block marks the empty message, and beyond that only lengths that wrap the counter. */
  lemma ExtraBlockExactly(len: nat)
    ensures ExtraBlock(len) <==> len % 0x2000_0000_0000_0000 == 0
    ensures len < 0x2000_0000_0000_0000 ==> (ExtraBlock(len) <==> len == 0)
  {
    var w := 0x2000_0000_0000_0000;
    DivMod(len, w);
    ModUnique(8 * len, WORD64, len / w, 8 * (len % w));
  }

  lemma {:induction false} ChainPrefix(e: Inner, msg: seq<Byte>, more: seq<Byte>, j: nat)
    requires InnerOk(e) && 32 * j <= |msg|
    ensures Chain(e, msg + more, j) == Chain(e, msg, j)
    ensures BlockSum(msg + more, j) == BlockSum(msg, j)
  {
    hide Chi, ValueLE;
    if j > 0 {
      ChainPrefix(e, msg, more, j - 1);
      assert BlockOf(msg + more, j - 1) == BlockOf(msg, j - 1);
    }
  }

  lemma LastBlock(before: seq<Byte>, m: seq<Byte>)
    requires |before| % 32 == 0 && |m| == 32
    ensures |before + m| / 32 == |before| / 32 + 1 && BlockOf(before + m, |before| / 32) == m
  {
    assert 32 * (|before| / 32) == |before|;
  }

  /** Checksum and length of a new block. */
  lemma CountersAdvance(msg: seq<Byte>, j: nat)
    requires 32 * j + 32 <= |msg|
    ensures FromLE(ValueLE(FromLE(BlockSum(msg, j), 32)) + ValueLE(BlockOf(msg, j)), 32)
      == FromLE(BlockSum(msg, j + 1), 32)
    ensures (256 * j % WORD64 + 256) % WORD64 == 256 * (j + 1) % WORD64
  {
    hide FromLE, ValueLE;
    LEReduced(BlockSum(msg, j), ValueLE(BlockOf(msg, j)), 32);
    WrapAdd(256 * j, 256);
  }

  lemma WrapAdd(a: nat, b: nat)
    ensures (a % WORD64 + b) % WORD64 == (a + b) % WORD64
  {
  }

  class Hasher {
    const e: Inner
    var h: Block32
    var sum: Block32
    var len: nat
    const buf: array<Byte>
    var nbuf: nat
    ghost var msg: seq<Byte>

    /** The state after the bytes msg. */
    ghost predicate Valid()
      reads this, buf
    {
      && InnerOk(e) && buf.Length == HASH_BLOCK && nbuf == |msg| % 32
      && h == Chain(e, msg, |msg| / 32)
      && sum == FromLE(BlockSum(msg, |msg| / 32), 32)
      && len == 256 * (|msg| / 32) % WORD64
      && buf[..nbuf] == msg[|msg| - nbuf..]
    }

    constructor (e: Inner)
      requires InnerOk(e)
      ensures Valid() && fresh(buf) && msg == [] && this.e == e
    {
      hide InnerOk, Valid;
      this.e := e;
      buf := new Byte[32](_ => 0);
      h, sum, len, nbuf, msg := Zeros(32), Zeros(32), 0, 0, [];
      new;
      Reset();
    }

    /** Reset. */
    method Reset()
      requires InnerOk(e) && buf.Length == HASH_BLOCK
      modifies this, buf
      ensures Valid() && msg == []
    {
      hide InnerOk, Chi, FromLE;
      forall i | 0 <= i < 32 { buf[i] := 0; }
      h, sum, len, nbuf, msg := Zeros(32), Zeros(32), 0, 0, [];
      ZeroLE(32);
    }

    /** processBlock: one full block, at a block boundary of the message. */
    method ProcessBlock(m: seq<Byte>, ghost before: seq<Byte>)
      requires InnerOk(e) && |m| == 32 && |before| % 32 == 0
      requires h == Chain(e, before, |before| / 32) && sum == FromLE(BlockSum(before, |before| / 32), 32)
      requires len == 256 * (|before| / 32) % WORD64
      modifies `h, `sum, `len
      ensures
        var after := before + m;
        && h == Chain(e, after, |after| / 32) && sum == FromLE(BlockSum(after, |after| / 32), 32)
        && len == 256 * (|after| / 32) % WORD64
    {
      hide Chi, FromLE, ValueLE;
      ghost var after, j := before + m, |before| / 32;
      LastBlock(before, m);
      ChainPrefix(e, before, m, j);
      CountersAdvance(after, j);
      h := Chi(e, m, h);
      len := (len + 256) % WORD64;
      sum := AddBytes(sum, m);
    }

    lemma NbufBelow()
      requires Valid()
      ensures nbuf < 32 && buf.Length == HASH_BLOCK
    {
    }

    /** Write: the bytes join the message, whatever the buffer held. */
    method Write(p0: seq<Byte>)
      requires Valid()
      modifies this, buf
      ensures Valid() && msg == old(msg) + p0
    {
      hide Valid;
      var p := p0;
      NbufBelow();
      if nbuf > 0 {
        var take := if 32 - nbuf < |p| then 32 - nbuf else |p|;
        FillBuffer(p[..take]);
        p := p[take..];
      }
      assert nbuf == 0 || p == [];
      assert msg + p == old(msg) + p0;
      if |p| > 0 {
        p := WriteBlocks(p);
        if |p| > 0 {
          StoreTail(p);
        }
      }
    }

    /** The middle part of Write: whole blocks straight from the input. */
    method WriteBlocks(p0: seq<Byte>) returns (p: seq<Byte>)
      requires Valid() && nbuf == 0
      modifies `h, `sum, `len, `msg
      ensures Valid() && nbuf == 0 && |p| < 32 && msg + p == old(msg) + p0
    {
      hide Valid;
      p := p0;
      while |p| >= 32
        invariant nbuf == 0 && Valid()
        invariant msg + p == old(msg) + p0
        decreases |p|
      {
        ghost var m0 := msg;
        WriteBlock(p[..32]);
        assert m0 + p == msg + p[32..] by { assert p == p[..32] + p[32..]; }
        p := p[32..];
      }
    }

    method WriteBlock(blk: seq<Byte>)
      requires Valid() && nbuf == 0 && |blk| == 32
      modifies `h, `sum, `len, `msg
      ensures Valid() && nbuf == 0 && msg == old(msg) + blk
    {
      hide InnerOk, Chain, BlockSum, FromLE;
      ghost var m0 := msg;
      ProcessBlock(blk, m0);
      msg := m0 + blk;
      assert |msg| % 32 == 0 && buf[..0] == [] == msg[|msg|..];
    }

    /** The first part of Write: bytes join a buffer that already holds some, and a full buffer
        is processed. */
    method FillBuffer(q: seq<Byte>)
      requires Valid() && 0 < nbuf && nbuf + |q| <= 32
      modifies this, buf
      ensures Valid() && msg == old(msg) + q
      ensures nbuf == 0 || nbuf == old(nbuf) + |q|
      ensures old(nbuf) + |q| == 32 ==> nbuf == 0
    {
      hide InnerOk, Chain, BlockSum, FromLE;
      var n0 := nbuf;
      ghost var m0 := msg;
      ghost var held := buf[..nbuf];
      CopyInto(buf, n0, q);
      nbuf := nbuf + |q|;
      ghost var before := m0[..|m0| - n0];
      FillFacts(32, m0, n0, q);
      ChainPrefix(e, before, held, |before| / 32);
      if nbuf == 32 {
        assert buf[..] == held + q;
        ProcessBlock(buf[..], before);
        nbuf := 0;
        msg := m0 + q;
        assert msg[|msg|..] == [];
      } else {
        msg := m0 + q;
        ChainPrefix(e, before, held + q, |before| / 32);
      }
    }

    /** The last part of Write: what is left goes to the empty buffer. */
    method StoreTail(p: seq<Byte>)
      requires Valid() && nbuf == 0 && 0 < |p| < 32
      modifies this, buf
      ensures Valid() && msg == old(msg) + p && nbuf == |p|
    {
      hide Chain, BlockSum, FromLE;
      ghost var m0 := msg;
      forall i | 0 <= i < |p| { buf[i] := p[i]; }
      nbuf := |p|;
      msg := m0 + p;
      ChainPrefix(e, m0, p, |m0| / 32);
      assert buf[..nbuf] == p;
      assert msg[|msg| - nbuf..] == p;
      assert |msg| / 32 == |m0| / 32 && |msg| % 32 == |p|;
    }

    /** Sum: the digest of everything written, appended; nothing is modified. */
    method Sum(prefix: seq<Byte>) returns (out: seq<Byte>)
      requires Valid()
      ensures out == prefix + Digest(e, msg)
    {
      hide Chain, BlockSum, FromLE, ValueLE, Chi;
      ghost var j := |msg| / 32;
      var hh, ss, totalBits := h, sum, len;
      assert Tail(msg) == buf[..nbuf] by { assert |msg| - nbuf == 32 * j; }
      WrapAdd(256 * j, 8 * nbuf);
      assert 256 * j + 8 * nbuf == 8 * |msg|;
      if nbuf > 0 {
        var m := buf[..nbuf] + Zeros(32 - nbuf);
        totalBits := (totalBits + 8 * nbuf) % WORD64;
        hh := Chi(e, m, hh);
        LEReduced(BlockSum(msg, j), ValueLE(m), 32);
        ss := AddBytes(ss, m);
      } else if totalBits == 0 {
        hh := Chi(e, Zeros(32), hh);
      }
      hh := Chi(e, FromLE(totalBits, 8) + Zeros(24), hh);
      hh := Chi(e, ss, hh);
      out := prefix + hh;
    }
  }

  /** Two objects that were given one message in any pieces hold one state. */
  lemma StateDetermined(a: Hasher, b: Hasher)
    requires a.Valid() && b.Valid() && a.e == b.e && a.msg == b.msg
    ensures a.h == b.h && a.sum == b.sum && a.len == b.len
    ensures a.nbuf == b.nbuf && a.buf[..a.nbuf] == b.buf[..b.nbuf]
  {
    hide Chain, BlockSum, FromLE;
  }
}
