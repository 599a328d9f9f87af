/** The Streebog hash object: every way of splitting a message into Write calls yields the digest
    of RFC 6986, section 8, and Sum leaves the state as it was. */
module Streebog {
  import opened ModArith
  import opened Gf256
  import opened Blocks
  import opened Kuznyechik
  import opened LittleEndian
  import opened StreebogTransform
  import opened BlockBuffer

  /** Block j of a message. */
  function BlockOf(msg: seq<Byte>, j: nat): (b: seq<Byte>)
    requires 64 * j + 64 <= |msg|
    ensures |b| == STATE
  {
    msg[64 * j..64 * j + 64]
  }

  function IV(size: nat): (h: seq<Byte>)
    ensures |h| == STATE
  {
    seq(64, _ => if size == 32 then 1 else 0)
  }

  /** The number of bits compressed in j blocks, as the counter holds it. */
  function Bits(j: nat): (n: seq<Byte>)
    ensures |n| == STATE
  {
    FromLE(512 * j, STATE)
  }

  /** The sum of the first j blocks as numbers. */
  function BlockSum(msg: seq<Byte>, j: nat): nat
    requires 64 * j <= |msg|
  {
    if j == 0 then 0 else BlockSum(msg, j - 1) + ValueLE(BlockOf(msg, j - 1))
  }

  /** The chaining value after j blocks: the counter before block i is 512 i. */
  function Chain(k: Consts, size: nat, msg: seq<Byte>, j: nat): (h: seq<Byte>)
    requires ConstsOk(k) && 64 * j <= |msg|
    ensures |h| == STATE
  {
    if j == 0 then IV(size)
    else G(k, Chain(k, size, msg, j - 1), BlockOf(msg, j - 1), Bits(j - 1))
  }

  /** The last, incomplete block: its bytes, one set bit, zeros. */
  function PadTail(tail: seq<Byte>): (m: seq<Byte>)
    requires |tail| < STATE
    ensures |m| == STATE
  {
    tail + [1] + Zeros(63 - |tail|)
  }

  /** The digest of a whole message. */
  function Digest(k: Consts, size: nat, msg: seq<Byte>): seq<Byte>
    requires ConstsOk(k)
  {
    var j := |msg| / 64;
    var m := PadTail(msg[64 * j..]);
    var h := G(k, Chain(k, size, msg, j), m, Bits(j));
    var n := FromLE(8 * |msg|, STATE);
    var sigma := FromLE(BlockSum(msg, j) + ValueLE(m), STATE);
    var out := G(k, G(k, h, n, Zeros(STATE)), sigma, Zeros(STATE));
    if size == 32 then out[32..64] else out
  }

  lemma {:induction false} ChainPrefix(k: Consts, size: nat, msg: seq<Byte>, more: seq<Byte>, j: nat)
    requires ConstsOk(k) && 64 * j <= |msg|
    ensures Chain(k, size, msg + more, j) == Chain(k, size, msg, j)
    ensures BlockSum(msg + more, j) == BlockSum(msg, j)
  {
    hide G, ValueLE;
    if j > 0 {
      ChainPrefix(k, size, msg, more, j - 1);
      assert BlockOf(msg + more, j - 1) == BlockOf(msg, j - 1);
    }
  }

  lemma LastBlock(before: seq<Byte>, blk: seq<Byte>)
    requires |before| % 64 == 0 && |blk| == STATE
    ensures |before + blk| / 64 == |before| / 64 + 1 && BlockOf(before + blk, |before| / 64) == blk
  {
    assert 64 * (|before| / 64) == |before|;
  }

  /** Counter and checksum of a new block add up modulo 2^512. */
  lemma CountersAdvance(msg: seq<Byte>, j: nat)
    requires 64 * j + 64 <= |msg|
    ensures FromLE(ValueLE(Bits(j)) + 512, STATE) == Bits(j + 1)
    ensures FromLE(ValueLE(FromLE(BlockSum(msg, j), STATE)) + ValueLE(BlockOf(msg, j)), STATE)
      == FromLE(BlockSum(msg, j + 1), STATE)
  {
    hide FromLE, ValueLE;
    LEReduced(512 * j, 512, STATE);
    LEReduced(BlockSum(msg, j), ValueLE(BlockOf(msg, j)), STATE);
  }

  /** add512. */
  method Add512(a: seq<Byte>, b: seq<Byte>) returns (r: seq<Byte>)
    requires |a| == |b| == STATE
    ensures |r| == STATE && r == FromLE(ValueLE(a) + ValueLE(b), STATE)
  {
    r := AddBytes(a, b);
  }

  /** The little-endian constants 512 and 8 nbuf. */
  lemma ValueOfSmall(v: nat)
    requires v < 0x1_0000
    ensures ValueLE(FromLE(v, STATE)) == v
  {
    hide FromLE, ValueLE, Pow;
    ValueOfLE(v, STATE);
    PowLarge();
    ModReduced(v, Pow(256, STATE));
  }

  lemma PowLarge()
    ensures Pow(256, STATE) >= 0x1_0000
  {
    assert Pow(256, 2) == 65536;
    PowAdd(256, 2, 62);
    PowPositive(256, 62);
    MulMono(1, Pow(256, 62), 65536);
  }

  /** The state before any input. */
  lemma InitialState(k: Consts, size: nat)
    requires ConstsOk(k)
    ensures Chain(k, size, [], 0) == WordsToBytes(BytesToWords(IV(size)))
    ensures Bits(0) == Zeros(64) == FromLE(BlockSum([], 0), STATE)
  {
    hide BytesToWords, WordsToBytes, IV, FromLE;
    BytesOfWords(IV(size));
    ZeroLE(STATE);
  }

  class Hasher {
    const k: Consts
    const table: seq<seq<seq<bv64>>>
    const size: nat
    var h: seq<bv64>
    var n: seq<Byte>
    var sum: seq<Byte>
    const buf: array<Byte>
    var nbuf: nat
    ghost var msg: seq<Byte>

    /** The state after the bytes msg: everything is a function of msg. */
    ghost predicate Valid()
      reads this, buf
    {
      && ConstsOk(k) && IsLpTable(k, table) && (size == 32 || size == 64) && buf.Length == STATE
      && nbuf == |msg| % 64
      && |h| == 8 && WordsToBytes(h) == Chain(k, size, msg, |msg| / 64)
      && n == Bits(|msg| / 64)
      && sum == FromLE(BlockSum(msg, |msg| / 64), STATE)
      && buf[..nbuf] == msg[|msg| - nbuf..]
    }

    /** New256 and New512: a new object, then Reset. */
    constructor (k: Consts, table: seq<seq<seq<bv64>>>, size: nat)
      requires ConstsOk(k) && IsLpTable(k, table) && (size == 32 || size == 64)
      ensures Valid() && fresh(buf) && msg == [] && this.k == k && this.size == size
    {
      hide ConstsOk, IsLpTable, Valid;
      this.k, this.table, this.size := k, table, size;
      buf := new Byte[64](_ => 0);
      h, n, sum, nbuf, msg := [], [], [], 0, [];
      new;
      Reset();
    }

    /** Reset. */
    method Reset()
      requires ConstsOk(k) && IsLpTable(k, table) && (size == 32 || size == 64) && buf.Length == STATE
      modifies this, buf
      ensures Valid() && msg == []
    {
      hide ConstsOk, IsLpTable, BytesToWords, IV, Zeros, Valid;
      forall i | 0 <= i < 64 { buf[i] := 0; }
      h, n, sum, nbuf, msg := BytesToWords(IV(size)), Zeros(64), Zeros(64), 0, [];
      StartIsValid();
    }

    lemma StartIsValid()
      requires ConstsOk(k) && IsLpTable(k, table) && (size == 32 || size == 64) && buf.Length == STATE
      requires h == BytesToWords(IV(size)) && n == sum == Zeros(64) && nbuf == 0 && msg == []
      ensures Valid()
    {
      hide ConstsOk, IsLpTable, BytesToWords, WordsToBytes, Chain, BlockSum, Bits, FromLE, IV, Zeros;
      InitialState(k, size);
    }

    /** compress: one full block, at a block boundary of the message. */
    method Compress(blk: seq<Byte>, ghost before: seq<Byte>)
      requires ConstsOk(k) && IsLpTable(k, table) && |blk| == STATE && |before| % 64 == 0
      requires |h| == 8 && WordsToBytes(h) == Chain(k, size, before, |before| / 64)
      requires n == Bits(|before| / 64) && sum == FromLE(BlockSum(before, |before| / 64), STATE)
      modifies `h, `n, `sum
      ensures
        var after := before + blk;
        && |h| == 8 && WordsToBytes(h) == Chain(k, size, after, |after| / 64)
        && n == Bits(|after| / 64) && sum == FromLE(BlockSum(after, |after| / 64), STATE)
    {
      hide ConstsOk, IsLpTable, BytesToWords, WordsToBytes, G, FromLE, ValueLE;
      ghost var after, j := before + blk, |before| / 64;
      LastBlock(before, blk);
      ChainPrefix(k, size, before, blk, j);
      CountersAdvance(after, j);
      BytesOfWords(blk);
      BytesOfWords(n);
      h := GWords(k, table, h, BytesToWords(blk), BytesToWords(n));
      ValueOfSmall(512);
      n := Add512(n, FromLE(512, STATE));
      sum := Add512(sum, blk);
    }

    /** Write: the bytes join the message, whatever the buffer held. */
    method Write(p0: seq<Byte>)
      requires Valid()
      modifies this, buf
      ensures Valid() && msg == old(msg) + p0
    {
      hide Valid, ConstsOk, IsLpTable;
      var p := p0;
      NbufBelow();
      if nbuf > 0 {
        var c := if 64 - nbuf < |p| then 64 - nbuf else |p|;
        FillBuffer(p[..c]);
        p := p[c..];
      }
      assert nbuf == 0 || p == [];
      assert msg + p == old(msg) + p0;
      if |p| > 0 {
        p := WriteBlocks(p);
        if |p| > 0 {
          StoreTail(p);
        }
      }
    }

    lemma NbufBelow()
      requires Valid()
      ensures nbuf < 64 && buf.Length == STATE
    {
    }

    /** The middle part of Write: whole blocks straight from the input. */
    method WriteBlocks(p0: seq<Byte>) returns (p: seq<Byte>)
      requires Valid() && nbuf == 0
      modifies `h, `n, `sum, `msg
      ensures Valid() && nbuf == 0 && |p| < 64 && msg + p == old(msg) + p0
    {
      hide ConstsOk, IsLpTable, WordsToBytes, Chain, BlockSum, FromLE, Bits;
      p := p0;
      while |p| >= 64
        invariant nbuf == 0 && Valid()
        invariant msg + p == old(msg) + p0
        decreases |p|
      {
        ghost var m0 := msg;
        Compress(p[..64], m0);
        msg := m0 + p[..64];
        assert m0 + p == msg + p[64..] by { assert p == p[..64] + p[64..]; }
        p := p[64..];
      }
    }

    /** The first part of Write: bytes join a buffer that already holds some, and a full buffer
        is compressed. */
    method FillBuffer(q: seq<Byte>)
      requires Valid() && 0 < nbuf && nbuf + |q| <= 64
      modifies this, buf
      ensures Valid() && msg == old(msg) + q
      ensures nbuf == 0 || nbuf == old(nbuf) + |q|
      ensures old(nbuf) + |q| == 64 ==> nbuf == 0
    {
      hide ConstsOk, IsLpTable, WordsToBytes, Chain, BlockSum, FromLE, Bits;
      var n0 := nbuf;
      ghost var m0 := msg;
      ghost var held := buf[..nbuf];
      CopyInto(buf, n0, q);
      nbuf := nbuf + |q|;
      ghost var before := m0[..|m0| - n0];
      FillFacts(64, m0, n0, q);
      ChainPrefix(k, size, before, held, |before| / 64);
      if nbuf == 64 {
        assert buf[..] == held + q;
        Compress(buf[..], before);
        nbuf := 0;
        msg := m0 + q;
        assert msg[|msg|..] == [];
      } else {
        msg := m0 + q;
        ChainPrefix(k, size, before, held + q, |before| / 64);
      }
    }

    /** The last part of Write: what is left goes to the empty buffer. */
    method StoreTail(p: seq<Byte>)
      requires Valid() && nbuf == 0 && 0 < |p| < 64
      modifies this, buf
      ensures Valid() && msg == old(msg) + p && nbuf == |p|
    {
      hide ConstsOk, IsLpTable, WordsToBytes, Chain, BlockSum, FromLE, Bits;
      ghost var m0 := msg;
      forall i | 0 <= i < |p| { buf[i] := p[i]; }
      nbuf := |p|;
      msg := m0 + p;
      ChainPrefix(k, size, m0, p, |m0| / 64);
      assert buf[..nbuf] == p;
      assert msg[|msg| - nbuf..] == p;
      assert |msg| / 64 == |m0| / 64 && |msg| % 64 == |p|;
    }

    /** Sum: the digest of everything written, appended; nothing is modified. */
    method Sum(prefix: seq<Byte>) returns (out: seq<Byte>)
      requires Valid()
      ensures out == prefix + Digest(k, size, msg)
    {
      hide ConstsOk, IsLpTable, WordsToBytes, BytesToWords, Chain, BlockSum, FromLE, ValueLE, G, Index, ToByte;
      ghost var j := |msg| / 64;
      var m := buf[..nbuf] + [1] + Zeros(63 - nbuf);
      assert msg[64 * j..] == buf[..nbuf] by { assert |msg| - nbuf == 64 * j; }
      assert m == PadTail(msg[64 * j..]);
      BytesOfWords(m);
      BytesOfWords(n);
      var hh := GWords(k, table, h, BytesToWords(m), BytesToWords(n));
      ValueOfSmall(8 * nbuf);
      LEReduced(512 * j, 8 * nbuf, STATE);
      var nn := Add512(n, FromLE(8 * nbuf, STATE));
      assert 512 * j + 8 * nbuf == 8 * |msg|;
      LEReduced(BlockSum(msg, j), ValueLE(m), STATE);
      var ss := Add512(sum, m);
      ZeroWords();
      BytesOfWords(nn);
      BytesOfWords(ss);
      var zero: seq<bv64> := seq(8, _ => 0);
      hh := GWords(k, table, hh, BytesToWords(nn), zero);
      hh := GWords(k, table, hh, BytesToWords(ss), zero);
      var bytes := WordsToBytes(hh);
      out := prefix + (if size == 32 then bytes[32..64] else bytes);
    }
  }

  /** Two objects that were given one message in any pieces hold one state. */
  lemma StateDetermined(a: Hasher, b: Hasher)
    requires a.Valid() && b.Valid() && a.k == b.k && a.size == b.size && a.msg == b.msg
    ensures WordsToBytes(a.h) == WordsToBytes(b.h) && a.n == b.n && a.sum == b.sum
    ensures a.nbuf == b.nbuf && a.buf[..a.nbuf] == b.buf[..b.nbuf]
  {
    hide WordsToBytes, Chain, BlockSum, FromLE;
  }
}
