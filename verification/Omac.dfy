/** omac.go: CMAC over any block function with 8- or 16-byte blocks (RFC 4493, section 2.4). The
    subkeys are products by w in the field MGM uses too. */
module Omac {
  import opened Gf256
  import opened Blocks
  import opened BinaryPoly
  import opened MgmField

  /** Block size and the block cipher under the key in use. */
  datatype Prf = Prf(n: nat, enc: seq<Byte> -> seq<Byte>)

  ghost predicate PrfOk(c: Prf)
  {
    (c.n == 8 || c.n == 16) && forall x :: |c.enc(x)| == c.n
  }

  // ---- subkeys ----

  function K1(c: Prf): (k: seq<Byte>)
    requires PrfOk(c)
    ensures |k| == c.n
  {
    TimesW(c.enc(Zeros(c.n)))
  }

  function K2(c: Prf): (k: seq<Byte>)
    requires PrfOk(c)
    ensures |k| == c.n
  {
    TimesW(K1(c))
  }

  /** K1 = L w and K2 = L w^2 in the field, L the encryption of the zero block. */
  lemma SubkeysAreProducts(c: Prf)
    requires PrfOk(c)
    ensures
      var l, f := BlockPoly(c.enc(Zeros(c.n))), FieldPoly(c.n);
      Congruent(BlockPoly(K1(c)), Up(l), f) && Congruent(BlockPoly(K2(c)), Up(Up(l)), f)
  {
    hide TimesW, BlockPoly, FieldPoly, Congruent, Up;
    var l, f := c.enc(Zeros(c.n)), FieldPoly(c.n);
    TimesWPoly(l);
    TimesWPoly(K1(c));
    CongruentUp(BlockPoly(K1(c)), Up(BlockPoly(l)), f);
    CongruentTrans(BlockPoly(K2(c)), Up(BlockPoly(K1(c))), Up(Up(BlockPoly(l))), f);
  }

  // ---- the tag of a whole message ----

  /** The last block as it enters the chain: whole blocks take K1; shorter ones, and the empty
      message, are padded with 0x80 and zeros and take K2. */
  function LastBlock(c: Prf, tail: seq<Byte>): (b: seq<Byte>)
    requires PrfOk(c) && |tail| <= c.n
    ensures |b| == c.n
  {
    if |tail| == c.n then XorSeq(tail, K1(c))
    else XorSeq(tail + [0x80] + Zeros(c.n - |tail| - 1), K2(c))
  }

  /** The chain from state over msg: a block is consumed only when more bytes follow it. */
  function ChainFrom(c: Prf, state: seq<Byte>, msg: seq<Byte>): (t: seq<Byte>)
    requires PrfOk(c) && |state| == c.n
    ensures |t| == c.n
    decreases |msg|
  {
    if |msg| <= c.n then c.enc(XorSeq(state, LastBlock(c, msg)))
    else ChainFrom(c, c.enc(XorSeq(state, msg[..c.n])), msg[c.n..])
  }

  function Tag(c: Prf, tagSize: nat, msg: seq<Byte>): (t: seq<Byte>)
    requires PrfOk(c) && tagSize <= c.n
    ensures |t| == tagSize
  {
    ChainFrom(c, Zeros(c.n), msg)[..tagSize]
  }

  /** shiftLeftXorRb: a forward pass over the bytes, each taking the top bit of the next. */
  method ShiftLeftXorRb(inp: seq<Byte>, rb: Byte) returns (out: seq<Byte>)
    requires (|inp| == 8 || |inp| == 16) && rb == Reduction(|inp|)
    ensures out == TimesW(inp)
  {
    hide ShlCarry, CarryOut, Reduction, Xor;
    var n := |inp|;
    out := [];
    for i := 0 to n - 1
      invariant out == ShiftedLeft(inp)[..i]
    {
      assert ShiftedLeft(inp)[i] == ShlCarry(inp[i], CarryOut(inp[i + 1]));
      assert ShiftedLeft(inp)[..i + 1] == ShiftedLeft(inp)[..i] + [ShiftedLeft(inp)[i]];
      out := out + [ShlCarry(inp[i], CarryOut(inp[i + 1]))];
    }
    out := out + [ShlCarry(inp[n - 1], 0)];
    assert out == ShiftedLeft(inp);
    CarryIsTop(inp[0]);
    if CarryOut(inp[0]) == 1 {
      LastByteXor(out, rb);
      out := out[n - 1 := Xor(out[n - 1], rb)];
    }
  }

  // ---- the object ----

  /** state and buf stand for the message so far: whatever follows, the tag is reached from them.
      While the buffer is empty this holds only for something that does follow. */
  ghost predicate Represents(c: Prf, state: seq<Byte>, buf: seq<Byte>, msg: seq<Byte>)
    requires PrfOk(c) && |state| == c.n
  {
    forall rest :: (buf == [] && msg != [] ==> rest != []) ==>
      ChainFrom(c, Zeros(c.n), msg + rest) == ChainFrom(c, state, buf + rest)
  }

  class OMAC {
    const c: Prf
    const tagSize: nat
    const k1: seq<Byte>
    const k2: seq<Byte>
    var state: seq<Byte>
    var buf: seq<Byte>
    ghost var msg: seq<Byte>

    ghost predicate Shape()
      reads this
    {
      && PrfOk(c) && 1 <= tagSize <= c.n && k1 == K1(c) && k2 == K2(c)
      && |state| == c.n && |buf| <= c.n && |buf| <= |msg| && Represents(c, state, buf, msg)
    }

    /** Between calls a non-empty message leaves at least one byte in the buffer. */
    ghost predicate Valid()
      reads this
    {
      Shape() && (msg != [] ==> buf != [])
    }

    /** New. */
    constructor (c: Prf, tagSize: nat)
      requires PrfOk(c) && 1 <= tagSize <= c.n
      ensures Valid() && msg == [] && this.c == c && this.tagSize == tagSize
    {
      hide ChainFrom, TimesW;
      this.c, this.tagSize := c, tagSize;
      var rb := Reduction(c.n);
      var l := c.enc(Zeros(c.n));
      var a := ShiftLeftXorRb(l, rb);
      var b := ShiftLeftXorRb(a, rb);
      k1, k2 := a, b;
      state, buf, msg := Zeros(c.n), [], [];
    }

    /** cbcStep on the full buffer, when more data follows. */
    method CbcStep()
      requires Shape() && |buf| == c.n
      modifies `state, `buf
      ensures Shape() && buf == []
    {
      hide K1, K2, XorSeq;
      ghost var s0, b0 := state, buf;
      state := c.enc(XorSeq(state, buf));
      buf := [];
      forall rest: seq<Byte> | rest != []
        ensures ChainFrom(c, Zeros(c.n), msg + rest) == ChainFrom(c, state, [] + rest)
      {
        StepChain(c, s0, b0, rest);
        assert [] + rest == rest;
      }
    }

    /** Bytes appended to a buffer that has room. */
    method Fill(q: seq<Byte>)
      requires Shape() && |buf| + |q| <= c.n && q != []
      modifies `buf, `msg
      ensures Shape() && msg == old(msg) + q && buf == old(buf) + q
    {
      hide ChainFrom, K1, K2;
      ghost var m0, b0 := msg, buf;
      buf := buf + q;
      msg := msg + q;
      forall rest: seq<Byte>
        ensures ChainFrom(c, Zeros(c.n), msg + rest) == ChainFrom(c, state, buf + rest)
      {
        assert m0 + (q + rest) == msg + rest && b0 + (q + rest) == buf + rest;
        assert q + rest != [];
      }
    }

    /** Write: the bytes join the message; a full block is chained only when more follows. */
    method Write(p0: seq<Byte>)
      requires Valid()
      modifies this
      ensures Valid() && msg == old(msg) + p0
    {
      hide Represents;
      var p := p0;
      while |p| > 0
        invariant Shape() && msg + p == old(msg) + p0
        invariant p == [] ==> Valid()
        decreases |p|, |buf|
      {
        if |buf| < c.n {
          var want := if c.n - |buf| < |p| then c.n - |buf| else |p|;
          ghost var m0 := msg;
          Fill(p[..want]);
          assert m0 + p == (m0 + p[..want]) + p[want..] by { assert p == p[..want] + p[want..]; }
          p := p[want..];
        }
        if |buf| == c.n && |p| > 0 {
          CbcStep();
        }
      }
    }

    /** Sum: the tag of everything written, appended; nothing is modified. */
    method Sum(prefix: seq<Byte>) returns (t: seq<Byte>)
      requires Valid()
      ensures t == prefix + Tag(c, tagSize, msg)
    {
      hide K1, K2, ChainFrom, Represents;
      var last: seq<Byte>;
      if |buf| == c.n {
        last := XorSeq(buf, k1);
      } else {
        last := XorSeq(buf + [0x80] + Zeros(c.n - |buf| - 1), k2);
      }
      var full := c.enc(XorSeq(state, last));
      NothingFollows(c, state, buf, msg);
      t := prefix + full[..tagSize];
    }
  }

  /** The tag once no more data follows: one encryption of the last block. */
  lemma NothingFollows(c: Prf, state: seq<Byte>, buf: seq<Byte>, msg: seq<Byte>)
    requires PrfOk(c) && |state| == c.n && |buf| <= c.n && Represents(c, state, buf, msg) && (msg != [] ==> buf != [])
    ensures ChainFrom(c, Zeros(c.n), msg) == c.enc(XorSeq(state, LastBlock(c, buf)))
  {
    hide LastBlock, XorSeq;
    var rest: seq<Byte> := [];
    assert ChainFrom(c, Zeros(c.n), msg + rest) == ChainFrom(c, state, buf + rest);
    assert msg + rest == msg && buf + rest == buf;
  }

  lemma StepChain(c: Prf, state: seq<Byte>, b: seq<Byte>, rest: seq<Byte>)
    requires PrfOk(c) && |state| == c.n && |b| == c.n && rest != []
    ensures ChainFrom(c, state, b + rest) == ChainFrom(c, c.enc(XorSeq(state, b)), rest)
  {
    hide LastBlock, XorSeq;
    assert (b + rest)[..c.n] == b && (b + rest)[c.n..] == rest;
  }
}
