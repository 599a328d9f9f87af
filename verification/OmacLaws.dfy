/** The tag as section 2.4 of RFC 4493 describes it: chained blocks, the last of them whole under the
    product of E(0) by w or padded under the product by w². */
module OmacLaws {
  import opened Gf256
  import opened Blocks
  import opened BinaryPoly
  import opened MgmField
  import opened Omac

  /** k1 and k2 are E(0) times w and w² in the field. */
  ghost predicate Subkeys(c: Prf, k1: seq<Byte>, k2: seq<Byte>)
    requires PrfOk(c)
  {
    var l, f := BlockPoly(c.enc(Zeros(c.n))), FieldPoly(c.n);
    && |k1| == |k2| == c.n
    && Congruent(BlockPoly(k1), Up(l), f) && Congruent(BlockPoly(k2), Up(Up(l)), f)
  }

  lemma SubkeysAre(c: Prf, k1: seq<Byte>, k2: seq<Byte>)
    requires PrfOk(c) && Subkeys(c, k1, k2)
    ensures k1 == K1(c) && k2 == K2(c)
  {
    hide K1, K2, BlockPoly, Congruent, FieldPoly, Up;
    var l, f := BlockPoly(c.enc(Zeros(c.n))), FieldPoly(c.n);
    SubkeysAreProducts(c);
    SameBlock(k1, K1(c), Up(l));
    SameBlock(k2, K2(c), Up(Up(l)));
  }

  /** A block is determined by its residue. */
  lemma SameBlock(a: seq<Byte>, b: seq<Byte>, p: Poly)
    requires |a| == |b| && (|a| == 8 || |a| == 16)
    requires Congruent(BlockPoly(a), p, FieldPoly(|a|)) && Congruent(BlockPoly(b), p, FieldPoly(|a|))
    ensures a == b
  {
    hide BlockPoly, Congruent, FieldPoly;
    var f := FieldPoly(|a|);
    CongruentSym(BlockPoly(b), p, f);
    CongruentTrans(BlockPoly(a), p, BlockPoly(b), f);
    PolyBelow(a);
    PolyBelow(b);
    FieldLeading(|a|);
    ReducedUnique(BlockPoly(a), BlockPoly(b), f, 8 * |a|);
    PolyInjective(a, b);
  }

  /** The last block under its subkey: whole, or ended by the byte 0x80 and zeros. */
  ghost predicate Ends(n: nat, tail: seq<Byte>, k1: seq<Byte>, k2: seq<Byte>, b: seq<Byte>)
    requires |k1| == |k2| == n
  {
    && |tail| <= n && |b| == n
    && forall i :: 0 <= i < n ==> b[i] == EndByte(n, tail, k1, k2, i)
  }

  function EndByte(n: nat, tail: seq<Byte>, k1: seq<Byte>, k2: seq<Byte>, i: nat): Byte
    requires |k1| == |k2| == n && |tail| <= n && i < n
  {
    if |tail| == n then Xor(tail[i], k1[i])
    else if i < |tail| then Xor(tail[i], k2[i])
    else if i == |tail| then Xor(0x80, k2[i])
    else k2[i]
  }

  lemma LastBlockIs(c: Prf, tail: seq<Byte>, b: seq<Byte>)
    requires PrfOk(c) && Ends(c.n, tail, K1(c), K2(c), b)
    ensures LastBlock(c, tail) == b
  {
    hide K1, K2, Xor;
    forall i | 0 <= i < c.n ensures LastBlock(c, tail)[i] == b[i] {
      XorZero(K2(c)[i]);
      assert b[i] == EndByte(c.n, tail, K1(c), K2(c), i);
    }
  }

  /** The message cut into whole blocks and a tail that is empty only for the empty message. */
  ghost predicate Cut(n: nat, msg: seq<Byte>, blocks: seq<seq<Byte>>, tail: seq<Byte>)
  {
    && msg == Joined(blocks) + tail && |tail| <= n && (tail == [] ==> msg == [])
    && forall i :: 0 <= i < |blocks| ==> |blocks[i]| == n
  }

  function Joined(blocks: seq<seq<Byte>>): seq<Byte> { if blocks == [] then [] else blocks[0] + Joined(blocks[1..]) }

  /** st chains the blocks: each state is the encryption of the previous one plus its block. */
  ghost predicate Chains(c: Prf, blocks: seq<seq<Byte>>, st: seq<seq<Byte>>)
    requires PrfOk(c) && forall i :: 0 <= i < |blocks| ==> |blocks[i]| == c.n
  {
    && |st| == |blocks| + 1 && |st[0]| == c.n
    && forall i :: 0 <= i < |blocks| ==> |st[i]| == c.n && st[i + 1] == c.enc(XorSeq(st[i], blocks[i]))
  }

  /** The tag is the leading bytes of the encryption of the last state plus the last block. */
  lemma TagExactly(c: Prf, tagSize: nat, msg: seq<Byte>, k1: seq<Byte>, k2: seq<Byte>,
                   blocks: seq<seq<Byte>>, tail: seq<Byte>, st: seq<seq<Byte>>, b: seq<Byte>)
    requires PrfOk(c) && tagSize <= c.n && Subkeys(c, k1, k2)
    requires Cut(c.n, msg, blocks, tail) && Chains(c, blocks, st) && st[0] == Zeros(c.n)
    requires |st[|blocks|]| == c.n && Ends(c.n, tail, k1, k2, b)
    ensures Tag(c, tagSize, msg) == c.enc(XorSeq(st[|blocks|], b))[..tagSize]
  {
    hide ChainFrom, XorSeq, Ends, Subkeys, LastBlock, K1, K2;
    SubkeysAre(c, k1, k2);
    LastBlockIs(c, tail, b);
    ChainRun(c, msg, blocks, tail, st);
  }

  lemma {:induction false} ChainRun(c: Prf, msg: seq<Byte>, blocks: seq<seq<Byte>>, tail: seq<Byte>, st: seq<seq<Byte>>)
    requires PrfOk(c) && |tail| <= c.n && msg == Joined(blocks) + tail && (blocks != [] ==> tail != [])
    requires forall i :: 0 <= i < |blocks| ==> |blocks[i]| == c.n
    requires Chains(c, blocks, st) && |st[|blocks|]| == c.n
    ensures ChainFrom(c, st[0], msg) == c.enc(XorSeq(st[|blocks|], LastBlock(c, tail)))
    decreases |blocks|
  {
    hide LastBlock, XorSeq;
    if blocks == [] {
      assert msg == tail;
    } else {
      var rest := Joined(blocks[1..]) + tail;
      assert msg == blocks[0] + rest;
      assert st[0 + 1] == c.enc(XorSeq(st[0], blocks[0]));
      StepChain(c, st[0], blocks[0], rest);
      TailChains(c, blocks, st);
      ChainRun(c, rest, blocks[1..], tail, st[1..]);
    }
  }

  lemma TailChains(c: Prf, blocks: seq<seq<Byte>>, st: seq<seq<Byte>>)
    requires PrfOk(c) && |blocks| > 0 && forall i :: 0 <= i < |blocks| ==> |blocks[i]| == c.n
    requires Chains(c, blocks, st)
    ensures Chains(c, blocks[1..], st[1..])
  {
    hide XorSeq;
    forall i | 0 <= i < |blocks| - 1
      ensures |st[1..][i]| == c.n && st[1..][i + 1] == c.enc(XorSeq(st[1..][i], blocks[1..][i]))
    {
      assert st[i + 1 + 1] == c.enc(XorSeq(st[i + 1], blocks[i + 1]));
    }
  }
}
