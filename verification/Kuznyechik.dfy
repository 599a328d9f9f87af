/** The Kuznyechik block cipher (RFC 7801): the transformations S, R and L, the key schedule,
    and the two ways kuznyechik.go and ctkuznyechik.go compute them. */
module Kuznyechik {
  import opened Gf256
  import opened Blocks

  const BLOCK_SIZE: nat := 16

  type Block = b: seq<Byte> | |b| == BLOCK_SIZE witness Zeros(BLOCK_SIZE)

  /** A substitution: a table of 256 bytes. */
  type Sbox = t: seq<Byte> | |t| == 256 witness Zeros(256)

  function Index(b: Byte): (i: nat)
    ensures i < 256
  {
    b as int
  }

  /** The byte of value i. */
  function ToByte(i: nat): Byte
    requires i < 256
  {
    if i == 0 then 0 else ToByte(i - 1) + 1
  }

  lemma ToByteZero()
    ensures ToByte(0) == 0
  {
  }

  lemma IndexSuccessor(b: Byte)
    requires b != 0xFF
    ensures Index(b + 1) == Index(b) + 1
  {
  }

  lemma IndexExtremes()
    ensures Index(0) == 0 && Index(0xFF) == 255
  {
  }

  lemma {:induction false} IndexRoundTrip(i: nat)
    requires i < 256
    ensures Index(ToByte(i)) == i
  {
    hide Index;
    IndexExtremes();
    if i > 0 {
      IndexRoundTrip(i - 1);
      IndexSuccessor(ToByte(i - 1));
    }
  }

  lemma ByteRoundTrip(b: Byte)
    ensures ToByte(Index(b)) == b
  {
    hide Index, ToByte;
    IndexRoundTrip(Index(b));
    IndexInjective(ToByte(Index(b)), b);
  }

  lemma IndexInjective(a: Byte, b: Byte)
    requires Index(a) == Index(b)
    ensures a == b
  {
  }

  function At(t: Sbox, b: Byte): Byte { t[Index(b)] }

  /** inv undoes pi on every byte. */
  ghost predicate Inverts(pi: Sbox, inv: Sbox)
  {
    forall b: Byte :: At(inv, At(pi, b)) == b
  }

  /** The coefficients of the linear feedback, most significant first (section 4.2 of RFC 7801). */
  const LC: seq<Byte> := [0x94, 0x20, 0x85, 0x10, 0xC2, 0xC0, 0x01, 0xFB,
                          0x01, 0xC0, 0xC2, 0x10, 0x85, 0x20, 0x94, 0x01]

  // ---- the transformations ----

  function S(t: Sbox, x: seq<Byte>): (r: seq<Byte>)
    ensures |r| == |x|
  {
    seq(|x|, i requires 0 <= i < |x| => At(t, x[i]))
  }

  /** The first k products of the feedback over the 15 bytes y. */
  function Feedback(y: seq<Byte>, k: nat): Byte
    requires |y| == 15 && k <= 15
  {
    if k == 0 then 0 else Xor(Feedback(y, k - 1), Gf(y[k - 1], LC[k - 1]))
  }

  function R(x: seq<Byte>): (r: seq<Byte>)
    ensures |r| == |x|
  {
    if |x| != BLOCK_SIZE then x else [Xor(x[15], Feedback(x[..15], 15))] + x[..15]
  }

  function RInv(x: seq<Byte>): (r: seq<Byte>)
    ensures |r| == |x|
  {
    if |x| != BLOCK_SIZE then x else x[1..] + [Xor(x[0], Feedback(x[1..], 15))]
  }

  function RTimes(x: seq<Byte>, n: nat): (r: seq<Byte>)
    ensures |r| == |x|
  {
    if n == 0 then x else R(RTimes(x, n - 1))
  }

  function RInvTimes(x: seq<Byte>, n: nat): (r: seq<Byte>)
    ensures |r| == |x|
  {
    if n == 0 then x else RInv(RInvTimes(x, n - 1))
  }

  function L(x: seq<Byte>): (r: seq<Byte>)
    ensures |r| == |x|
  {
    RTimes(x, 16)
  }

  function LInv(x: seq<Byte>): (r: seq<Byte>)
    ensures |r| == |x|
  {
    RInvTimes(x, 16)
  }

  // ---- L and LInv undo each other ----

  lemma RInvOfR(x: Block)
    ensures RInv(R(x)) == x && R(RInv(x)) == x
  {
    hide Feedback, Xor;
    var y := x[..15];
    assert R(x)[1..] == y;
    XorComm(x[15], Feedback(y, 15));
    XorCancel(Feedback(y, 15), x[15]);
    assert RInv(R(x)) == x;
    var z := x[1..];
    assert RInv(x)[..15] == z;
    XorCancel(Feedback(z, 15), x[0]);
    assert R(RInv(x)) == x;
  }

  lemma {:induction false} RInvTimesShift(x: seq<Byte>, n: nat)
    ensures RInvTimes(RInv(x), n) == RInv(RInvTimes(x, n))
  {
    hide RInv;
    if n > 0 { RInvTimesShift(x, n - 1); }
  }

  lemma {:induction false} RTimesShift(x: seq<Byte>, n: nat)
    ensures RTimes(R(x), n) == R(RTimes(x, n))
  {
    hide R;
    if n > 0 { RTimesShift(x, n - 1); }
  }

  lemma {:induction false} RTimesUndone(x: Block, n: nat)
    ensures RInvTimes(RTimes(x, n), n) == x
  {
    hide R, RInv;
    if n > 0 {
      RInvTimesShift(RTimes(x, n), n - 1);
      RInvOfR(RTimes(x, n - 1));
      RTimesUndone(x, n - 1);
      assert RInvTimes(RTimes(x, n), n) == RInvTimes(RInv(RTimes(x, n)), n - 1);
    }
  }

  lemma {:induction false} RInvTimesUndone(x: Block, n: nat)
    ensures RTimes(RInvTimes(x, n), n) == x
  {
    hide R, RInv;
    if n > 0 {
      RTimesShift(RInvTimes(x, n), n - 1);
      RInvOfR(RInvTimes(x, n - 1));
      RInvTimesUndone(x, n - 1);
      assert RTimes(RInvTimes(x, n), n) == RTimes(R(RInvTimes(x, n)), n - 1);
    }
  }

  /** L is a bijection of blocks with inverse LInv. */
  lemma LInverse(x: Block)
    ensures LInv(L(x)) == x && L(LInv(x)) == x
  {
    hide RTimes, RInvTimes;
    RTimesUndone(x, 16);
    RInvTimesUndone(x, 16);
  }

  lemma SInverse(pi: Sbox, inv: Sbox, x: Block)
    requires Inverts(pi, inv)
    ensures S(inv, S(pi, x)) == x
  {
    hide At;
    assert forall i :: 0 <= i < 16 ==> S(inv, S(pi, x))[i] == At(inv, At(pi, x[i]));
  }

  // ---- L and LInv are additive ----

  lemma {:induction false} FeedbackXor(y: seq<Byte>, z: seq<Byte>, k: nat)
    requires |y| == |z| == 15 && k <= 15
    ensures Feedback(XorSeq(y, z), k) == Xor(Feedback(y, k), Feedback(z, k))
  {
    hide Gf, Xor;
    if k == 0 {
      XorZero(0);
    } else {
      FeedbackXor(y, z, k - 1);
      GfAdditive(y[k - 1], z[k - 1], LC[k - 1]);
      XorSwap(Feedback(y, k - 1), Feedback(z, k - 1), Gf(y[k - 1], LC[k - 1]), Gf(z[k - 1], LC[k - 1]));
    }
  }

  lemma RXor(a: Block, b: Block)
    ensures R(XorSeq(a, b)) == XorSeq(R(a), R(b))
  {
    hide Feedback, Xor;
    assert XorSeq(a, b)[..15] == XorSeq(a[..15], b[..15]);
    FeedbackXor(a[..15], b[..15], 15);
    XorSwap(a[15], b[15], Feedback(a[..15], 15), Feedback(b[..15], 15));
    assert R(XorSeq(a, b)) == XorSeq(R(a), R(b));
  }

  lemma RInvXor(a: Block, b: Block)
    ensures RInv(XorSeq(a, b)) == XorSeq(RInv(a), RInv(b))
  {
    hide Feedback, Xor;
    assert XorSeq(a, b)[1..] == XorSeq(a[1..], b[1..]);
    FeedbackXor(a[1..], b[1..], 15);
    XorSwap(a[0], b[0], Feedback(a[1..], 15), Feedback(b[1..], 15));
    assert RInv(XorSeq(a, b)) == XorSeq(RInv(a), RInv(b));
  }

  lemma {:induction false} RTimesXor(a: Block, b: Block, n: nat)
    ensures RTimes(XorSeq(a, b), n) == XorSeq(RTimes(a, n), RTimes(b, n))
  {
    hide R, Xor;
    if n > 0 {
      RTimesXor(a, b, n - 1);
      RXor(RTimes(a, n - 1), RTimes(b, n - 1));
    }
  }

  lemma {:induction false} RInvTimesXor(a: Block, b: Block, n: nat)
    ensures RInvTimes(XorSeq(a, b), n) == XorSeq(RInvTimes(a, n), RInvTimes(b, n))
  {
    hide RInv, Xor;
    if n > 0 {
      RInvTimesXor(a, b, n - 1);
      RInvXor(RInvTimes(a, n - 1), RInvTimes(b, n - 1));
    }
  }

  lemma LAdditive()
    ensures Additive(BLOCK_SIZE, L)
  {
    hide RTimes;
    forall a: seq<Byte>, b: seq<Byte> ensures AdditiveAt(BLOCK_SIZE, L, a, b) {
      if |a| == BLOCK_SIZE && |b| == BLOCK_SIZE { RTimesXor(a, b, 16); }
    }
  }

  lemma LInvAdditive()
    ensures Additive(BLOCK_SIZE, LInv)
  {
    hide RInvTimes;
    forall a: seq<Byte>, b: seq<Byte> ensures AdditiveAt(BLOCK_SIZE, LInv, a, b) {
      if |a| == BLOCK_SIZE && |b| == BLOCK_SIZE { RInvTimesXor(a, b, 16); }
    }
  }

  // ---- the cipher ----

  /** One LSX round. */
  function Round(pi: Sbox, k: Block, x: Block): Block
  {
    L(S(pi, XorSeq(x, k)))
  }

  /** The first n rounds of encryption. */
  function Rounds(pi: Sbox, ks: seq<Block>, x: Block, n: nat): Block
    requires n <= |ks|
  {
    if n == 0 then x else Round(pi, ks[n - 1], Rounds(pi, ks, x, n - 1))
  }

  /** Section 4.5.1 of RFC 7801. */
  function EncryptSpec(pi: Sbox, ks: seq<Block>, x: Block): Block
    requires |ks| == 10
  {
    XorSeq(Rounds(pi, ks, x, 9), ks[9])
  }

  /** The inverse of one round, with the key of the round above already removed. */
  function Unround(inv: Sbox, k: Block, x: Block): Block
  {
    S(inv, LInv(XorSeq(x, k)))
  }

  /** Decryption from key 9 down to key n + 1. */
  function Unrounds(inv: Sbox, ks: seq<Block>, x: Block, n: nat): Block
    requires |ks| == 10 && n <= 9
    decreases 9 - n
  {
    if n == 9 then x else Unround(inv, ks[n + 1], Unrounds(inv, ks, x, n + 1))
  }

  /** Section 4.5.2 of RFC 7801. */
  function DecryptSpec(inv: Sbox, ks: seq<Block>, x: Block): Block
    requires |ks| == 10
  {
    XorSeq(Unrounds(inv, ks, x, 0), ks[0])
  }

  /** After undoing the rounds above n, what remains is the state of round n masked by its key. */
  lemma {:induction false} UnroundsReach(pi: Sbox, inv: Sbox, ks: seq<Block>, x: Block, n: nat)
    requires Inverts(pi, inv) && |ks| == 10 && n <= 9
    ensures Unrounds(inv, ks, EncryptSpec(pi, ks, x), n) == XorSeq(Rounds(pi, ks, x, n), ks[n])
    decreases 9 - n
  {
    hide L, LInv, S, XorSeq, Inverts;
    if n < 9 {
      UnroundsReach(pi, inv, ks, x, n + 1);
      var y := XorSeq(Rounds(pi, ks, x, n), ks[n]);
      XorSeqCancel(L(S(pi, y)), ks[n + 1]);
      LInverse(S(pi, y));
      SInverse(pi, inv, y);
    }
  }

  /** Decryption undoes encryption, for every key schedule and block. */
  lemma DecryptEncrypt(pi: Sbox, inv: Sbox, ks: seq<Block>, x: Block)
    requires Inverts(pi, inv) && |ks| == 10
    ensures DecryptSpec(inv, ks, EncryptSpec(pi, ks, x)) == x
  {
    hide EncryptSpec, Unrounds;
    UnroundsReach(pi, inv, ks, x, 0);
    XorSeqCancel(x, ks[0]);
  }

  // ---- key schedule ----

  /** The iteration constant of 1-based index i: L of the block holding i in its last byte. */
  function IterationConstant(i: Byte): Block { L(Unit(BLOCK_SIZE, 15, i)) }

  function Constants(): (r: seq<Block>)
    ensures |r| == 32
  {
    seq(32, i requires 0 <= i < 32 => IterationConstant(ToByte(i + 1)))
  }

  /** The two halves after n Feistel steps of the key schedule (section 4.4 of RFC 7801). */
  function KeyState(pi: Sbox, key: seq<Byte>, n: nat): (Block, Block)
    requires |key| == 32 && n <= 32
  {
    if n == 0 then (key[..16], key[16..])
    else
      var (a, b) := KeyState(pi, key, n - 1);
      (XorSeq(Round(pi, Constants()[n - 1], a), b), a)
  }

  /** The ten round keys: the halves after every eight steps. */
  function RoundKeys(pi: Sbox, key: seq<Byte>): (r: seq<Block>)
    requires |key| == 32
    ensures |r| == 10
  {
    seq(10, i requires 0 <= i < 10 =>
      var st := KeyState(pi, key, i / 2 * 8);
      if i % 2 == 0 then st.0 else st.1)
  }

  /** The whole cipher under a 32-byte key. */
  function E(pi: Sbox, key: seq<Byte>, x: Block): Block
    requires |key| == 32
  {
    EncryptSpec(pi, RoundKeys(pi, key), x)
  }
}
