/** The hash as the procedure of section 8 of RFC 6986, a recursion on what remains of the message, and
    the keyed permutation as the sequences of its round keys and states. */
module StreebogLaws {
  import opened ModArith
  import opened Gf256
  import opened Blocks
  import opened WordLanes
  import opened Kuznyechik
  import opened LittleEndian
  import opened StreebogTransform
  import opened Streebog

  // ---- the procedure ----

  /** Stages 2 and 3 from chaining value h, bit count n and checksum sigma on the remaining message. */
  function Procedure(k: Consts, h: seq<Byte>, n: nat, sigma: nat, rest: seq<Byte>): (r: seq<Byte>)
    requires ConstsOk(k) && |h| == STATE
    ensures |r| == STATE
    decreases |rest|
  {
    if |rest| >= STATE then
      var m := rest[..STATE];
      Procedure(k, G(k, h, m, FromLE(n, STATE)), n + 512, sigma + ValueLE(m), rest[STATE..])
    else
      var m := rest + [1] + Zeros(STATE - 1 - |rest|);
      var h1 := G(k, h, m, FromLE(n, STATE));
      var h2 := G(k, h1, FromLE(n + 8 * |rest|, STATE), Zeros(STATE));
      G(k, h2, FromLE(sigma + ValueLE(m), STATE), Zeros(STATE))
  }

  /** The 512-bit digest is the procedure from the zero block, the 256-bit digest the upper half of the
      procedure from the block of bytes 1. */
  lemma DigestExactly(k: Consts, msg: seq<Byte>)
    requires ConstsOk(k)
    ensures Digest(k, 64, msg) == Procedure(k, Zeros(STATE), 0, 0, msg)
    ensures Digest(k, 32, msg) == Procedure(k, seq(STATE, _ => 1), 0, 0, msg)[32..]
  {
    hide G, FromLE, ValueLE, Procedure, Digest, ConstsOk;
    assert IV(64) == Zeros(STATE) && IV(32) == seq(STATE, _ => 1);
    ProcedureIs(k, 64, msg);
    ProcedureIs(k, 32, msg);
  }

  lemma ProcedureIs(k: Consts, size: nat, msg: seq<Byte>)
    requires ConstsOk(k)
    ensures Digest(k, size, msg) == var r := Procedure(k, IV(size), 0, 0, msg); if size == 32 then r[32..] else r
  {
    hide G, FromLE, ValueLE, Procedure, IV, Chain, BlockSum, ConstsOk;
    var j := |msg| / 64;
    Reached(k, size, msg, j);
    LastStage(k, Chain(k, size, msg, j), 512 * j, BlockSum(msg, j), msg[64 * j..]);
    assert 512 * j + 8 * |msg[64 * j..]| == 8 * |msg|;
  }

  lemma LastStage(k: Consts, h: seq<Byte>, n: nat, sigma: nat, rest: seq<Byte>)
    requires ConstsOk(k) && |h| == STATE && |rest| < STATE
    ensures var m := PadTail(rest);
            Procedure(k, h, n, sigma, rest)
              == G(k, G(k, G(k, h, m, FromLE(n, STATE)), FromLE(n + 8 * |rest|, STATE), Zeros(STATE)),
                   FromLE(sigma + ValueLE(m), STATE), Zeros(STATE))
  {
    hide G, FromLE, ValueLE, ConstsOk;
  }

  /** After j blocks the procedure stands at their chaining value, count and sum. */
  lemma {:induction false} Reached(k: Consts, size: nat, msg: seq<Byte>, j: nat)
    requires ConstsOk(k) && 64 * j <= |msg|
    ensures Procedure(k, Chain(k, size, msg, j), 512 * j, BlockSum(msg, j), msg[64 * j..])
         == Procedure(k, IV(size), 0, 0, msg)
  {
    hide G, FromLE, ValueLE, Procedure, IV, ConstsOk;
    if j == 0 {
      assert msg[0..] == msg;
    } else {
      Reached(k, size, msg, j - 1);
      var rest := msg[64 * (j - 1)..];
      OneBlock(k, Chain(k, size, msg, j - 1), 512 * (j - 1), BlockSum(msg, j - 1), rest);
      assert rest[..64] == BlockOf(msg, j - 1) && rest[64..] == msg[64 * j..];
    }
  }

  lemma OneBlock(k: Consts, h: seq<Byte>, n: nat, sigma: nat, rest: seq<Byte>)
    requires ConstsOk(k) && |h| == STATE && |rest| >= STATE
    ensures Procedure(k, h, n, sigma, rest)
         == Procedure(k, G(k, h, rest[..64], FromLE(n, STATE)), n + 512, sigma + ValueLE(rest[..64]), rest[64..])
  {
    hide G, FromLE, ValueLE, ConstsOk;
  }

  /** The padded tail as a number: one bit above the message. */
  lemma PadValue(tail: seq<Byte>)
    requires |tail| < STATE
    ensures ValueLE(PadTail(tail)) == ValueLE(tail) + Pow(256, |tail|)
  {
    hide Pow, ValueLE, Zeros;
    var one: seq<Byte> := [1];
    ValueConcat(tail + one, Zeros(63 - |tail|));
    ValueConcat(tail, one);
    ZeroValue(63 - |tail|);
    OneValue();
    TimesNothing(Pow(256, |tail + one|), Pow(256, |tail|));
  }

  lemma TimesNothing(p: int, q: int)
    ensures p * 0 == 0 && q * 1 == q
  {
  }

  lemma OneValue()
    ensures ValueLE([1]) == 1
  {
    assert Index(1) == 1;
    assert ValueLE([]) == 0;
  }

  lemma {:induction false} ZeroValue(n: nat)
    ensures ValueLE(Zeros(n)) == 0
  {
    hide Index;
    IndexExtremes();
    if n > 0 {
      ZeroValue(n - 1);
      assert Zeros(n)[1..] == Zeros(n - 1);
    }
  }

  lemma {:induction false} ValueConcat(a: seq<Byte>, b: seq<Byte>)
    ensures ValueLE(a + b) == ValueLE(a) + Pow(256, |a|) * ValueLE(b)
  {
    hide Index;
    if |a| == 0 {
      assert a + b == b;
    } else {
      ValueConcat(a[1..], b);
      assert (a + b)[1..] == a[1..] + b;
      MulAssoc(256, Pow(256, |a| - 1), ValueLE(b));
    }
  }

  // ---- the compression function ----

  /** The twelve rounds: every state is masked by its key before LPS, and the last key ends the run. */
  lemma CompressesExactly(k: Consts, h: seq<Byte>, m: seq<Byte>, n: seq<Byte>, ks: seq<seq<Byte>>, xs: seq<seq<Byte>>)
    requires ConstsOk(k) && |h| == |m| == |n| == STATE && |ks| == |xs| == 13
    requires forall i :: 0 <= i <= 12 ==> |ks[i]| == |xs[i]| == STATE
    requires ks[0] == LPS(k, XorSeq(h, n)) && forall i :: 0 <= i < 12 ==> ks[i + 1] == LPS(k, XorSeq(ks[i], k.c[i]))
    requires xs[0] == m && forall i :: 0 <= i < 12 ==> xs[i + 1] == LPS(k, XorSeq(xs[i], ks[i]))
    ensures G(k, h, m, n) == XorSeq(XorSeq(XorSeq(xs[12], ks[12]), h), m)
  {
    hide LPS, XorSeq, ERound;
    RoundsRun(k, m, ks, xs, 12);
  }

  lemma {:induction false} RoundsRun(k: Consts, m: seq<Byte>, ks: seq<seq<Byte>>, xs: seq<seq<Byte>>, i: nat)
    requires ConstsOk(k) && |m| == STATE && |ks| == |xs| == 13 && i <= 12
    requires forall i :: 0 <= i <= 12 ==> |ks[i]| == |xs[i]| == STATE
    requires forall i :: 0 <= i < 12 ==> ks[i + 1] == LPS(k, XorSeq(ks[i], k.c[i]))
    requires xs[0] == m && forall i :: 0 <= i < 12 ==> xs[i + 1] == LPS(k, XorSeq(xs[i], ks[i]))
    ensures ERound(k, ks[0], m, i) == (ks[i], XorSeq(xs[i], ks[i]))
  {
    hide LPS, XorSeq, ERound;
    if i == 0 {
      EStart(k, ks[0], m);
    } else {
      RoundsRun(k, m, ks, xs, i - 1);
      EStep(k, ks[0], m, i - 1);
      assert ks[i - 1 + 1] == LPS(k, XorSeq(ks[i - 1], k.c[i - 1]));
      assert xs[i - 1 + 1] == LPS(k, XorSeq(xs[i - 1], ks[i - 1]));
    }
  }

  /** w has exactly bit b set. */
  ghost predicate OnlyBit(w: bv64, b: nat)
  {
    b < 64 && forall i: nat :: i < 64 ==> (Odd64(ShrBy64(w, i)) <==> i == b)
  }

  /** The linear map takes a lone bit to its row, the lowest bit to the last one; LPXor gives the rest. */
  lemma RowOfBit(k: Consts, w: bv64, b: nat)
    requires |k.rows| == 64 && OnlyBit(w, b)
    ensures LWord(k, w) == k.rows[63 - b]
  {
    assert b < 64;
    hide RowsOf;
    RowsOfBit(k.rows, w, b, 64);
  }

  lemma {:induction false} RowsOfBit(rows: seq<bv64>, w: bv64, b: nat, n: nat)
    requires |rows| == 64 && OnlyBit(w, b) && n <= 64
    ensures RowsOf(rows, w, n) == if b < n then rows[63 - b] else 0
  {
    hide Odd64, ShrBy64, Xor64;
    if n > 0 {
      RowsOfBit(rows, w, b, n - 1);
      Xor64Zero(rows[64 - n]);
      Xor64Zero(0);
      Xor64Zero(RowsOf(rows, w, n - 1));
    }
  }

  // ---- words ----

  function Low8(w: bv64): Byte { (w & 0xFF) as Byte }

  function Down8(w: bv64): bv64 { w >> 8 }

  function Word64(b0: Byte, b1: Byte, b2: Byte, b3: Byte, b4: Byte, b5: Byte, b6: Byte, b7: Byte): bv64
  {
    (b0 as bv64) | ((b1 as bv64) << 8) | ((b2 as bv64) << 16) | ((b3 as bv64) << 24) |
    ((b4 as bv64) << 32) | ((b5 as bv64) << 40) | ((b6 as bv64) << 48) | ((b7 as bv64) << 56)
  }

  lemma LoadIsWord(b: seq<Byte>)
    requires |b| == 8
    ensures LoadLE(b) == Word64(b[0], b[1], b[2], b[3], b[4], b[5], b[6], b[7])
  {
    var r := Backwards(b);
    assert r[7] == b[0] && r[6] == b[1] && r[5] == b[2] && r[4] == b[3];
    assert r[3] == b[4] && r[2] == b[5] && r[1] == b[6] && r[0] == b[7];
  }

  lemma WordLowFirst(b0: Byte, b1: Byte, b2: Byte, b3: Byte, b4: Byte, b5: Byte, b6: Byte, b7: Byte)
    ensures Low8(Word64(b0, b1, b2, b3, b4, b5, b6, b7)) == b0
    ensures Down8(Word64(b0, b1, b2, b3, b4, b5, b6, b7)) == Word64(b1, b2, b3, b4, b5, b6, b7, 0)
    ensures Word64(0, 0, 0, 0, 0, 0, 0, 0) == 0
  {
  }

  /** The first byte of a word is its low byte, and dropping it moves the others down. */
  lemma LoadLowFirst(b: seq<Byte>)
    requires |b| == 8
    ensures Low8(LoadLE(b)) == b[0] && Down8(LoadLE(b)) == LoadLE([b[1], b[2], b[3], b[4], b[5], b[6], b[7], 0])
  {
    hide LoadLE, Word64, Low8, Down8;
    LoadIsWord(b);
    LoadIsWord([b[1], b[2], b[3], b[4], b[5], b[6], b[7], 0]);
    WordLowFirst(b[0], b[1], b[2], b[3], b[4], b[5], b[6], b[7]);
  }

  /** LPS word by word: y is x substituted and permuted, and word i of the result is the linear map of
      word i of y. */
  lemma LpsExactly(k: Consts, x: seq<Byte>, y: seq<Byte>, i: nat)
    requires ConstsOk(k) && |x| == |y| == STATE && i < 8
    requires forall s :: 0 <= s < 64 ==> y[s] == At(k.pi, x[k.tau[s]])
    ensures LoadLE(LPS(k, x)[8 * i..8 * i + 8]) == LWord(k, LoadLE(y[8 * i..8 * i + 8]))
  {
    hide LWord, LoadLE, LaneLE, At;
    assert P(k, S(k.pi, x)) == y;
    var w := LWord(k, LoadLE(y[8 * i..8 * i + 8]));
    forall j | 0 <= j < 8 ensures LPS(k, x)[8 * i + j] == LaneLE(w, j) {
      assert (8 * i + j) / 8 * 8 == 8 * i && (8 * i + j) % 8 == j;
    }
    assert LPS(k, x)[8 * i..8 * i + 8] == LanesLE(w);
    LoadOfLanesLE(w);
  }

  lemma LoadOfLanesLE(w: bv64)
    ensures LoadLE(LanesLE(w)) == w
  {
    hide LoadBE, Lane;
    assert Backwards(LanesLE(w)) == Lanes(w);
    LoadOfLanes(w);
  }
}
