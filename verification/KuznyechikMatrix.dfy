/** L as a 16 by 16 matrix over GF(2^8), the form the batch engine computes. */
module KuznyechikMatrix {
  import opened Gf256
  import opened Blocks
  import opened Kuznyechik

  /** Every byte of x multiplied by v. */
  function Scale(x: seq<Byte>, v: Byte): (r: seq<Byte>)
    ensures |r| == |x|
  {
    seq(|x|, i requires 0 <= i < |x| => Gf(x[i], v))
  }

  /** Multiplications by two constants commute. */
  lemma GfSwap(a: Byte, v: Byte, c: Byte)
    ensures Gf(Gf(a, v), c) == Gf(Gf(a, c), v)
  {
    hide GfBits;
    GfScalars(8, a, v, c);
  }

  lemma GfXor(a: Byte, b: Byte, c: Byte)
    ensures Gf(Xor(a, b), c) == Xor(Gf(a, c), Gf(b, c))
    ensures Gf(c, Xor(a, b)) == Xor(Gf(c, a), Gf(c, b))
  {
    hide GfBits, Xor;
    GfXorLeft(8, a, b, c);
    GfXorRight(8, c, a, b);
  }

  lemma GfZero(c: Byte)
    ensures Gf(0, c) == 0 && Gf(c, 0) == 0
  {
    hide GfBits;
    GfZeroLeft(8, c);
    GfZeroRight(8, c);
  }

  lemma {:induction false} FeedbackScale(y: seq<Byte>, v: Byte, k: nat)
    requires |y| == 15 && k <= 15
    ensures Feedback(Scale(y, v), k) == Gf(Feedback(y, k), v)
  {
    hide Gf, Xor;
    if k == 0 {
      GfZero(v);
    } else {
      FeedbackScale(y, v, k - 1);
      GfSwap(y[k - 1], v, LC[k - 1]);
      GfXor(Feedback(y, k - 1), Gf(y[k - 1], LC[k - 1]), v);
    }
  }

  lemma RScale(x: Block, v: Byte)
    ensures R(Scale(x, v)) == Scale(R(x), v)
  {
    hide Feedback, Gf, Xor;
    assert Scale(x, v)[..15] == Scale(x[..15], v);
    FeedbackScale(x[..15], v, 15);
    GfXor(x[15], Feedback(x[..15], 15), v);
    assert R(Scale(x, v)) == Scale(R(x), v);
  }

  lemma {:induction false} RTimesScale(x: Block, v: Byte, n: nat)
    ensures RTimes(Scale(x, v), n) == Scale(RTimes(x, n), v)
  {
    hide R, Gf;
    if n > 0 {
      RTimesScale(x, v, n - 1);
      RScale(RTimes(x, n - 1), v);
    }
  }

  /** Entry (j, i) of the matrix: byte j of L applied to the i-th unit block. */
  function M(j: nat, i: nat): Byte
    requires j < 16 && i < 16
  {
    L(Unit(BLOCK_SIZE, i, 1))[j]
  }

  /** L of a single byte v at position i is column i scaled by v. */
  lemma UnitColumn(i: nat, j: nat, v: Byte)
    requires i < 16 && j < 16
    ensures L(Unit(BLOCK_SIZE, i, v))[j] == Gf(M(j, i), v)
  {
    hide RTimes, Gf, Unit;
    var u := Unit(BLOCK_SIZE, i, 1);
    forall k | 0 <= k < 16 ensures Scale(u, v)[k] == Unit(BLOCK_SIZE, i, v)[k] {
      assert Gf(1, v) == v by { GfOne(v); }
      GfZero(v);
    }
    assert Scale(u, v) == Unit(BLOCK_SIZE, i, v);
    RTimesScale(u, v, 16);
  }

  /** The first k terms of row j of the matrix product. */
  function RowSum(j: nat, x: Block, k: nat): Byte
    requires j < 16 && k <= 16
  {
    if k == 0 then 0 else Xor(RowSum(j, x, k - 1), Gf(M(j, k - 1), x[k - 1]))
  }

  function Same(b: Byte): Byte { b }

  lemma {:induction false} RowOfSum(j: nat, x: Block, k: nat)
    requires j < 16 && k <= 16
    ensures SumOver(BLOCK_SIZE, L, Same, x, k)[j] == RowSum(j, x, k)
  {
    hide L, Unit, Xor, Gf, M;
    if k > 0 {
      RowOfSum(j, x, k - 1);
      UnitColumn(k - 1, j, x[k - 1]);
    }
  }

  /** L is the matrix product, for every block. */
  lemma LIsMatrix(x: Block, j: nat)
    requires j < 16
    ensures L(x)[j] == RowSum(j, x, 16)
  {
    hide L, Unit, RowSum;
    LAdditive();
    Decompose(BLOCK_SIZE, L, Same, x, 16);
    assert Masked(BLOCK_SIZE, Same, x, 16) == x;
    RowOfSum(j, x, 16);
  }
}
