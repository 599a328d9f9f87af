/** The masking vocabulary of internal/ct. */
module Ct {
  import opened ModArith
  import opened Words

  /** A 0/1 selector widened to an all-zeros or all-ones word. */
  function Mask(sel: Word): (m: Word)
  {
    (0 - W(And, sel, 1)) % B
  }

  /** All-ones when a == b, zero otherwise. */
  function Eq(a: Word, b: Word): (m: Word)
  {
    var d := W(Xor, a, b);
    var nz := W(Or, d, (0 - d) % B) / 0x8000_0000_0000_0000;
    (nz - 1) % B
  }

  /** The word with the bits of a where mask is set and those of b elsewhere. */
  function Select(mask: Word, a: Word, b: Word): Word
  {
    W(Or, W(And, a, mask), W(AndNot, b, mask))
  }

  lemma MaskIsAllOnesOrZero(sel: Word)
    ensures Mask(sel) == if sel % 2 == 1 then B - 1 else 0
  {
    assert Bitwise(And, 63, sel / 2, 0) == 0 by { AndZero(63, sel / 2); }
    assert 1 / 2 == 0;
  }

  lemma {:induction false} AndZero(n: nat, a: nat)
    ensures Bitwise(And, n, a, 0) == 0
  {
    if n > 0 { AndZero(n - 1, a / 2); }
  }

  lemma EqIsComparison(a: Word, b: Word)
    ensures Eq(a, b) == if a == b then B - 1 else 0
  {
    WordSize();
    XorSelf(64, a, b);
    TopBitOfNegation(W(Xor, a, b));
  }

  /** d | -d has its top bit set exactly when d is nonzero. */
  lemma TopBitOfNegation(d: Word)
    ensures W(Or, d, (0 - d) % B) / 0x8000_0000_0000_0000 == if d == 0 then 0 else 1
  {
    WordSize();
    if d == 0 {
      BitwiseMask(64, 0);
    } else {
      ModUnique(0 - d, B, -1, B - d);
      OrTop(64, d, B - d);
      BitwiseBound(Or, 64, d, B - d);
    }
  }

  /** Under an all-ones mask a selection returns its first operand, under zero its second. */
  lemma SelectByMask(mask: Word, a: Word, b: Word)
    requires mask == 0 || mask == B - 1
    ensures Select(mask, a, b) == if mask == 0 then b else a
  {
    WordSize();
    BitwiseMask(64, a);
    BitwiseMask(64, b);
  }
}
