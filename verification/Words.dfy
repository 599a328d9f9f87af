/** 64-bit machine words as naturals below 2^64, with the carry-explicit operations
    of Go's math/bits and the bitwise operations, and little-endian limb values. */
module Words {
  import opened ModArith

  const B: int := 0x1_0000_0000_0000_0000

  type Word = x: int | 0 <= x < 0x1_0000_0000_0000_0000

  // ------------------------------------------------- carry-explicit operations

  /** Sum and carry-out of x + y + carry. */
  function Add64(x: Word, y: Word, carry: Word): (r: (Word, Word))
    requires carry <= 1
    ensures r.0 + B * r.1 == x + y + carry && r.1 <= 1
  {
    var s := x + y + carry;
    if s < B then (s, 0) else (s - B, 1)
  }

  /** Difference and borrow-out of x - y - borrow. */
  function Sub64(x: Word, y: Word, borrow: Word): (r: (Word, Word))
    requires borrow <= 1
    ensures r.0 - B * r.1 == x - y - borrow && r.1 <= 1
  {
    var d := x - y - borrow;
    if d >= 0 then (d, 0) else (d + B, 1)
  }

  /** High and low word of the 128-bit product. */
  function Mul64(x: Word, y: Word): (r: (Word, Word))
    ensures r.0 * B + r.1 == x * y
    ensures r.0 < B - 1
  {
    WordProduct(x, y);
    (x * y / B, x * y % B)
  }

  lemma WordProduct(x: Word, y: Word)
    ensures 0 <= x * y <= (B - 1) * (B - 1)
    ensures x * y == B * (x * y / B) + x * y % B && 0 <= x * y / B < B - 1
  {
    ProductBound(x, y, B - 1);
    HighWord(x * y);
  }

  lemma ProductBound(x: int, y: int, n: int)
    requires 0 <= x <= n && 0 <= y <= n
    ensures 0 <= x * y <= n * n
  {
    MulMono(x, n, y);
    MulMono(y, n, n);
  }

  lemma HighWord(z: int)
    requires 0 <= z <= (B - 1) * (B - 1)
    ensures z == B * (z / B) + z % B && 0 <= z / B < B - 1
  {
    DivMod(z, B);
  }

  /** The two-word value a*b + c + d; neither high-word increment wraps. */
  function MulAddCarry(a: Word, b: Word, c: Word, d: Word): (r: (Word, Word))
    ensures r.0 * B + r.1 == a * b + c + d
  {
    var (hi, lo) := Mul64(a, b);
    var (lo1, carry1) := Add64(lo, c, 0);
    var hi1: Word := (hi + carry1) % B;
    var (lo2, carry2) := Add64(lo1, d, 0);
    WordProduct(a, b);
    HighWordNoWrap(a * b, hi, lo, c, d, lo1, carry1, lo2, carry2);
    ((hi1 + carry2) % B, lo2)
  }

  lemma HighWordNoWrap(z: int, hi: Word, lo: Word, c: Word, d: Word, lo1: Word, c1: Word, lo2: Word, c2: Word)
    requires z <= (B - 1) * (B - 1) && hi * B + lo == z && hi < B - 1
    requires lo1 + B * c1 == lo + c && lo2 + B * c2 == lo1 + d && c1 <= 1 && c2 <= 1
    ensures (hi + c1) % B == hi + c1 && (hi + c1 + c2) % B == hi + c1 + c2
    ensures (hi + c1 + c2) * B + lo2 == z + c + d
  {
    assert (hi + c1 + c2) * B + lo2 == z + c + d;
    assert hi + c1 + c2 < B;
    ModReduced(hi + c1, B);
    ModReduced(hi + c1 + c2, B);
  }

  // --------------------------------------------------------- bitwise operations

  lemma WordSize()
    ensures Pow(2, 63) == 0x8000_0000_0000_0000 && Pow(2, 64) == B
  {
    assert Pow(2, 8) == 0x100;
    PowAdd(2, 8, 8);
    PowAdd(2, 16, 16);
    PowAdd(2, 32, 32);
  }

  datatype BitOp = And | Or | Xor | AndNot {
    predicate Apply(x: bool, y: bool) {
      match this
      case And => x && y
      case Or => x || y
      case Xor => x != y
      case AndNot => x && !y
    }
  }

  /** The n-bit bitwise combination of a and b, bit by bit from the lowest. */
  function Bitwise(op: BitOp, n: nat, a: nat, b: nat): nat
  {
    if n == 0 then 0
    else (if op.Apply(a % 2 == 1, b % 2 == 1) then 1 else 0) + 2 * Bitwise(op, n - 1, a / 2, b / 2)
  }

  lemma {:induction false} BitwiseBound(op: BitOp, n: nat, a: nat, b: nat)
    ensures Bitwise(op, n, a, b) < Pow(2, n)
  {
    if n > 0 { BitwiseBound(op, n - 1, a / 2, b / 2); }
  }

  function W(op: BitOp, a: Word, b: Word): (r: Word)
  {
    BitwiseBound(op, 64, a, b);
    WordSize();
    Bitwise(op, 64, a, b)
  }

  /** Masking with all-ones keeps a word, masking with zero clears it. */
  lemma {:induction false} BitwiseMask(n: nat, a: nat)
    requires a < Pow(2, n)
    ensures Pow(2, n) > 0
    ensures Bitwise(And, n, a, Pow(2, n) - 1) == a && Bitwise(And, n, a, 0) == 0
    ensures Bitwise(AndNot, n, a, Pow(2, n) - 1) == 0 && Bitwise(AndNot, n, a, 0) == a
    ensures Bitwise(Or, n, a, 0) == a && Bitwise(Or, n, 0, a) == a
    ensures Bitwise(And, n, Pow(2, n) - 1, a) == a && Bitwise(And, n, 0, a) == 0
  {
    if n > 0 {
      BitwiseMask(n - 1, a / 2);
      assert (Pow(2, n) - 1) / 2 == Pow(2, n - 1) - 1;
    }
  }

  lemma {:induction false} XorSelf(n: nat, a: nat, b: nat)
    requires a < Pow(2, n) && b < Pow(2, n)
    ensures Bitwise(Xor, n, a, 0) == a
    ensures Bitwise(Xor, n, a, Bitwise(Xor, n, a, b)) == b
    ensures Bitwise(Xor, n, b, Bitwise(Xor, n, a, b)) == a
    ensures (Bitwise(Xor, n, a, b) == 0) <==> a == b
  {
    if n > 0 { XorSelf(n - 1, a / 2, b / 2); }
  }

  lemma {:induction false} OrZero(n: nat, a: nat, b: nat)
    requires a < Pow(2, n) && b < Pow(2, n)
    ensures (Bitwise(Or, n, a, b) == 0) <==> (a == 0 && b == 0)
  {
    if n > 0 { OrZero(n - 1, a / 2, b / 2); }
  }

  /** The top bit of a bitwise or. */
  lemma {:induction false} OrTop(n: nat, a: nat, b: nat)
    requires n > 0 && a < Pow(2, n) && b < Pow(2, n)
    ensures (Bitwise(Or, n, a, b) >= Pow(2, n - 1)) <==> (a >= Pow(2, n - 1) || b >= Pow(2, n - 1))
  {
    if n > 1 {
      OrTop(n - 1, a / 2, b / 2);
    } else {
      assert Bitwise(Or, 0, a / 2, b / 2) == 0;
    }
  }

  // --------------------------------------------------------------- limb values

  /** Value of little-endian limbs. */
  function Val(s: seq<Word>): nat
  {
    if |s| == 0 then 0 else s[0] + B * Val(s[1..])
  }

  /** The n low limbs of v. */
  function ToLimbs(n: nat, v: nat): (s: seq<Word>)
    ensures |s| == n
  {
    if n == 0 then [] else [v % B] + ToLimbs(n - 1, v / B)
  }

  lemma {:induction false} ValBound(s: seq<Word>)
    ensures Val(s) < Pow(B, |s|)
  {
    if |s| > 0 {
      ValBound(s[1..]);
      MulMono(Val(s[1..]) + 1, Pow(B, |s| - 1), B);
    }
  }

  lemma {:induction false} ValToLimbs(n: nat, v: nat)
    requires v < Pow(B, n)
    ensures Val(ToLimbs(n, v)) == v
  {
    if n > 0 {
      ValToLimbs(n - 1, v / B);
      var s := ToLimbs(n, v);
      assert s[1..] == ToLimbs(n - 1, v / B);
    }
  }

  lemma {:induction false} ValInjective(s: seq<Word>, t: seq<Word>)
    requires |s| == |t| && Val(s) == Val(t)
    ensures s == t
  {
    if |s| > 0 {
      ValInjective(s[1..], t[1..]);
      assert s == [s[0]] + s[1..] && t == [t[0]] + t[1..];
    }
  }

  /** Appending a most significant limb. */
  lemma {:induction false} ValSnoc(s: seq<Word>, x: Word)
    ensures Val(s + [x]) == Val(s) + Pow(B, |s|) * x
  {
    if |s| == 0 {
      assert s + [x] == [x];
    } else {
      ValSnoc(s[1..], x);
      assert (s + [x])[1..] == s[1..] + [x];
      MulAssoc(B, Pow(B, |s| - 1), x);
    }
  }

  lemma ValPrefix(s: seq<Word>, i: nat)
    requires i < |s|
    ensures Val(s[..i + 1]) == Val(s[..i]) + Pow(B, i) * s[i]
  {
    ValSnoc(s[..i], s[i]);
    assert s[..i + 1] == s[..i] + [s[i]];
  }

  lemma Val4(s: seq<Word>)
    requires |s| == 4
    ensures Val(s) == s[0] + B * (s[1] + B * (s[2] + B * s[3]))
  {
    assert Val(s[1..]) == s[1] + B * Val(s[1..][1..]);
    assert s[1..][1..] == s[2..];
    assert Val(s[2..]) == s[2] + B * Val(s[2..][1..]);
    assert s[2..][1..] == s[3..];
    assert Val(s[3..]) == s[3] + B * Val(s[3..][1..]);
  }
}
