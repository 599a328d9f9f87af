/** Big-endian byte counters: their value, addition modulo 256^n, and the increment loops. */
module Counters {
  import ModArith
  import opened Gf256
  import opened Kuznyechik

  /** Big-endian value. */
  function Value(c: seq<Byte>): nat
  {
    if |c| == 0 then 0 else 256 * Value(c[..|c| - 1]) + Index(c[|c| - 1])
  }

  /** The n low bytes of v, big-endian. */
  function FromValue(v: nat, n: nat): (r: seq<Byte>)
    ensures |r| == n
  {
    if n == 0 then [] else FromValue(v / 256, n - 1) + [ToByte(v % 256)]
  }

  /** c + k modulo 256^|c|. */
  function Add(c: seq<Byte>, k: nat): (r: seq<Byte>)
    ensures |r| == |c|
  {
    FromValue(Value(c) + k, |c|)
  }

  lemma {:induction false} FromOfValue(c: seq<Byte>)
    ensures FromValue(Value(c), |c|) == c
  {
    hide Index, ToByte;
    if |c| > 0 {
      var p, b := c[..|c| - 1], c[|c| - 1];
      FromOfValue(p);
      ByteRoundTrip(b);
      assert Value(c) / 256 == Value(p) && Value(c) % 256 == Index(b);
      assert c == p + [b];
    }
  }

  /** Reducing before a further addition does not matter. */
  lemma {:induction false} FromReduced(v: nat, j: nat, n: nat)
    ensures FromValue(Value(FromValue(v, n)) + j, n) == FromValue(v + j, n)
  {
    hide Index, ToByte, Value, FromValue;
    if n == 0 {
      assert FromValue(Value(FromValue(v, 0)) + j, 0) == [] == FromValue(v + j, 0);
    } else {
      var q, r := v / 256, v % 256;
      var u := Value(FromValue(q, n - 1));
      FromStep(v, n);
      IndexRoundTrip(r);
      ValueAppend(FromValue(q, n - 1), ToByte(r));
      CarrySplit(u, r, j);
      CarrySplit(q, r, j);
      FromReduced(q, (r + j) / 256, n - 1);
      FromStep(256 * u + r + j, n);
      FromStep(v + j, n);
    }
  }

  /** The n low bytes of v have the value v modulo 256^n. */
  lemma {:induction false} ValueReduced(v: nat, n: nat)
    ensures ModArith.Pow(256, n) > 0 && Value(FromValue(v, n)) == v % ModArith.Pow(256, n)
  {
    hide Index, ToByte, Value, FromValue;
    ModArith.PowPositive(256, n);
    if n == 0 {
      NoDigits(v);
    } else {
      var q, r := v / 256, v % 256;
      var m, w := ModArith.Pow(256, n - 1), ModArith.Pow(256, n);
      ValueReduced(q, n - 1);
      FromStep(v, n);
      IndexRoundTrip(r);
      ValueAppend(FromValue(q, n - 1), ToByte(r));
      DigitRemainder(v, m, w);
    }
  }

  lemma NoDigits(v: nat)
    ensures Value(FromValue(v, 0)) == 0 == v % ModArith.Pow(256, 0)
  {
  }

  lemma DigitRemainder(v: nat, m: int, w: int)
    requires m > 0 && w == 256 * m
    ensures 256 * (v / 256 % m) + v % 256 == v % w
  {
    var q, r := v / 256, v % 256;
    ModArith.DivMod(q, m);
    var t, u := q / m, q % m;
    assert w * t == 256 * (m * t);
    ModArith.ModUnique(v, w, t, 256 * u + r);
  }

  /** Addition on counters is addition modulo 256^n. */
  lemma AddIsModular(c: seq<Byte>, k: nat)
    ensures ModArith.Pow(256, |c|) > 0 && Value(Add(c, k)) == (Value(c) + k) % ModArith.Pow(256, |c|)
  {
    hide Value, FromValue;
    ValueReduced(Value(c) + k, |c|);
  }

  /** A counter is determined by its length and value. */
  lemma ValueInjective(a: seq<Byte>, b: seq<Byte>)
    requires |a| == |b| && Value(a) == Value(b)
    ensures a == b
  {
    hide Value, FromValue;
    FromOfValue(a);
    FromOfValue(b);
  }

  /** The weight of each byte: byte i of n is digit n - 1 - i of the value in base 256. */
  lemma {:induction false} ValueDigit(c: seq<Byte>, i: nat)
    requires i < |c|
    ensures ModArith.Pow(256, |c| - 1 - i) > 0 && Value(c) / ModArith.Pow(256, |c| - 1 - i) % 256 == Index(c[i])
  {
    hide Index, Value, ModArith.Pow;
    var n := |c| - 1;
    var p := c[..n];
    LastByte(c);
    ModArith.PowPositive(256, n - i);
    if i < n {
      ValueDigit(p, i);
      ModArith.PowByte(n - i);
      ModArith.DigitAbove(Value(p), Index(c[n]), ModArith.Pow(256, n - 1 - i), ModArith.Pow(256, n - i));
    } else {
      ModArith.LastDigit(Value(p), Index(c[n]));
    }
  }

  lemma LastByte(c: seq<Byte>)
    requires |c| > 0
    ensures Value(c) == 256 * Value(c[..|c| - 1]) + Index(c[|c| - 1])
  {
    hide Index;
  }

  lemma FromStep(v: nat, n: nat)
    requires n > 0
    ensures FromValue(v, n) == FromValue(v / 256, n - 1) + [ToByte(v % 256)]
  {
    hide ToByte;
  }

  lemma ValueAppend(c: seq<Byte>, b: Byte)
    ensures Value(c + [b]) == 256 * Value(c) + Index(b)
  {
    hide Index;
    assert (c + [b])[..|c|] == c;
  }

  lemma CarrySplit(u: nat, r: nat, j: nat)
    ensures (256 * u + r + j) / 256 == u + (r + j) / 256
    ensures (256 * u + r + j) % 256 == (r + j) % 256
  {
  }

  lemma AddZero(c: seq<Byte>)
    ensures Add(c, 0) == c
  {
    FromOfValue(c);
  }

  /** Advancing twice is advancing by the sum. */
  lemma AddAdd(c: seq<Byte>, i: nat, j: nat)
    ensures Add(Add(c, i), j) == Add(c, i + j)
  {
    hide FromValue;
    FromReduced(Value(c) + i, j, |c|);
  }

  /** Byte-wise addition: the last byte takes the sum, the rest takes the carry. */
  lemma AddLast(c: seq<Byte>, b: Byte, k: nat)
    ensures Add(c + [b], k) == Add(c, (Index(b) + k) / 256) + [ToByte((Index(b) + k) % 256)]
  {
    hide Index, ToByte;
    assert (c + [b])[..|c|] == c;
    CarrySplit(Value(c), Index(b), k);
  }

  /** The bytes from i on are those of c0 + 1, up to a carry that is still to reach byte i - 1. */
  ghost predicate Carrying(c0: seq<Byte>, c: seq<Byte>, i: nat)
  {
    i <= |c| == |c0| && c[..i] == c0[..i] && Add(c0, 1) == Add(c0[..i], 1) + c[i..]
  }

  lemma CarryingEnds(c0: seq<Byte>, c: seq<Byte>)
    ensures Carrying(c0, c0, |c0|)
    ensures Carrying(c0, c, 0) ==> c == Add(c0, 1)
  {
    hide Index, ToByte, Add;
    assert c0[..|c0|] == c0 && c0[|c0|..] == [] && Add(c0, 1) + [] == Add(c0, 1);
    if Carrying(c0, c, 0) {
      AddEmpty(1);
      assert c0[..0] == [] && c[0..] == c;
    }
  }

  /** One byte: the carry goes on exactly when it wraps. */
  lemma CarryByte(c0: seq<Byte>, c: seq<Byte>, i: nat)
    requires 0 < i <= |c| && Carrying(c0, c, i)
    ensures var next := c[i - 1 := c[i - 1] + 1];
            if next[i - 1] == 0 then Carrying(c0, next, i - 1) else next == Add(c0, 1)
  {
    hide Index, ToByte, Add;
    var k := i - 1;
    var head, b, next := c0[..k], c[k], c[k := c[k] + 1];
    assert c0[..i] == head + [b] by { assert c0[k] == c0[..i][k] == c[..i][k]; }
    assert next[..k] == c[..k] == c[..i][..k] == head;
    assert next[k..] == [next[k]] + c[i..];
    AddLast(head, b, 1);
    IncrementByte(b);
    AddZero(head);
    assert next == head + next[k..];
    assert head + [next[k]] + c[i..] == head + ([next[k]] + c[i..]);
  }

  /** incCounter: ++ from the last byte upward, stopping at the first byte that does not wrap. */
  method IncCounter(ctr: array<Byte>)
    modifies ctr
    ensures ctr[..] == Add(old(ctr[..]), 1)
  {
    hide Index, ToByte, Add, Carrying;
    ghost var c0 := ctr[..];
    CarryingEnds(c0, c0);
    var i := ctr.Length;
    while i > 0
      invariant 0 <= i <= ctr.Length && Carrying(c0, ctr[..], i)
    {
      i := i - 1;
      ghost var c := ctr[..];
      CarryByte(c0, c, i + 1);
      ctr[i] := ctr[i] + 1;
      assert ctr[..] == c[i := c[i] + 1];
      if ctr[i] != 0 { return; }
    }
    CarryingEnds(c0, ctr[..]);
  }

  lemma IncrementByte(b: Byte)
    ensures (Index(b) + 1) / 256 == if b + 1 == 0 then 1 else 0
    ensures ToByte((Index(b) + 1) % 256) == b + 1
  {
    hide Index, ToByte;
    IndexExtremes();
    if b == 0xFF {
      ToByteZero();
    } else {
      IndexSuccessor(b);
      NotWrapped(b);
      ByteRoundTrip(b + 1);
    }
  }

  lemma NotWrapped(b: Byte)
    requires b != 0xFF
    ensures b + 1 != 0
  {
  }

  /** What is left of the addition once the bytes from j on are final. */
  lemma AddStep(c: seq<Byte>, k: nat, j: nat, carry: nat, tail: seq<Byte>)
    requires j < |c| && Add(c, k) == Add(c[..j + 1], carry) + tail
    ensures
      var v := Index(c[j]) + carry;
      Add(c, k) == Add(c[..j], v / 256) + ([ToByte(v % 256)] + tail)
  {
    hide Index, ToByte, Add;
    assert c[..j + 1] == c[..j] + [c[j]];
    AddLast(c[..j], c[j], carry);
  }

  /** One byte of addCounter. */
  method AddToByte(ctr: array<Byte>, j: nat, carry: nat) returns (next: nat)
    requires j < ctr.Length
    modifies ctr
    ensures
      var v := Index(old(ctr[j])) + carry;
      next == v / 256 && ctr[..] == old(ctr[..])[j := ToByte(v % 256)]
  {
    hide Index, ToByte;
    var v := Index(ctr[j]) + carry;
    ctr[j] := ToByte(v % 256);
    next := v / 256;
  }

  /** addCounter: adds a small k by integer carries from the last byte upward. */
  method AddCounter(ctr: array<Byte>, k: nat)
    requires ctr.Length > 0
    modifies ctr
    ensures ctr[..] == Add(old(ctr[..]), k)
  {
    hide Index, ToByte, Add;
    ghost var c0 := ctr[..];
    var last := ctr.Length - 1;
    assert c0[..last + 1] == c0;
    AddStep(c0, k, last, k, []);
    ghost var tail := [ToByte((Index(c0[last]) + k) % 256)] + [];
    var carry := AddToByte(ctr, last, k);
    var j := last - 1;
    while j >= 0 && carry != 0
      invariant -1 <= j < last
      invariant ctr[..] == c0[..j + 1] + tail
      invariant Add(c0, k) == Add(c0[..j + 1], carry) + tail
      decreases j
    {
      AddStep(c0, k, j, carry, tail);
      assert ctr[..][j] == c0[j];
      ghost var b := ToByte((Index(c0[j]) + carry) % 256);
      UpdateAt(c0, j, tail, b);
      carry := AddToByte(ctr, j, carry);
      tail := [b] + tail;
      j := j - 1;
    }
    if carry == 0 {
      AddZero(c0[..j + 1]);
    } else {
      AddEmpty(carry);
    }
  }

  lemma UpdateAt(c: seq<Byte>, j: nat, tail: seq<Byte>, b: Byte)
    requires j < |c|
    ensures (c[..j + 1] + tail)[j := b] == c[..j] + ([b] + tail)
  {
  }

  lemma AddEmpty(k: nat)
    ensures Add([], k) == []
  {
  }
}
