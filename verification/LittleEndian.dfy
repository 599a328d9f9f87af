/** Little-endian byte strings as numbers, and the byte-wise addition with carry that add512 and
    addMod share. */
module LittleEndian {
  import opened ModArith
  import opened Gf256
  import opened Blocks
  import opened Kuznyechik

  /** Little-endian value. */
  function ValueLE(b: seq<Byte>): nat
  {
    if |b| == 0 then 0 else Index(b[0]) + 256 * ValueLE(b[1..])
  }

  /** The n low bytes of v, little-endian. */
  function FromLE(v: nat, n: nat): (r: seq<Byte>)
    ensures |r| == n
  {
    if n == 0 then [] else [ToByte(v % 256)] + FromLE(v / 256, n - 1)
  }

  /** The sum of a, b and a carry, byte by byte, the final carry lost. */
  function SumLE(a: seq<Byte>, b: seq<Byte>, carry: nat): (r: seq<Byte>)
    requires |a| == |b|
    ensures |r| == |a|
  {
    if |a| == 0 then []
    else
      var s := Index(a[0]) + Index(b[0]) + carry;
      [ToByte(s % 256)] + SumLE(a[1..], b[1..], s / 256)
  }

  /** Byte-wise addition is addition modulo 256^n. */
  lemma {:induction false} SumIsModular(a: seq<Byte>, b: seq<Byte>, carry: nat)
    requires |a| == |b|
    ensures SumLE(a, b, carry) == FromLE(ValueLE(a) + ValueLE(b) + carry, |a|)
  {
    hide Index, ToByte;
    if |a| > 0 {
      var s := Index(a[0]) + Index(b[0]) + carry;
      SumIsModular(a[1..], b[1..], s / 256);
      CarryOver(ValueLE(a[1..]) + ValueLE(b[1..]), s);
    }
  }

  lemma CarryOver(v: nat, s: nat)
    ensures (256 * v + s) % 256 == s % 256 && (256 * v + s) / 256 == v + s / 256
  {
  }

  lemma {:induction false} LEOfValue(b: seq<Byte>)
    ensures FromLE(ValueLE(b), |b|) == b
  {
    hide Index, ToByte;
    if |b| > 0 {
      LEOfValue(b[1..]);
      ByteRoundTrip(b[0]);
      CarryOver(ValueLE(b[1..]), Index(b[0]));
      assert b == [b[0]] + b[1..];
    }
  }

  /** FromLE reduces modulo 256^n. */
  lemma {:induction false} ValueOfLE(v: nat, n: nat)
    ensures Pow(256, n) > 0 && ValueLE(FromLE(v, n)) == v % Pow(256, n)
  {
    hide Index, ToByte, ValueLE, FromLE, Pow;
    PowPositive(256, n);
    if n == 0 {
      ZeroWidth(v);
    } else {
      ValueOfLE(v / 256, n - 1);
      IndexRoundTrip(v % 256);
      LEStep(v, n);
      ValuePrepend(ToByte(v % 256), FromLE(v / 256, n - 1));
      var m, p := Pow(256, n - 1), Pow(256, n);
      PowByte(n);
      ShiftedRemainder(v, m, p, ValueLE(FromLE(v / 256, n - 1)));
    }
  }

  lemma ZeroWidth(v: nat)
    ensures ValueLE(FromLE(v, 0)) == 0 && Pow(256, 0) == 1
  {
  }

  lemma LEStep(v: nat, n: nat)
    requires n > 0
    ensures FromLE(v, n) == [ToByte(v % 256)] + FromLE(v / 256, n - 1)
  {
    hide ToByte;
  }

  lemma ValuePrepend(b: Byte, rest: seq<Byte>)
    ensures ValueLE([b] + rest) == Index(b) + 256 * ValueLE(rest)
  {
    hide Index;
    assert ([b] + rest)[1..] == rest;
  }

  lemma ShiftedRemainder(v: nat, m: int, p: int, x: nat)
    requires m > 0 && p == 256 * m && x == v / 256 % m
    ensures v % p == v % 256 + 256 * x
  {
    var q := v / 256 / m;
    DivMod(v / 256, m);
    assert p * q == 256 * (m * q);
    ModUnique(v, p, q, v % 256 + 256 * x);
  }

  /** A reduction in between does not matter. */
  lemma {:induction false} LEReduced(v: nat, w: nat, n: nat)
    ensures FromLE(ValueLE(FromLE(v, n)) + w, n) == FromLE(v + w, n)
  {
    hide Index, ToByte;
    if n > 0 {
      var q, r := v / 256, v % 256;
      var f := FromLE(v, n);
      assert f[1..] == FromLE(q, n - 1);
      IndexRoundTrip(r);
      var u := ValueLE(f[1..]);
      assert ValueLE(f) == r + 256 * u;
      CarryOver(u, r + w);
      CarryOver(q, r + w);
      LEReduced(q, (r + w) / 256, n - 1);
    }
  }

  /** The loop of add512 and addMod: s = a[i] + b[i] + carry, the low byte stored, the rest carried. */
  method AddBytes(a: seq<Byte>, b: seq<Byte>) returns (r: seq<Byte>)
    requires |a| == |b|
    ensures r == FromLE(ValueLE(a) + ValueLE(b), |a|)
  {
    hide Index, ToByte, SumLE, FromLE, ValueLE;
    r := [];
    var carry: nat := 0;
    assert a[0..] == a && b[0..] == b;
    SumIsModular(a, b, 0);
    for i := 0 to |a|
      invariant |r| == i && carry <= 1
      invariant SumLE(a, b, 0) == r + SumLE(a[i..], b[i..], carry)
    {
      SumStep(a, b, i, carry);
      var s := Index(a[i]) + Index(b[i]) + carry;
      ghost var rest := SumLE(a[i + 1..], b[i + 1..], s / 256);
      assert r + ([ToByte(s % 256)] + rest) == (r + [ToByte(s % 256)]) + rest;
      r := r + [ToByte(s % 256)];
      carry := s / 256;
    }
    SumNothing(a[|a|..], b[|a|..], carry);
  }

  lemma SumNothing(a: seq<Byte>, b: seq<Byte>, carry: nat)
    requires a == [] && b == []
    ensures SumLE(a, b, carry) == []
  {
  }

  lemma SumStep(a: seq<Byte>, b: seq<Byte>, i: nat, carry: nat)
    requires |a| == |b| && i < |a|
    ensures
      var s := Index(a[i]) + Index(b[i]) + carry;
      SumLE(a[i..], b[i..], carry) == [ToByte(s % 256)] + SumLE(a[i + 1..], b[i + 1..], s / 256)
  {
    hide Index, ToByte;
    assert a[i..][1..] == a[i + 1..] && b[i..][1..] == b[i + 1..];
  }

  lemma {:induction false} ZeroLE(n: nat)
    ensures FromLE(0, n) == Zeros(n)
  {
    assert ToByte(0) == 0;
    hide ToByte;
    if n > 0 {
      ZeroLE(n - 1);
      assert Zeros(n) == [0] + Zeros(n - 1);
    }
  }
}
