/** Big- and little-endian integer codecs of the signature, key-agreement and scalar code. */
module Bytes {
  import opened ModArith

  type Octet = x: int | 0 <= x < 256

  /** Value of big-endian bytes (big.Int.SetBytes). */
  function BE(b: seq<Octet>): nat
  {
    if |b| == 0 then 0 else BE(b[..|b| - 1]) * 256 + b[|b| - 1]
  }

  function Reversed(b: seq<Octet>): (r: seq<Octet>)
    ensures |r| == |b|
  {
    seq(|b|, i requires 0 <= i < |b| => b[|b| - 1 - i])
  }

  /** Value of little-endian bytes. */
  function LE(b: seq<Octet>): nat { BE(Reversed(b)) }

  /** Minimal big-endian bytes (big.Int.Bytes). */
  function MinBytes(n: nat): seq<Octet>
  {
    if n == 0 then [] else MinBytes(n / 256) + [n % 256]
  }

  /** The size low bytes of n, big-endian. */
  function ToBE(n: nat, size: nat): (b: seq<Octet>)
    ensures |b| == size
  {
    if size == 0 then [] else ToBE(n / 256, size - 1) + [n % 256]
  }

  lemma {:induction false} BEBound(b: seq<Octet>)
    ensures BE(b) < Pow(256, |b|)
  {
    if |b| > 0 { BEBound(b[..|b| - 1]); }
  }

  lemma {:induction false} BEToBE(n: nat, size: nat)
    requires n < Pow(256, size)
    ensures BE(ToBE(n, size)) == n
  {
    if size > 0 {
      BEToBE(n / 256, size - 1);
      var b := ToBE(n, size);
      assert b[..|b| - 1] == ToBE(n / 256, size - 1);
    }
  }

  /** The weight of each byte: byte i of n is digit n - 1 - i of the value in base 256. */
  lemma {:induction false} BEDigit(b: seq<Octet>, i: nat)
    requires i < |b|
    ensures Pow(256, |b| - 1 - i) > 0 && BE(b) / Pow(256, |b| - 1 - i) % 256 == b[i]
  {
    hide BE, Pow;
    var n := |b| - 1;
    var p := b[..n];
    LastOctet(b);
    PowPositive(256, n - i);
    if i < n {
      BEDigit(p, i);
      PowByte(n - i);
      DigitAbove(BE(p), b[n], Pow(256, n - 1 - i), Pow(256, n - i));
    } else {
      LastDigit(BE(p), b[n]);
    }
  }

  lemma LastOctet(b: seq<Octet>)
    requires |b| > 0
    ensures BE(b) == 256 * BE(b[..|b| - 1]) + b[|b| - 1]
  {
  }

  lemma {:induction false} ToBEOfBE(b: seq<Octet>)
    ensures ToBE(BE(b), |b|) == b
  {
    if |b| > 0 {
      ToBEOfBE(b[..|b| - 1]);
      assert b == b[..|b| - 1] + [b[|b| - 1]];
    }
  }

  lemma {:induction false} ToBEZero(size: nat)
    ensures forall i :: 0 <= i < size ==> ToBE(0, size)[i] == 0
  {
    if size > 0 { ToBEZero(size - 1); }
  }

  /** The minimal encoding, cut to its size low bytes when it is longer. */
  function LowBytes(n: nat, size: nat): (b: seq<Octet>)
    ensures |b| <= size
  {
    var b := MinBytes(n);
    if |b| > size then b[|b| - size..] else b
  }

  /** Left-padded with zeros it is the fixed-width encoding, for every n. */
  lemma LowBytesStep(n: nat, size: nat)
    requires n > 0 && size > 0
    ensures LowBytes(n, size) == LowBytes(n / 256, size - 1) + [n % 256]
  {
    var c := MinBytes(n / 256);
    assert MinBytes(n) == c + [n % 256];
    if |c| + 1 > size { SplitLast(c, n % 256, |c| + 1 - size); }
  }

  lemma SplitLast(t: seq<Octet>, x: Octet, k: nat)
    requires k <= |t|
    ensures (t + [x])[..k] == t[..k] && (t + [x])[k..] == t[k..] + [x]
  {
  }

  lemma {:induction false} PaddedLowBytes(n: nat, size: nat)
    ensures ToBE(n, size)[..size - |LowBytes(n, size)|] == ToBE(0, size - |LowBytes(n, size)|)
    ensures ToBE(n, size)[size - |LowBytes(n, size)|..] == LowBytes(n, size)
  {
    if n == 0 || size == 0 {
      assert LowBytes(n, size) == [];
      assert ToBE(n, size)[..size] == ToBE(n, size) == ToBE(0, size) && ToBE(n, size)[size..] == [];
      hide LowBytes, ToBE;
    } else {
      PaddedLowBytes(n / 256, size - 1);
      var t, c, x := ToBE(n / 256, size - 1), LowBytes(n / 256, size - 1), n % 256;
      LowBytesStep(n, size);
      assert ToBE(n, size) == t + [x];
      hide LowBytes, ToBE;
      var k := size - 1 - |c|;
      SplitLast(t, x, k);
      assert size - |LowBytes(n, size)| == k;
    }
  }

  /** The padded encoding, byte by byte. */
  lemma PaddedByte(n: nat, size: nat)
    ensures var b := LowBytes(n, size);
            && (forall j :: 0 <= j < size - |b| ==> ToBE(n, size)[j] == 0)
            && (forall j :: size - |b| <= j < size ==> ToBE(n, size)[j] == b[j - (size - |b|)])
  {
    hide LowBytes, ToBE;
    var t, b := ToBE(n, size), LowBytes(n, size);
    var k := size - |b|;
    PaddedLowBytes(n, size);
    ToBEZero(k);
    forall j | 0 <= j < k ensures t[j] == 0 { assert t[j] == t[..k][j]; }
    forall j | k <= j < size ensures t[j] == b[j - k] { assert t[j] == t[k..][j - k]; }
  }

  lemma ReversedTwice(b: seq<Octet>)
    ensures Reversed(Reversed(b)) == b
  {
  }

  /** A byte-reversed copy. */
  method Reverse(b: seq<Octet>) returns (out: seq<Octet>)
    ensures out == Reversed(b)
  {
    var o := new Octet[|b|];
    for i := 0 to |b|
      invariant forall j :: 0 <= j < i ==> o[|b| - 1 - j] == b[j]
    {
      o[|b| - 1 - i] := b[i];
    }
    out := o[..];
    forall k | 0 <= k < |b| ensures out[k] == b[|b| - 1 - k] {
      assert o[|b| - 1 - (|b| - 1 - k)] == b[|b| - 1 - k];
    }
  }

  /** fillBE: n right-aligned and zero-padded in dst[lo..hi]; high bytes that do not fit are dropped. */
  method FillBE(dst: array<Octet>, lo: nat, hi: nat, n: nat)
    requires lo <= hi <= dst.Length
    modifies dst
    ensures dst[lo..hi] == ToBE(n, hi - lo)
    ensures dst[..lo] == old(dst[..lo]) && dst[hi..] == old(dst[hi..])
  {
    hide LowBytes, ToBE, MinBytes;
    var size := hi - lo;
    var b := MinBytes(n);
    if |b| > size { b := b[|b| - size..]; }
    LowBytesCut(n, size);
    for i := lo to hi
      invariant forall j :: lo <= j < i ==> dst[j] == 0
      invariant dst[..lo] == old(dst[..lo]) && dst[hi..] == old(dst[hi..])
    {
      dst[i] := 0;
    }
    var k := size - |b|;
    for i := 0 to |b|
      invariant forall j :: lo <= j < lo + k ==> dst[j] == 0
      invariant forall j :: 0 <= j < i ==> dst[lo + k + j] == b[j]
      invariant dst[..lo] == old(dst[..lo]) && dst[hi..] == old(dst[hi..])
    {
      dst[lo + k + i] := b[i];
    }
    Filled(dst[..], lo, hi, n);
    assert dst[..][lo..hi] == dst[lo..hi];
  }

  lemma LowBytesCut(n: nat, size: nat)
    ensures LowBytes(n, size) == if |MinBytes(n)| > size then MinBytes(n)[|MinBytes(n)| - size..] else MinBytes(n)
  {
  }

  /** Zeros below the low bytes of n make its fixed-width encoding. */
  lemma Filled(d: seq<Octet>, lo: nat, hi: nat, n: nat)
    requires lo <= hi <= |d|
    requires var b := LowBytes(n, hi - lo);
             && (forall j :: lo <= j < hi - |b| ==> d[j] == 0)
             && (forall j :: 0 <= j < |b| ==> d[hi - |b| + j] == b[j])
    ensures d[lo..hi] == ToBE(n, hi - lo)
  {
    hide LowBytes, ToBE;
    var size, t, b := hi - lo, ToBE(n, hi - lo), LowBytes(n, hi - lo);
    PaddedByte(n, size);
    var k := size - |b|;
    forall j | 0 <= j < size ensures d[lo + j] == t[j] {
      if j >= k { assert d[hi - |b| + (j - k)] == b[j - k]; }
    }
  }

  /** The same for the reversed encoding. */
  lemma FilledReversed(d: seq<Octet>, lo: nat, hi: nat, n: nat)
    requires lo <= hi <= |d|
    requires var b := Reversed(LowBytes(n, hi - lo));
             && (forall j :: lo <= j < lo + |b| ==> d[j] == b[j - lo])
             && (forall j :: lo + |b| <= j < hi ==> d[j] == 0)
    ensures d[lo..hi] == Reversed(ToBE(n, hi - lo))
  {
    hide LowBytes, ToBE, Reversed;
    var size, t, b := hi - lo, Reversed(ToBE(n, hi - lo)), Reversed(LowBytes(n, hi - lo));
    ReversedPadded(n, size);
    forall j | 0 <= j < size ensures d[lo + j] == t[j] {
      if j < |b| { assert d[lo + j] == b[lo + j - lo]; }
    }
  }

  /** putLE: n little-endian, zero-padded at the high end, in dst[lo..hi]. */
  method PutLE(dst: array<Octet>, lo: nat, hi: nat, n: nat)
    requires lo <= hi <= dst.Length
    modifies dst
    ensures dst[lo..hi] == Reversed(ToBE(n, hi - lo))
    ensures dst[..lo] == old(dst[..lo]) && dst[hi..] == old(dst[hi..])
  {
    hide LowBytes, ToBE, MinBytes;
    var size := hi - lo;
    var b := MinBytes(n);
    if |b| > size { b := b[|b| - size..]; }
    LowBytesCut(n, size);
    for i := lo to hi
      invariant forall j :: lo <= j < i ==> dst[j] == 0
      invariant dst[..lo] == old(dst[..lo]) && dst[hi..] == old(dst[hi..])
    {
      dst[i] := 0;
    }
    ghost var rb := Reversed(b);
    for i := 0 to |b|
      invariant forall j :: lo <= j < lo + i ==> dst[j] == rb[j - lo]
      invariant forall j :: lo + |b| <= j < hi ==> dst[j] == 0
      invariant dst[..lo] == old(dst[..lo]) && dst[hi..] == old(dst[hi..])
    {
      dst[lo + i] := b[|b| - 1 - i];
    }
    FilledReversed(dst[..], lo, hi, n);
    assert dst[..][lo..hi] == dst[lo..hi];
  }

  lemma ReversedPadded(n: nat, size: nat)
    ensures forall j :: 0 <= j < size ==>
      Reversed(ToBE(n, size))[j] == (if j < |LowBytes(n, size)| then Reversed(LowBytes(n, size))[j] else 0)
  {
    PaddedByte(n, size);
    hide LowBytes, ToBE;
  }

  lemma LEOfReversed(n: nat, size: nat)
    requires n < Pow(256, size)
    ensures LE(Reversed(ToBE(n, size))) == n
  {
    ReversedTwice(ToBE(n, size));
    BEToBE(n, size);
  }
}
