/** mgm.go: the Multilinear Galois Mode (RFC 9058, section 4) over any block function. */
module Mgm {
  import opened ModArith
  import opened Positions
  import opened Gf256
  import opened Blocks
  import opened Kuznyechik
  import opened Counters
  import opened MgmField

  /** Block size, tag size and the block cipher under the key in use. */
  datatype Params = Params(n: nat, tagSize: nat, enc: seq<Byte> -> seq<Byte>)

  ghost predicate ParamsOk(m: Params)
  {
    (m.n == 8 || m.n == 16) && 4 <= m.tagSize <= m.n && forall x :: |m.enc(x)| == m.n
  }

  // ---- counters ----

  /** The right half advanced by k, the left half untouched. */
  function IncR(a: seq<Byte>, k: nat): (r: seq<Byte>)
    requires |a| % 2 == 0
    ensures |r| == |a|
  {
    a[..|a| / 2] + Add(a[|a| / 2..], k)
  }

  /** The left half advanced by k, the right half untouched. */
  function IncL(a: seq<Byte>, k: nat): (r: seq<Byte>)
    requires |a| % 2 == 0
    ensures |r| == |a|
  {
    Add(a[..|a| / 2], k) + a[|a| / 2..]
  }

  /** In numbers: the right half counts modulo 256^(n/2). */
  lemma IncRMeans(a: seq<Byte>, k: nat)
    requires |a| % 2 == 0
    ensures var h := |a| / 2;
            Pow(256, h) > 0 && IncR(a, k)[..h] == a[..h] && Value(IncR(a, k)[h..]) == (Value(a[h..]) + k) % Pow(256, h)
  {
    hide Add, Value, Pow;
    AddIsModular(a[|a| / 2..], k);
  }

  /** And so does the left half. */
  lemma IncLMeans(a: seq<Byte>, k: nat)
    requires |a| % 2 == 0
    ensures var h := |a| / 2;
            Pow(256, h) > 0 && IncL(a, k)[h..] == a[h..] && Value(IncL(a, k)[..h]) == (Value(a[..h]) + k) % Pow(256, h)
  {
    hide Add, Value, Pow;
    AddIsModular(a[..|a| / 2], k);
  }

  lemma IncAgain(a: seq<Byte>, k: nat)
    requires |a| % 2 == 0
    ensures IncR(IncR(a, k), 1) == IncR(a, k + 1) && IncL(IncL(a, k), 1) == IncL(a, k + 1)
  {
    hide Add;
    var h := |a| / 2;
    AddAdd(a[h..], k, 1);
    AddAdd(a[..h], k, 1);
    assert IncR(a, k)[..h] == a[..h] && IncR(a, k)[h..] == Add(a[h..], k);
    assert IncL(a, k)[..h] == Add(a[..h], k) && IncL(a, k)[h..] == a[h..];
  }

  lemma IncNone(a: seq<Byte>)
    requires |a| % 2 == 0
    ensures IncR(a, 0) == a && IncL(a, 0) == a
  {
    hide Add;
    var h := |a| / 2;
    AddZero(a[h..]);
    AddZero(a[..h]);
    assert a == a[..h] + a[h..];
  }

  /** The increment loop of incrR and incrL, from hi - 1 down to lo. */
  method IncrementRange(a: array<Byte>, lo: nat, hi: nat)
    requires lo <= hi <= a.Length
    modifies a
    ensures a[..] == old(a[..lo]) + Add(old(a[lo..hi]), 1) + old(a[hi..])
  {
    hide Index, ToByte, Add;
    ghost var a0 := a[..];
    ghost var c := a0[lo..hi];
    assert c[..hi - lo] == c;
    ghost var tail: seq<Byte> := [];
    assert a0 == a0[..hi] + tail + a0[hi..];
    var i := hi;
    while i > lo
      invariant lo <= i <= hi && |tail| == hi - i
      invariant a[..] == a0[..i] + tail + a0[hi..]
      invariant Add(c, 1) == Add(c[..i - lo], 1) + tail
    {
      i := i - 1;
      ghost var b := a0[i] + 1;
      AddStep(c, 1, i - lo, 1, tail);
      IncrementByte(a0[i]);
      RangeUpdate(a0, i, hi, tail, b);
      a[i] := a[i] + 1;
      tail := [b] + tail;
      if a[i] != 0 {
        AddZero(c[..i - lo]);
        RangeDone(a0, lo, i, hi, tail);
        return;
      }
    }
    AddEmpty(1);
    RangeDone(a0, lo, lo, hi, tail);
  }

  lemma RangeUpdate(a: seq<Byte>, i: nat, hi: nat, tail: seq<Byte>, b: Byte)
    requires i < hi <= |a|
    ensures
      var s := a[..i + 1] + tail + a[hi..];
      s[i] == a[i] && s[i := b] == a[..i] + ([b] + tail) + a[hi..]
  {
  }

  lemma RangeDone(a: seq<Byte>, lo: nat, i: nat, hi: nat, tail: seq<Byte>)
    requires lo <= i <= hi <= |a|
    ensures a[..i] + tail + a[hi..] == a[..lo] + (a[lo..hi][..i - lo] + tail) + a[hi..]
  {
    assert a[..i] == a[..lo] + a[lo..hi][..i - lo];
  }

  // ---- what the mode computes ----

  function ClearTop(icn: seq<Byte>): (r: seq<Byte>)
    requires |icn| > 0
    ensures |r| == |icn|
  {
    icn[0 := AndMask(icn[0], 0x7F)]
  }

  function SetTop(icn: seq<Byte>): (r: seq<Byte>)
    requires |icn| > 0
    ensures |r| == |icn|
  {
    icn[0 := OrMask(icn[0], 0x80)]
  }

  function AndMask(b: Byte, m: Byte): Byte { b & m }

  function OrMask(b: Byte, m: Byte): Byte { b | m }

  /** Keystream byte k: byte k mod n of E(Y_1 + k / n on the right half), Y_1 = E(0 || ICN). */
  function GammaByte(m: Params, icn: seq<Byte>, k: nat): Byte
    requires ParamsOk(m) && |icn| == m.n
  {
    m.enc(IncR(m.enc(ClearTop(icn)), k / m.n))[k % m.n]
  }

  function CryptSpec(m: Params, icn: seq<Byte>, data: seq<Byte>): (r: seq<Byte>)
    requires ParamsOk(m) && |icn| == m.n
    ensures |r| == |data|
  {
    seq(|data|, k requires 0 <= k < |data| => Xor(data[k], GammaByte(m, icn, k)))
  }

  lemma CryptInvolution(m: Params, icn: seq<Byte>, data: seq<Byte>)
    requires ParamsOk(m) && |icn| == m.n
    ensures CryptSpec(m, icn, CryptSpec(m, icn, data)) == data
  {
    hide GammaByte, Xor;
    var once := CryptSpec(m, icn, data);
    var r := CryptSpec(m, icn, once);
    forall k | 0 <= k < |data| ensures r[k] == data[k] { XorCancel(GammaByte(m, icn, k), data[k]); }
  }

  /** data cut into blocks of n bytes, the last one filled with zeros. */
  function Padded(n: nat, data: seq<Byte>): (r: seq<seq<Byte>>)
    requires n > 0
    ensures forall j :: 0 <= j < |r| ==> |r[j]| == n
  {
    if |data| == 0 then []
    else if |data| < n then [data + Zeros(n - |data|)]
    else [data[..n]] + Padded(n, data[n..])
  }

  /** The bit lengths of both fields, each in half a block. */
  function LengthBlock(n: nat, aLen: nat, cLen: nat): (r: seq<Byte>)
    requires n == 8 || n == 16
    ensures |r| == n
  {
    FromValue(8 * aLen, n / 2) + FromValue(8 * cLen, n / 2)
  }

  /** The sum of H_i times block i, H_i = E(Z_1 + i on the left half), over the first j blocks. */
  function Total(m: Params, z1: seq<Byte>, blocks: seq<seq<Byte>>, j: nat): (r: seq<Byte>)
    requires ParamsOk(m) && |z1| == m.n && j <= |blocks|
    requires forall i :: 0 <= i < |blocks| ==> |blocks[i]| == m.n
    ensures |r| == m.n
  {
    if j == 0 then Zeros(m.n)
    else XorSeq(Total(m, z1, blocks, j - 1), GfMul(m.enc(IncL(z1, j - 1)), blocks[j - 1]))
  }

  /** Additional data, ciphertext and length block. */
  function MacBlocks(n: nat, ad: seq<Byte>, ct: seq<Byte>): (r: seq<seq<Byte>>)
    requires n == 8 || n == 16
    ensures forall j :: 0 <= j < |r| ==> |r[j]| == n
  {
    Padded(n, ad) + Padded(n, ct) + [LengthBlock(n, |ad|, |ct|)]
  }

  /** The tag: the leading bytes of E of the sum. */
  function TagSpec(m: Params, icn: seq<Byte>, ad: seq<Byte>, ct: seq<Byte>): (t: seq<Byte>)
    requires ParamsOk(m) && |icn| == m.n
    ensures |t| == m.tagSize
  {
    var blocks := MacBlocks(m.n, ad, ct);
    m.enc(Total(m, m.enc(SetTop(icn)), blocks, |blocks|))[..m.tagSize]
  }

  // ---- limits ----

  /** maxFieldLen on a 64-bit platform, where the shift n/2 - 3 is 29 or 61 and always fits. */
  function MaxFieldLen(n: nat): nat
    requires n == 8 || n == 16
  {
    if n == 8 then 0x2000_0000 - 1 else 0x2000_0000_0000_0000 - 1
  }

  /** validateLens, with the wrap-around of its 64-bit arithmetic. */
  predicate ValidateLens(n: nat, aLen: nat, pLen: nat)
    requires n == 8 || n == 16
  {
    var w := 0x1_0000_0000_0000_0000;
    var aBits, pBits := aLen * 8 % w, pLen * 8 % w;
    var sum := (aBits + pBits) % w;
    if aBits > sum then false
    else if n * 8 / 2 >= 64 then true
    else sum < 0x1_0000_0000
  }

  /** What Seal accepts: a nonce of one block with its top bit clear, some input, and lengths
      within the bounds. */
  predicate Accepts(n: nat, nonce: seq<Byte>, pLen: nat, aLen: nat)
    requires n == 8 || n == 16
  {
    && |nonce| == n && !TopBit(nonce[0])
    && !(pLen == 0 && aLen == 0)
    && pLen <= MaxFieldLen(n) && aLen <= MaxFieldLen(n) && ValidateLens(n, aLen, pLen)
  }

  /** The two checks together say exactly that the combined bit length is below 2^(n/2). */
  lemma LimitsExact(n: nat, aLen: nat, pLen: nat)
    requires n == 8 || n == 16
    ensures (aLen <= MaxFieldLen(n) && pLen <= MaxFieldLen(n) && ValidateLens(n, aLen, pLen))
      <==> 8 * aLen + 8 * pLen < Pow(256, n / 2)
  {
    PowHalf();
    var w := 0x1_0000_0000_0000_0000;
    if aLen <= MaxFieldLen(n) && pLen <= MaxFieldLen(n) {
      ModReduced(aLen * 8, w);
      ModReduced(pLen * 8, w);
      var s := aLen * 8 + pLen * 8;
      if s < w { ModReduced(s, w); } else { ModUnique(s, w, 1, s - w); }
    }
  }

  lemma PowHalf()
    ensures Pow(256, 4) == 0x1_0000_0000 && Pow(256, 8) == 0x1_0000_0000_0000_0000
  {
    assert Pow(256, 2) == 65536;
    assert Pow(256, 4) == 65536 * 65536 by { PowAdd(256, 2, 2); }
    PowAdd(256, 4, 4);
  }

  lemma {:induction false} ValueOfFrom(v: nat, n: nat)
    requires v < Pow(256, n)
    ensures Value(FromValue(v, n)) == v
  {
    hide Index, ToByte;
    if n > 0 {
      ValueOfFrom(v / 256, n - 1);
      IndexRoundTrip(v % 256);
      ValueAppend(FromValue(v / 256, n - 1), ToByte(v % 256));
    }
  }

  /** For accepted lengths the length block is never truncated: both halves decode exactly. */
  lemma LengthsNotTruncated(n: nat, nonce: seq<Byte>, pLen: nat, aLen: nat)
    requires n == 8 || n == 16
    requires Accepts(n, nonce, pLen, aLen)
    ensures Value(LengthBlock(n, aLen, pLen)[..n / 2]) == 8 * aLen
    ensures Value(LengthBlock(n, aLen, pLen)[n / 2..]) == 8 * pLen
  {
    hide MaxFieldLen, ValidateLens, FromValue, Value, Pow;
    LimitsExact(n, aLen, pLen);
    ValueOfFrom(8 * aLen, n / 2);
    ValueOfFrom(8 * pLen, n / 2);
  }

  // ---- seal and open ----

  function SealSpec(m: Params, nonce: seq<Byte>, pt: seq<Byte>, ad: seq<Byte>): seq<Byte>
    requires ParamsOk(m) && |nonce| == m.n
  {
    var ct := CryptSpec(m, nonce, pt);
    ct + TagSpec(m, nonce, ad, ct)
  }

  /** None is errOpen. */
  function OpenSpec(m: Params, nonce: seq<Byte>, sealed: seq<Byte>, ad: seq<Byte>): Option<seq<Byte>>
    requires ParamsOk(m) && |nonce| == m.n && !TopBit(nonce[0])
  {
    if |sealed| < m.tagSize then None
    else
      var ct, tag := sealed[..|sealed| - m.tagSize], sealed[|sealed| - m.tagSize..];
      if !Accepts(m.n, nonce, |ct|, |ad|) || tag != TagSpec(m, nonce, ad, ct) then None
      else Some(CryptSpec(m, nonce, ct))
  }

  /** Open succeeds exactly on what Seal produces for an accepted message, and returns it. */
  lemma OpenExactlySealed(m: Params, nonce: seq<Byte>, sealed: seq<Byte>, ad: seq<Byte>, pt: seq<Byte>)
    requires ParamsOk(m) && |nonce| == m.n && !TopBit(nonce[0])
    ensures OpenSpec(m, nonce, sealed, ad) == Some(pt) <==>
      Accepts(m.n, nonce, |pt|, |ad|) && sealed == SealSpec(m, nonce, pt, ad)
  {
    hide CryptSpec, TagSpec, Accepts, TopBit, ParamsOk;
    if |sealed| >= m.tagSize {
      var ct := sealed[..|sealed| - m.tagSize];
      CryptInvolution(m, nonce, ct);
    }
    CryptInvolution(m, nonce, pt);
    var c := CryptSpec(m, nonce, pt);
    var s := SealSpec(m, nonce, pt, ad);
    assert s[..|s| - m.tagSize] == c && s[|s| - m.tagSize..] == TagSpec(m, nonce, ad, c);
    if OpenSpec(m, nonce, sealed, ad) == Some(pt) {
      assert sealed == sealed[..|sealed| - m.tagSize] + sealed[|sealed| - m.tagSize..];
    }
  }

  // ---- the object ----

  /** Byte done is the first of block b. */
  ghost predicate OnBlock(n: nat, done: nat, b: nat)
    requires n > 0
  {
    done % n == 0 && done / n == b
  }

  lemma FirstBlock(n: nat)
    requires n > 0
    ensures OnBlock(n, 0, 0)
  {
    ModUnique(0, n, 0, 0);
  }

  lemma NextBlock(n: nat, done: nat, b: nat)
    requires n > 0 && OnBlock(n, done, b)
    ensures OnBlock(n, done + n, b + 1)
  {
    WholeBlocks(done, n, 1, 0);
  }

  class MGM {
    const p: Params
    const reduction: Byte
    const icn: array<Byte>
    const yi: array<Byte>
    const zi: array<Byte>
    const ek: array<Byte>
    const sum: array<Byte>

    ghost predicate Valid()
    {
      && ParamsOk(p) && reduction == Reduction(p.n)
      && icn.Length == yi.Length == zi.Length == ek.Length == sum.Length == p.n
      && icn != yi && icn != zi && icn != ek && icn != sum
      && yi != zi && yi != ek && yi != sum && zi != ek && zi != sum && ek != sum
    }

    constructor (p: Params)
      requires ParamsOk(p)
      ensures Valid() && this.p == p
      ensures fresh(icn) && fresh(yi) && fresh(zi) && fresh(ek) && fresh(sum)
    {
      this.p, reduction := p, Reduction(p.n);
      icn := new Byte[p.n](_ => 0);
      yi := new Byte[p.n](_ => 0);
      zi := new Byte[p.n](_ => 0);
      ek := new Byte[p.n](_ => 0);
      sum := new Byte[p.n](_ => 0);
    }

    /** cipher.Encrypt into a scratch block. */
    method EncryptInto(dst: array<Byte>, x: seq<Byte>)
      requires Valid() && dst.Length == p.n
      modifies dst
      ensures dst[..] == p.enc(x)
    {
      var y := p.enc(x);
      forall i | 0 <= i < dst.Length { dst[i] := y[i]; }
      assert dst[..] == y;
    }

    /** incrR. */
    method IncrR(a: array<Byte>)
      requires Valid() && a.Length == p.n
      modifies a
      ensures a[..] == IncR(old(a[..]), 1)
      ensures a[..p.n / 2] == old(a[..p.n / 2]) && Pow(256, p.n / 2) > 0
      ensures Value(a[p.n / 2..]) == (Value(old(a[p.n / 2..])) + 1) % Pow(256, p.n / 2)
    {
      hide Add, Value, Pow;
      ghost var a0 := a[..];
      IncrementRange(a, p.n / 2, p.n);
      assert a0[p.n / 2..p.n] == a0[p.n / 2..];
      IncRMeans(a0, 1);
    }

    /** incrL. */
    method IncrL(a: array<Byte>)
      requires Valid() && a.Length == p.n
      modifies a
      ensures a[..] == IncL(old(a[..]), 1)
      ensures a[p.n / 2..] == old(a[p.n / 2..]) && Pow(256, p.n / 2) > 0
      ensures Value(a[..p.n / 2]) == (Value(old(a[..p.n / 2])) + 1) % Pow(256, p.n / 2)
    {
      hide Add, Value, Pow;
      ghost var a0 := a[..];
      IncrementRange(a, 0, p.n / 2);
      assert a0[0..p.n / 2] == a0[..p.n / 2];
      IncLMeans(a0, 1);
    }

    /** The first counter of crypt. */
    method StartCounter()
      requires Valid()
      modifies yi, ek
      ensures yi[..] == p.enc(ClearTop(icn[..]))
    {
      forall i | 0 <= i < p.n { ek[i] := icn[i]; }
      ek[0] := AndMask(ek[0], 0x7F);
      assert ek[..] == ClearTop(icn[..]);
      EncryptInto(yi, ek[..]);
    }

    /** crypt: out and inp are one array from one offset, or different arrays. */
    method Crypt(out: array<Byte>, o: nat, inp: array<Byte>, io: nat, len: nat)
      requires Valid() && o + len <= out.Length && io + len <= inp.Length && (out == inp ==> o == io)
      requires out != icn && out != yi && out != ek && inp != yi && inp != ek && inp != icn
      modifies out, yi, ek
      ensures out[o..o + len] == CryptSpec(p, icn[..], old(inp[io..io + len]))
      ensures out[..o] == old(out[..o]) && out[o + len..] == old(out[o + len..])
    {
      hide IncR, IncL, Xor, GammaByte, ClearTop, OnBlock;
      StartCounter();
      ghost var y1 := yi[..];
      IncNone(y1);
      var done, b := 0, 0;
      FirstBlock(p.n);
      while done < len
        invariant done <= len && (done < len ==> OnBlock(p.n, done, b))
        invariant done < len ==> yi[..] == IncR(y1, b)
        invariant forall k :: 0 <= k < done ==> out[o + k] == Xor(old(inp[io + k]), GammaByte(p, icn[..], k))
        invariant forall k :: 0 <= k < out.Length && !(o <= k < o + done) ==> out[k] == old(out[k])
        invariant inp != out ==> inp[..] == old(inp[..])
      {
        EncryptInto(ek, yi[..]);
        var c := if len - done < p.n then len - done else p.n;
        CryptBlock(out, o, inp, io, done, c, y1, b);
        IncAgain(y1, b);
        IncrR(yi);
        NextBlock(p.n, done, b);
        done := done + c;
        b := b + 1;
      }
    }

    /** One block of crypt: c bytes of the current gamma block. */
    method CryptBlock(out: array<Byte>, o: nat, inp: array<Byte>, io: nat, done: nat, c: nat, ghost y1: seq<Byte>,
                      ghost b: nat)
      requires Valid() && c <= p.n && o + done + c <= out.Length && io + done + c <= inp.Length
      requires (out == inp ==> o == io)
      requires out != icn && out != yi && out != ek && inp != ek
      requires OnBlock(p.n, done, b) && y1 == p.enc(ClearTop(icn[..])) && ek[..] == p.enc(IncR(y1, b))
      modifies out
      ensures forall k :: done <= k < done + c ==> out[o + k] == Xor(old(inp[io + k]), GammaByte(p, icn[..], k))
      ensures forall k :: 0 <= k < out.Length && !(o + done <= k < o + done + c) ==> out[k] == old(out[k])
    {
      hide IncR, Xor;
      for i := 0 to c
        invariant forall k :: done <= k < done + i ==> out[o + k] == Xor(old(inp[io + k]), GammaByte(p, icn[..], k))
        invariant forall k :: 0 <= k < out.Length && !(o + done <= k < o + done + i) ==> out[k] == old(out[k])
      {
        WholeBlocks(done, p.n, 0, i);
        assert ek[i] == ek[..][i] == GammaByte(p, icn[..], done + i);
        out[o + done + i] := Xor(inp[io + done + i], ek[i]);
      }
    }

    /** One MAC block: encrypt the counter, multiply, add, advance. */
    method Absorb(blk: seq<Byte>, ghost z1: seq<Byte>, ghost blocks: seq<seq<Byte>>, ghost j: nat)
      requires Valid() && |z1| == p.n && j < |blocks| && blk == blocks[j]
      requires forall i :: 0 <= i < |blocks| ==> |blocks[i]| == p.n
      requires zi[..] == IncL(z1, j) && sum[..] == Total(p, z1, blocks, j)
      modifies zi, ek, sum
      ensures zi[..] == IncL(z1, j + 1) && sum[..] == Total(p, z1, blocks, j + 1)
    {
      hide IncL, GfMul, XorSeq, Reduction;
      EncryptInto(ek, zi[..]);
      var mul := GfMulLoop(reduction, ek[..], blk);
      AddInto(sum, mul);
      IncAgain(z1, j);
      IncrL(zi);
    }

    /** The process closure of auth: all blocks of data, which are blocks j and on of the MAC input. */
    method Process(data: seq<Byte>, ghost z1: seq<Byte>, ghost blocks: seq<seq<Byte>>, ghost j: nat)
      requires Valid() && |z1| == p.n && j + |Padded(p.n, data)| <= |blocks|
      requires forall i :: 0 <= i < |blocks| ==> |blocks[i]| == p.n
      requires Padded(p.n, data) == blocks[j..j + |Padded(p.n, data)|]
      requires zi[..] == IncL(z1, j) && sum[..] == Total(p, z1, blocks, j)
      modifies zi, ek, sum
      ensures zi[..] == IncL(z1, j + |Padded(p.n, data)|)
      ensures sum[..] == Total(p, z1, blocks, j + |Padded(p.n, data)|)
    {
      hide IncL, Total;
      var rest := data;
      ghost var k: nat := j;
      ghost var end := j + |Padded(p.n, data)|;
      while |rest| > 0
        invariant k + |Padded(p.n, rest)| == end && Padded(p.n, rest) == blocks[k..end]
        invariant zi[..] == IncL(z1, k) && sum[..] == Total(p, z1, blocks, k)
        decreases |rest|
      {
        var blk;
        if |rest| < p.n {
          blk := rest + Zeros(p.n - |rest|);
          PaddedShort(p.n, rest);
          rest := [];
        } else {
          blk := rest[..p.n];
          PaddedLong(p.n, rest);
          rest := rest[p.n..];
        }
        assert blk == blocks[k..end][0];
        assert Padded(p.n, rest) == blocks[k..end][1..];
        Absorb(blk, z1, blocks, k);
        k := k + 1;
      }
    }

    /** auth. */
    method Auth(ad: seq<Byte>, ct: seq<Byte>) returns (tag: seq<Byte>)
      requires Valid()
      modifies zi, ek, sum
      ensures tag == TagSpec(p, icn[..], ad, ct)
    {
      hide IncL, Total, Padded, LengthBlock, SetTop, GfMul;
      StartMac();
      ghost var z1 := zi[..];
      ghost var blocks := MacBlocks(p.n, ad, ct);
      EmptyTotal(p, z1, blocks);
      IncNone(z1);
      ghost var a, c := |Padded(p.n, ad)|, |Padded(p.n, ct)|;
      MacParts(p.n, ad, ct);
      Process(ad, z1, blocks, 0);
      Process(ct, z1, blocks, a);
      var lenB := LengthBlock(p.n, |ad|, |ct|);
      Absorb(lenB, z1, blocks, a + c);
      EncryptInto(ek, sum[..]);
      tag := ek[..p.tagSize];
      assert tag == ek[..][..p.tagSize];
    }

    /** The first counter and an empty sum. */
    method StartMac()
      requires Valid()
      modifies zi, ek, sum
      ensures zi[..] == p.enc(SetTop(icn[..])) && sum[..] == Zeros(p.n)
    {
      forall i | 0 <= i < p.n { ek[i] := icn[i]; }
      ek[0] := OrMask(ek[0], 0x80);
      ghost var z0 := SetTop(icn[..]);
      assert ek[..] == z0;
      EncryptInto(zi, ek[..]);
      ghost var z1 := zi[..];
      forall i | 0 <= i < p.n { sum[i] := 0; }
      assert zi[..] == z1 && SetTop(icn[..]) == z0;
      assert sum[..] == Zeros(p.n);
    }

    /** Seal; None where the program panics. */
    method Seal(dst: seq<Byte>, nonce: seq<Byte>, pt: seq<Byte>, ad: seq<Byte>) returns (r: Option<seq<Byte>>)
      requires Valid()
      modifies icn, yi, zi, ek, sum
      ensures r == if Accepts(p.n, nonce, |pt|, |ad|) then Some(dst + SealSpec(p, nonce, pt, ad)) else None
    {
      hide CryptSpec, TagSpec, MaxFieldLen, ValidateLens, TopBit;
      if |nonce| != p.n || TopBit(nonce[0]) { return None; }
      if |pt| == 0 && |ad| == 0 { return None; }
      if |pt| > MaxFieldLen(p.n) || |ad| > MaxFieldLen(p.n) { return None; }
      if !ValidateLens(p.n, |ad|, |pt|) { return None; }
      StoreNonce(nonce);
      var buf := new Byte[|pt|](i requires 0 <= i < |pt| => pt[i]);
      assert buf[..] == pt && buf[0..|pt|] == pt;
      Crypt(buf, 0, buf, 0, |pt|);
      assert buf[..] == buf[0..|pt|];
      var ct := buf[..];
      var tag := Auth(ad, ct);
      r := Some(dst + (ct + tag));
    }

    method StoreNonce(nonce: seq<Byte>)
      requires Valid() && |nonce| == p.n
      modifies icn
      ensures icn[..] == nonce
    {
      forall i | 0 <= i < p.n { icn[i] := nonce[i]; }
    }

    /** Open: None is a panic on the nonce; Some(None) is errOpen. */
    method Open(dst: seq<Byte>, nonce: seq<Byte>, sealed: seq<Byte>, ad: seq<Byte>)
      returns (r: Option<Option<seq<Byte>>>)
      requires Valid()
      modifies icn, yi, zi, ek, sum
      ensures |nonce| != p.n || TopBit(nonce[0]) ==> r == None
      ensures |nonce| == p.n && !TopBit(nonce[0]) ==>
        r == Some(match OpenSpec(p, nonce, sealed, ad) case None => None case Some(pt) => Some(dst + pt))
    {
      hide CryptSpec, TagSpec, MaxFieldLen, ValidateLens, TopBit;
      if |nonce| != p.n || TopBit(nonce[0]) { return None; }
      if |sealed| < p.tagSize { return Some(None); }
      var ct := sealed[..|sealed| - p.tagSize];
      var recvTag := sealed[|sealed| - p.tagSize..];
      if |ct| == 0 && |ad| == 0 { return Some(None); }
      if |ct| > MaxFieldLen(p.n) || |ad| > MaxFieldLen(p.n) { return Some(None); }
      if !ValidateLens(p.n, |ad|, |ct|) { return Some(None); }
      StoreNonce(nonce);
      var expTag := Auth(ad, ct);
      if expTag != recvTag { return Some(None); }
      var out := new Byte[|ct|](i requires 0 <= i < |ct| => ct[i]);
      assert out[..] == ct && out[0..|ct|] == ct;
      Crypt(out, 0, out, 0, |ct|);
      assert out[..] == out[0..|ct|];
      r := Some(Some(dst + out[..]));
    }
  }

  lemma EmptyTotal(m: Params, z1: seq<Byte>, blocks: seq<seq<Byte>>)
    requires ParamsOk(m) && |z1| == m.n
    requires forall i :: 0 <= i < |blocks| ==> |blocks[i]| == m.n
    ensures Total(m, z1, blocks, 0) == Zeros(m.n)
  {
    hide IncL, GfMul;
  }

  /** NewMGM: an object exactly for the two block sizes and a tag of 4 bytes up to a block. */
  method NewMGM(n: nat, tagSize: nat, enc: seq<Byte> -> seq<Byte>) returns (r: Option<MGM>)
    requires forall x :: |enc(x)| == n
    ensures r.Some? <==> (n == 8 || n == 16) && 4 <= tagSize <= n
    ensures r.Some? ==> r.value.Valid() && r.value.p == Params(n, tagSize, enc)
  {
    if n != 8 && n != 16 { return None; }
    if tagSize < 4 || tagSize > n { return None; }
    var m := new MGM(Params(n, tagSize, enc));
    return Some(m);
  }

  lemma MacParts(n: nat, ad: seq<Byte>, ct: seq<Byte>)
    requires n == 8 || n == 16
    ensures
      var b, a, c := MacBlocks(n, ad, ct), |Padded(n, ad)|, |Padded(n, ct)|;
      |b| == a + c + 1 && b[0..a] == Padded(n, ad) && b[a..a + c] == Padded(n, ct) &&
      b[a + c] == LengthBlock(n, |ad|, |ct|)
  {
    hide Padded, LengthBlock;
  }

  lemma PaddedShort(n: nat, d: seq<Byte>)
    requires 0 < |d| < n
    ensures Padded(n, d) == [d + Zeros(n - |d|)] && Padded(n, []) == []
  {
  }

  lemma PaddedLong(n: nat, d: seq<Byte>)
    requires 0 < n <= |d|
    ensures Padded(n, d) == [d[..n]] + Padded(n, d[n..])
  {
  }
}
