/** What the mode computes (RFC 9058, section 4), in numbers and positions: the counters of both passes,
    the padded input of the MAC, and the sum that is encrypted to the tag. */
module MgmLaws {
  import opened ModArith
  import opened Gf256
  import opened Blocks
  import opened Kuznyechik
  import opened Counters
  import opened MgmField
  import opened Mgm

  // ---- the nonce ----

  predicate AtLeast(b: Byte, m: Byte) { b >= m }

  lemma TopBitRaw(b: Byte)
    ensures TopBit(b) <==> AtLeast(b, 0x80)
    ensures !TopBit(b) ==> AndMask(b, 0x7F) == b && TopBit(OrMask(b, 0x80)) && Xor(OrMask(b, 0x80), b) == 0x80
  {
  }

  lemma AtLeastIndex(b: Byte)
    ensures AtLeast(b, 0x80) <==> Index(b) >= 128
  {
  }

  lemma TopBitIsHigh(b: Byte)
    ensures TopBit(b) <==> Index(b) >= 128
  {
    hide TopBit, AtLeast, Index;
    TopBitRaw(b);
    AtLeastIndex(b);
  }

  /** Seal accepts exactly a nonce of one block whose top bit is 0, with some input whose combined bit
      length is below 2^(n/2). */
  lemma AcceptsExactly(n: nat, nonce: seq<Byte>, pLen: nat, aLen: nat)
    requires n == 8 || n == 16
    ensures Accepts(n, nonce, pLen, aLen) <==>
      |nonce| == n && Index(nonce[0]) < 128 && pLen + aLen > 0 && 8 * aLen + 8 * pLen < Pow(256, n / 2)
  {
    hide TopBit, ValidateLens, MaxFieldLen, Pow, Index;
    LimitsExact(n, aLen, pLen);
    if |nonce| == n { TopBitIsHigh(nonce[0]); }
  }

  /** The seed of the MAC counter: the nonce with its top bit set and nothing else changed. */
  ghost predicate TopSet(nonce: seq<Byte>, z: seq<Byte>)
  {
    |nonce| > 0 && |z| == |nonce| && z[1..] == nonce[1..] && TopBit(z[0]) && Xor(z[0], nonce[0]) == 0x80
  }

  lemma Seeds(nonce: seq<Byte>, z: seq<Byte>)
    requires |nonce| > 0 && !TopBit(nonce[0])
    ensures ClearTop(nonce) == nonce
    ensures TopSet(nonce, z) ==> SetTop(nonce) == z
  {
    hide TopBit, Xor, AndMask, OrMask;
    TopBitRaw(nonce[0]);
    if TopSet(nonce, z) {
      XorCancel(nonce[0], z[0]);
      XorCancel(nonce[0], OrMask(nonce[0], 0x80));
      assert z == [z[0]] + z[1..];
      assert SetTop(nonce) == [OrMask(nonce[0], 0x80)] + nonce[1..];
    }
  }

  // ---- the ciphertext ----

  /** y is the counter y1 with its right half advanced by j. */
  ghost predicate RightAdvanced(n: nat, y1: seq<Byte>, y: seq<Byte>, j: nat)
  {
    var h := n / 2;
    && |y1| == |y| == n && Pow(256, h) > 0
    && y[..h] == y1[..h] && Value(y[h..]) == (Value(y1[h..]) + j) % Pow(256, h)
  }

  /** z is the counter z1 with its left half advanced by j. */
  ghost predicate LeftAdvanced(n: nat, z1: seq<Byte>, z: seq<Byte>, j: nat)
  {
    var h := n / 2;
    && |z1| == |z| == n && Pow(256, h) > 0
    && z[h..] == z1[h..] && Value(z[..h]) == (Value(z1[..h]) + j) % Pow(256, h)
  }

  lemma AdvancedIs(n: nat, a: seq<Byte>, b: seq<Byte>, j: nat)
    requires n % 2 == 0
    ensures RightAdvanced(n, a, b, j) ==> b == IncR(a, j)
    ensures LeftAdvanced(n, a, b, j) ==> b == IncL(a, j)
  {
    hide Value, Pow, IncR, IncL;
    var h := n / 2;
    if RightAdvanced(n, a, b, j) {
      IncRMeans(a, j);
      ValueInjective(b[h..], IncR(a, j)[h..]);
      assert b == b[..h] + b[h..] && IncR(a, j) == IncR(a, j)[..h] + IncR(a, j)[h..];
    }
    if LeftAdvanced(n, a, b, j) {
      IncLMeans(a, j);
      ValueInjective(b[..h], IncL(a, j)[..h]);
      assert b == b[..h] + b[h..] && IncL(a, j) == IncL(a, j)[..h] + IncL(a, j)[h..];
    }
  }

  /** Block j of the ciphertext is the data under the encrypted counter whose right half is j past that
      of E(nonce). */
  lemma CiphertextBlock(m: Params, nonce: seq<Byte>, data: seq<Byte>, j: nat, y: seq<Byte>, k: nat)
    requires ParamsOk(m) && |nonce| == m.n && !TopBit(nonce[0]) && k < m.n && j * m.n + k < |data|
    requires RightAdvanced(m.n, m.enc(nonce), y, j)
    ensures 0 <= j * m.n && CryptSpec(m, nonce, data)[j * m.n + k] == Xor(data[j * m.n + k], m.enc(y)[k])
  {
    hide TopBit, IncR, RightAdvanced, ClearTop;
    MulMono(0, j, m.n);
    AdvancedIs(m.n, m.enc(nonce), y, j);
    Seeds(nonce, nonce);
    ModUnique(j * m.n + k, m.n, j, k);
  }

  // ---- the tag ----

  /** blocks holds data, n bytes a block, the last one filled with zeros. */
  ghost predicate Fills(n: nat, data: seq<Byte>, blocks: seq<seq<Byte>>)
  {
    && |data| <= |blocks| * n < |data| + n
    && forall j :: 0 <= j < |blocks| ==> |blocks[j]| == n && forall k :: 0 <= k < n ==> blocks[j][k] == ByteOrZero(data, j * n + k)
  }

  function ByteOrZero(data: seq<Byte>, i: int): Byte { if 0 <= i < |data| then data[i] else 0 }

  lemma {:induction false} PaddedIs(n: nat, data: seq<Byte>, blocks: seq<seq<Byte>>)
    requires n > 0 && Fills(n, data, blocks)
    ensures Padded(n, data) == blocks
    decreases |data|
  {
    if |data| == 0 {
      NoBlocks(n, |blocks|);
    } else {
      SomeBlocks(n, |blocks|);
      var b := blocks[0];
      assert 0 * n == 0;
      if |data| < n {
        OneBlock(n, |blocks|, |data|);
        assert b == data + Zeros(n - |data|);
      } else {
        assert b == data[..n];
        TailFills(n, data, blocks);
        PaddedIs(n, data[n..], blocks[1..]);
        assert blocks == [b] + blocks[1..];
      }
    }
  }

  lemma NoBlocks(n: nat, l: nat)
    requires l * n < n
    ensures l == 0
  {
    if l > 0 { MulMono(1, l, n); }
  }

  lemma SomeBlocks(n: nat, l: nat)
    requires 0 < l * n
    ensures l > 0
  {
  }

  lemma OneBlock(n: nat, l: nat, d: nat)
    requires 0 < d < n && d <= l * n < d + n
    ensures l == 1
  {
    if l > 1 { MulMono(2, l, n); }
  }

  lemma TailFills(n: nat, data: seq<Byte>, blocks: seq<seq<Byte>>)
    requires n > 0 && Fills(n, data, blocks) && n <= |data| && |blocks| > 0
    ensures Fills(n, data[n..], blocks[1..])
  {
    hide Zeros;
    assert (|blocks| - 1) * n == |blocks| * n - n;
    forall j | 0 <= j < |blocks| - 1
      ensures |blocks[1..][j]| == n && forall k :: 0 <= k < n ==> blocks[1..][j][k] == ByteOrZero(data[n..], j * n + k)
    {
      var b := blocks[j + 1];
      assert blocks[1..][j] == b;
      assert (j + 1) * n == j * n + n;
      MulMono(0, j, n);
      forall k | 0 <= k < n ensures b[k] == ByteOrZero(data[n..], j * n + k) {
        assert b[k] == ByteOrZero(data, (j + 1) * n + k);
      }
    }
  }

  /** The blocks the MAC runs over: the additional data, the ciphertext, and both bit lengths. */
  ghost predicate MacInput(n: nat, ad: seq<Byte>, ct: seq<Byte>, a: seq<seq<Byte>>, c: seq<seq<Byte>>, last: seq<Byte>)
  {
    && Fills(n, ad, a) && Fills(n, ct, c) && |last| == n
    && Value(last[..n / 2]) == 8 * |ad| && Value(last[n / 2..]) == 8 * |ct|
  }

  lemma MacInputIs(n: nat, ad: seq<Byte>, ct: seq<Byte>, a: seq<seq<Byte>>, c: seq<seq<Byte>>, last: seq<Byte>)
    requires (n == 8 || n == 16) && MacInput(n, ad, ct, a, c, last)
    ensures MacBlocks(n, ad, ct) == a + c + [last]
  {
    hide Padded, Fills, FromValue, Value;
    PaddedIs(n, ad, a);
    PaddedIs(n, ct, c);
    FromOfValue(last[..n / 2]);
    FromOfValue(last[n / 2..]);
    assert last == last[..n / 2] + last[n / 2..];
  }

  /** acc is the running sum of the products of the encrypted counters with the blocks; counter i is z1
      with its left half advanced by i. */
  ghost predicate SumRun(m: Params, z1: seq<Byte>, blocks: seq<seq<Byte>>, zs: seq<seq<Byte>>, acc: seq<seq<Byte>>)
    requires ParamsOk(m) && |z1| == m.n && forall i :: 0 <= i < |blocks| ==> |blocks[i]| == m.n
  {
    && |zs| == |blocks| && |acc| == |blocks| + 1 && acc[0] == Zeros(m.n)
    && forall i :: 0 <= i < |blocks| ==>
        LeftAdvanced(m.n, z1, zs[i], i) && |acc[i]| == m.n && acc[i + 1] == XorSeq(acc[i], GfMul(m.enc(zs[i]), blocks[i]))
  }

  lemma {:induction false} TotalRun(m: Params, z1: seq<Byte>, blocks: seq<seq<Byte>>, zs: seq<seq<Byte>>,
                                    acc: seq<seq<Byte>>, j: nat)
    requires ParamsOk(m) && |z1| == m.n && j <= |blocks|
    requires forall i :: 0 <= i < |blocks| ==> |blocks[i]| == m.n
    requires SumRun(m, z1, blocks, zs, acc)
    ensures Total(m, z1, blocks, j) == acc[j]
  {
    hide GfMul, XorSeq, LeftAdvanced, IncL;
    if j > 0 {
      TotalRun(m, z1, blocks, zs, acc, j - 1);
      AdvancedIs(m.n, z1, zs[j - 1], j - 1);
      assert acc[j - 1 + 1] == XorSeq(acc[j - 1], GfMul(m.enc(zs[j - 1]), blocks[j - 1]));
    }
  }

  /** The tag is the leading bytes of the encrypted sum, the counter starting at E of the nonce with its
      top bit set. */
  lemma TagExactly(m: Params, nonce: seq<Byte>, ad: seq<Byte>, ct: seq<Byte>, z0: seq<Byte>,
                   a: seq<seq<Byte>>, c: seq<seq<Byte>>, last: seq<Byte>, zs: seq<seq<Byte>>, acc: seq<seq<Byte>>)
    requires ParamsOk(m) && |nonce| == m.n && !TopBit(nonce[0]) && TopSet(nonce, z0)
    requires MacInput(m.n, ad, ct, a, c, last)
    requires var blocks := a + c + [last];
             (forall i :: 0 <= i < |blocks| ==> |blocks[i]| == m.n) && SumRun(m, m.enc(z0), blocks, zs, acc)
    ensures TagSpec(m, nonce, ad, ct) == m.enc(acc[|a| + |c| + 1])[..m.tagSize]
  {
    hide MacBlocks, Total, SumRun, MacInput, SetTop, TopSet, TopBit;
    MacInputIs(m.n, ad, ct, a, c, last);
    Seeds(nonce, z0);
    TotalRun(m, m.enc(z0), a + c + [last], zs, acc, |a| + |c| + 1);
  }

  /** What Seal appends is the ciphertext, then the tag of the ciphertext. */
  lemma SealedParts(m: Params, nonce: seq<Byte>, pt: seq<Byte>, ad: seq<Byte>)
    requires ParamsOk(m) && |nonce| == m.n
    ensures var s, ct := SealSpec(m, nonce, pt, ad), CryptSpec(m, nonce, pt);
            |s| == |pt| + m.tagSize && s[..|pt|] == ct && s[|pt|..] == TagSpec(m, nonce, ad, ct)
  {
    hide CryptSpec, TagSpec;
  }
}
