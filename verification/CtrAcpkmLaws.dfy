/** The CTR-ACPKM key stream (RFC 8645, section 6.2.1) in numbers: section keys block by block, counters
    by their value. */
module CtrAcpkmLaws {
  import opened ModArith
  import opened Gf256
  import opened Kuznyechik
  import opened Counters
  import opened Positions
  import opened CtrAcpkm

  /** The constant counts from 0x80 to 0x9F. */
  lemma ConstantCounts(i: nat)
    requires i < KEY_SIZE
    ensures Index(D()[i]) == 0x80 + i
  {
    hide Index, ToByte;
    IndexRoundTrip(0x80 + i);
  }

  /** next is the key after key: each block of the constant, encrypted under it. */
  ghost predicate Follows(s: Suite, key: seq<Byte>, next: seq<Byte>)
    requires s.n > 0
  {
    && |next| == KEY_SIZE
    && forall b: nat :: b < KEY_SIZE / s.n ==> BlockOf(s.n, next, b) == s.enc(key, BlockOf(s.n, D(), b))
  }

  function BlockOf(n: nat, x: seq<Byte>, b: nat): seq<Byte> { if n * b + n <= |x| then x[n * b..n * b + n] else [] }

  lemma NextKeyIs(s: Suite, key: seq<Byte>, next: seq<Byte>)
    requires SuiteOk(s) && KEY_SIZE % s.n == 0 && Follows(s, key, next)
    ensures NextKey(s, key) == next
  {
    hide D, FusedOk;
    var q := KEY_SIZE / s.n;
    assert s.n * q == KEY_SIZE;
    PrefixIs(s, key, next, q);
    assert next[..KEY_SIZE] == next;
  }

  lemma {:induction false} PrefixIs(s: Suite, key: seq<Byte>, next: seq<Byte>, b: nat)
    requires SuiteOk(s) && KEY_SIZE % s.n == 0 && Follows(s, key, next) && b <= KEY_SIZE / s.n
    ensures s.n * b <= KEY_SIZE && MeshedPrefix(s, key, b) == next[..s.n * b]
  {
    hide D, FusedOk;
    MulOrder(b, KEY_SIZE / s.n, s.n);
    assert s.n * (KEY_SIZE / s.n) == KEY_SIZE;
    if b > 0 {
      PrefixIs(s, key, next, b - 1);
      MulStep(s.n, b);
      MeshStep(s, key, b - 1);
      assert BlockOf(s.n, next, b - 1) == s.enc(key, BlockOf(s.n, D(), b - 1));
      assert next[..s.n * b] == next[..s.n * (b - 1)] + BlockOf(s.n, next, b - 1);
    }
  }

  /** The keys of the first sections. */
  ghost predicate KeyRun(s: Suite, key: seq<Byte>, ks: seq<seq<Byte>>)
    requires s.n > 0
  {
    |ks| > 0 && ks[0] == key && forall j :: 0 <= j < |ks| - 1 ==> Follows(s, ks[j], ks[j + 1])
  }

  lemma {:induction false} SectionKeyIs(s: Suite, key: seq<Byte>, ks: seq<seq<Byte>>, j: nat)
    requires SuiteOk(s) && KEY_SIZE % s.n == 0 && KeyRun(s, key, ks) && j < |ks|
    ensures SectionKey(s, key, j) == ks[j]
  {
    hide NextKey, Follows;
    if j > 0 {
      SectionKeyIs(s, key, ks, j - 1);
      assert Follows(s, ks[j - 1], ks[j - 1 + 1]);
      NextKeyIs(s, ks[j - 1], ks[j]);
    }
  }

  /** Stream byte p is byte p mod n of the counter of value IV + p / n, modulo 256^n, encrypted under the key
      of its section. */
  lemma StreamExactly(s: Suite, section: nat, key: seq<Byte>, iv: seq<Byte>, ks: seq<seq<Byte>>, p: nat,
                      j: nat, y: seq<Byte>)
    requires SuiteOk(s) && KEY_SIZE % s.n == 0 && |iv| == s.n && KeyRun(s, key, ks)
    requires section > 0 && j == p / section && j < |ks|
    requires |y| == s.n && Pow(256, s.n) > 0 && Value(y) == (Value(iv) + p / s.n) % Pow(256, s.n)
    ensures |s.enc(ks[j], y)| == s.n && StreamByte(s, section, key, iv, p) == s.enc(ks[j], y)[p % s.n]
  {
    hide Add, Value, Pow, FusedOk, KeyAt, StreamByte, KeyRun, SectionKey;
    SectionKeyIs(s, key, ks, j);
    KeyOfSection(s, section, key, p, j);
    CounterIs(iv, p / s.n, y);
    GammaIs(s, section, key, iv, p, ks[j], y);
  }

  lemma KeyOfSection(s: Suite, section: nat, key: seq<Byte>, p: nat, j: nat)
    requires section > 0 && j == p / section
    ensures KeyAt(s, section, key, p) == SectionKey(s, key, j)
  {
    hide SectionKey;
  }

  lemma GammaIs(s: Suite, section: nat, key: seq<Byte>, iv: seq<Byte>, p: nat, k: seq<Byte>, y: seq<Byte>)
    requires SuiteOk(s) && KeyAt(s, section, key, p) == k && Add(iv, p / s.n) == y
    ensures |s.enc(k, y)| == s.n && StreamByte(s, section, key, iv, p) == s.enc(k, y)[p % s.n]
  {
    hide Add, KeyAt, FusedOk;
  }

  /** Without sections the first key serves throughout. */
  lemma PlainStreamExactly(s: Suite, key: seq<Byte>, iv: seq<Byte>, p: nat, y: seq<Byte>)
    requires SuiteOk(s) && |iv| == s.n
    requires |y| == s.n && Pow(256, s.n) > 0 && Value(y) == (Value(iv) + p / s.n) % Pow(256, s.n)
    ensures |s.enc(key, y)| == s.n && StreamByte(s, 0, key, iv, p) == s.enc(key, y)[p % s.n]
  {
    hide Add, Value, Pow, FusedOk, KeyAt, StreamByte;
    OneKey(s, key, p);
    CounterIs(iv, p / s.n, y);
    GammaIs(s, 0, key, iv, p, key, y);
  }

  lemma OneKey(s: Suite, key: seq<Byte>, p: nat)
    ensures KeyAt(s, 0, key, p) == key
  {
  }

  lemma CounterIs(iv: seq<Byte>, k: nat, y: seq<Byte>)
    requires |y| == |iv| && Pow(256, |iv|) > 0 && Value(y) == (Value(iv) + k) % Pow(256, |iv|)
    ensures Add(iv, k) == y
  {
    hide Add, Value, Pow;
    AddIsModular(iv, k);
    ValueInjective(Add(iv, k), y);
  }
}
