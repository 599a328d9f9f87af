/** ctracpkm.go: the CTR-ACPKM key stream (RFC 8645, section 6.2.1) as an object with carried
    state, against the stream it must produce. The block cipher is any function of key and block. */
module CtrAcpkm {
  import opened Positions
  import ModArith
  import opened Gf256
  import opened Blocks
  import opened Kuznyechik
  import opened Counters
  import KuznyechikSimd
  import KuznyechikBulk

  const KEY_SIZE: nat := 32
  const MIN_BULK_BLOCKS: nat := 32
  const MAX_BULK_BLOCKS: nat := 256

  /** A block cipher family: block size, encryption under a key, which of the optional batch
      interfaces the cipher built for a key implements, and the vector tables the fused one reads. */
  datatype Suite = Suite(n: nat, enc: (seq<Byte>, seq<Byte>) -> seq<Byte>, bulk: seq<Byte> -> bool,
                         fused: seq<Byte> -> bool, pi: Sbox, tables: KuznyechikSimd.Tables)

  ghost predicate SuiteOk(s: Suite)
  {
    s.n > 0 && (forall k, x :: |s.enc(k, x)| == s.n) && forall k :: s.fused(k) ==> FusedOk(s, k)
  }

  /** The only cipher that offers the fused call is Kuznyechik. */
  ghost predicate FusedOk(s: Suite, key: seq<Byte>)
  {
    && s.n == 16 && |key| == 32 && KuznyechikSimd.TablesOk(s.pi, s.tables)
    && forall x: Block :: s.enc(key, x) == E(s.pi, key, x)
  }

  /** The constant D: bytes 0x80 to 0x9F. */
  function D(): (d: seq<Byte>)
    ensures |d| == KEY_SIZE
  {
    seq(KEY_SIZE, i requires 0 <= i < KEY_SIZE => ToByte(0x80 + i))
  }

  /** The first m bytes of the next section key, m a multiple of the block size. */
  function MeshedPrefix(s: Suite, key: seq<Byte>, blocks: nat): seq<Byte>
    requires s.n * blocks <= KEY_SIZE
    decreases blocks
  {
    if blocks == 0 then []
    else
      MulStep(s.n, blocks);
      MeshedPrefix(s, key, blocks - 1) + s.enc(key, D()[s.n * (blocks - 1)..s.n * blocks])
  }

  lemma MulStep(n: nat, b: nat)
    requires b > 0
    ensures 0 <= n * (b - 1) <= n * b && n * b == n * (b - 1) + n
  {
  }

  lemma MeshStep(s: Suite, key: seq<Byte>, b: nat)
    requires s.n > 0 && KEY_SIZE % s.n == 0 && s.n * b < KEY_SIZE
    ensures s.n * b + s.n == s.n * (b + 1) <= KEY_SIZE
    ensures MeshedPrefix(s, key, b + 1) == MeshedPrefix(s, key, b) + s.enc(key, D()[s.n * b..s.n * b + s.n])
  {
    hide D;
    var q := KEY_SIZE / s.n;
    assert s.n * q == KEY_SIZE;
    MulStep(s.n, b + 1);
    if b >= q { MulOrder(q, b, s.n); } else { MulOrder(b + 1, q, s.n); }
  }

  lemma MeshDone(n: nat, b: nat)
    requires n > 0 && n * b == KEY_SIZE
    ensures b == KEY_SIZE / n
  {
    ModArith.ModUnique(KEY_SIZE, n, b, 0);
  }

  /** The ACPKM transformation: D encrypted block by block under the retiring key. */
  function NextKey(s: Suite, key: seq<Byte>): seq<Byte>
  {
    if s.n == 0 || s.n * (KEY_SIZE / s.n) > KEY_SIZE then key else MeshedPrefix(s, key, KEY_SIZE / s.n)
  }

  /** The j-th section key. */
  function SectionKey(s: Suite, key: seq<Byte>, j: nat): seq<Byte>
  {
    if j == 0 then key else NextKey(s, SectionKey(s, key, j - 1))
  }

  /** The key of the section that holds stream byte p; section size 0 means one endless section. */
  function KeyAt(s: Suite, section: nat, key: seq<Byte>, p: nat): seq<Byte>
  {
    if section == 0 then key else SectionKey(s, key, p / section)
  }

  /** The keystream block that holds byte p. */
  function GammaAt(s: Suite, section: nat, key: seq<Byte>, iv: seq<Byte>, p: nat): (g: seq<Byte>)
    requires SuiteOk(s)
    ensures |g| == s.n
  {
    s.enc(KeyAt(s, section, key, p), Add(iv, p / s.n))
  }

  /** Stream byte p: byte p mod n of E_K(iv + p / n), K the key of p's section. */
  function StreamByte(s: Suite, section: nat, key: seq<Byte>, iv: seq<Byte>, p: nat): Byte
    requires SuiteOk(s)
  {
    GammaAt(s, section, key, iv, p)[p % s.n]
  }

  // ---- the object ----

  /** Counter blocks used up by the first p bytes. */
  function BlocksBegun(n: nat, p: nat): nat
    requires n > 0
  {
    if p % n == 0 then p / n else p / n + 1
  }

  /** Keystream bytes produced under the current key: the key changes lazily, so at the end of a
      section the count is the whole section. */
  function SinceRekey(section: nat, p: nat): nat
  {
    if section == 0 then p else if p == 0 then 0 else (p - 1) % section + 1
  }

  /** The key in place after p bytes. */
  function KeyAfter(s: Suite, section: nat, key: seq<Byte>, p: nat): seq<Byte>
  {
    if p == 0 then key else KeyAt(s, section, key, p - 1)
  }

  // ---- batches ----

  /** Byte d of a batch from counter ctr under one key. */
  function BatchByte(s: Suite, key: seq<Byte>, ctr: seq<Byte>, d: nat): Byte
    requires SuiteOk(s)
  {
    s.enc(key, Add(ctr, d / s.n))[d % s.n]
  }

  /** b consecutive counters, concatenated. */
  function CounterRun(ctr: seq<Byte>, b: nat): (r: seq<Byte>)
    ensures |r| == b * |ctr|
  {
    if b == 0 then [] else CounterRun(ctr, b - 1) + Add(ctr, b - 1)
  }

  /** EncryptBlocks on a run of b blocks. */
  function EncryptRun(s: Suite, key: seq<Byte>, buf: seq<Byte>, b: nat): (r: seq<Byte>)
    requires SuiteOk(s) && |buf| == b * s.n
    ensures |r| == b * s.n
  {
    if b == 0 then []
    else
      MulStep(s.n, b);
      EncryptRun(s, key, buf[..(b - 1) * s.n], b - 1) + s.enc(key, buf[(b - 1) * s.n..])
  }

  /** Encrypting the counters gives the keystream, byte by byte. */
  lemma {:induction false} RunByte(s: Suite, key: seq<Byte>, ctr: seq<Byte>, b: nat, d: nat)
    requires SuiteOk(s) && |ctr| == s.n && d < b * s.n
    ensures EncryptRun(s, key, CounterRun(ctr, b), b)[d] == BatchByte(s, key, ctr, d)
  {
    hide Add;
    MulStep(s.n, b);
    var buf := CounterRun(ctr, b);
    assert buf[..(b - 1) * s.n] == CounterRun(ctr, b - 1);
    assert buf[(b - 1) * s.n..] == Add(ctr, b - 1);
    if d < (b - 1) * s.n {
      RunByte(s, key, ctr, b - 1, d);
    } else {
      ModArith.ModUnique(d, s.n, b - 1, d - (b - 1) * s.n);
    }
  }

  /** A cipher's EncryptBlocks: block by block encryption. */
  method EncryptBlocks(s: Suite, key: seq<Byte>, buf: seq<Byte>, b: nat) returns (r: seq<Byte>)
    requires SuiteOk(s) && |buf| == b * s.n
    ensures r == EncryptRun(s, key, buf, b)
  {
    r := [];
    for j := 0 to b
      invariant j * s.n <= |buf| && r == EncryptRun(s, key, buf[..j * s.n], j)
    {
      MulStep(s.n, j + 1);
      MulOrder(j + 1, b, s.n);
      var next := buf[..(j + 1) * s.n];
      assert next[..j * s.n] == buf[..j * s.n];
      r := r + s.enc(key, next[j * s.n..]);
    }
    assert buf[..b * s.n] == buf;
  }

  /** The unfused batch: counters into one scratch buffer, keystream into another, then the
      exclusive or. Advances the counter by b. */
  method ScratchXOR(s: Suite, key: seq<Byte>, dst: array<Byte>, src: array<Byte>, i: nat,
                    m: nat, iv: array<Byte>, b: nat)
    requires SuiteOk(s) && iv.Length == s.n && m == b * s.n && i + m <= src.Length <= dst.Length
    requires iv != dst && iv != src
    modifies dst, iv
    ensures iv[..] == Add(old(iv[..]), b)
    ensures forall k :: i <= k < i + m ==> dst[k] == Xor(old(src[k]), BatchByte(s, key, old(iv[..]), k - i))
    ensures forall k :: 0 <= k < dst.Length && !(i <= k < i + m) ==> dst[k] == old(dst[k])
  {
    hide Add, Xor, BatchByte, EncryptRun;
    ghost var ctr := iv[..];
    var ctrBuf: seq<Byte> := [];
    AddZero(ctr);
    for j := 0 to b
      invariant ctrBuf == CounterRun(ctr, j)
      invariant iv[..] == Add(ctr, j)
      invariant dst[..] == old(dst[..]) && src[..] == old(src[..])
    {
      ctrBuf := ctrBuf + iv[..];
      AddAdd(ctr, j, 1);
      IncCounter(iv);
    }
    var ksBuf := EncryptBlocks(s, key, ctrBuf, b);
    forall d | 0 <= d < m ensures ksBuf[d] == BatchByte(s, key, ctr, d) { RunByte(s, key, ctr, b, d); }
    XorRun(dst, src, i, ksBuf);
  }

  /** dst[j] = src[j] ^ ks[j] over one run. */
  method XorRun(dst: array<Byte>, src: array<Byte>, i: nat, ks: seq<Byte>)
    requires i + |ks| <= src.Length <= dst.Length
    modifies dst
    ensures forall k :: i <= k < i + |ks| ==> dst[k] == Xor(old(src[k]), ks[k - i])
    ensures forall k :: 0 <= k < dst.Length && !(i <= k < i + |ks|) ==> dst[k] == old(dst[k])
  {
    hide Xor;
    for j := 0 to |ks|
      invariant forall k :: i <= k < i + j ==> dst[k] == Xor(old(src[k]), ks[k - i])
      invariant forall k :: 0 <= k < dst.Length && !(i <= k < i + j) ==> dst[k] == old(dst[k])
    {
      dst[i + j] := Xor(src[i + j], ks[j]);
    }
  }

  /** The fused call of a cipher that offers one. */
  method FusedXOR(s: Suite, key: seq<Byte>, dst: array<Byte>, src: array<Byte>, i: nat, m: nat, iv: array<Byte>, b: nat)
    requires SuiteOk(s) && s.fused(key) && iv.Length == s.n && m == b * s.n && i + m <= src.Length <= dst.Length
    requires iv != dst && iv != src
    modifies dst, iv
    ensures iv[..] == Add(old(iv[..]), b)
    ensures forall k :: i <= k < i + m ==> dst[k] == Xor(old(src[k]), BatchByte(s, key, old(iv[..]), k - i))
    ensures forall k :: 0 <= k < dst.Length && !(i <= k < i + m) ==> dst[k] == old(dst[k])
  {
    hide Add, Xor, BatchByte, RoundKeys, KuznyechikBulk.KeystreamByte, KuznyechikSimd.TablesOk;
    assert FusedOk(s, key);
    ghost var ctr := iv[..];
    KuznyechikBulk.CTRXORBlocks(s.pi, s.tables, RoundKeys(s.pi, key), dst, src, i, m, iv);
    forall p: nat
      ensures BatchByte(s, key, ctr, p) == KuznyechikBulk.KeystreamByte(s.pi, RoundKeys(s.pi, key), ctr, p)
    {
      FusedKeystream(s, key, ctr, p);
    }
  }

  /** The keystream of the fused call is that of the per-block stream. */
  lemma FusedKeystream(s: Suite, key: seq<Byte>, iv: Block, p: nat)
    requires SuiteOk(s) && FusedOk(s, key)
    ensures BatchByte(s, key, iv, p) == KuznyechikBulk.KeystreamByte(s.pi, RoundKeys(s.pi, key), iv, p)
  {
    hide EncryptSpec, Add, RoundKeys;
  }

  /** One batch of b blocks, by the fused call when the cipher for this key has it. */
  method BatchXOR(s: Suite, key: seq<Byte>, dst: array<Byte>, src: array<Byte>, i: nat, m: nat, iv: array<Byte>, b: nat)
    requires SuiteOk(s) && iv.Length == s.n && m == b * s.n && i + m <= src.Length <= dst.Length
    requires iv != dst && iv != src
    modifies dst, iv
    ensures iv[..] == Add(old(iv[..]), b)
    ensures forall k :: i <= k < i + m ==> dst[k] == Xor(old(src[k]), BatchByte(s, key, old(iv[..]), k - i))
    ensures forall k :: 0 <= k < dst.Length && !(i <= k < i + m) ==> dst[k] == old(dst[k])
  {
    hide Add, Xor, BatchByte;
    if s.fused(key) {
      FusedXOR(s, key, dst, src, i, m, iv, b);
    } else {
      ScratchXOR(s, key, dst, src, i, m, iv, b);
    }
  }

  // ---- state facts, on values ----

  /** The key and count in place at position pos once any pending rekey is done. */
  ghost predicate Synced(s: Suite, section: nat, key0: seq<Byte>, pos: nat, key: seq<Byte>, since: nat)
  {
    && s.n > 0 && pos % s.n == 0
    && key == KeyAt(s, section, key0, pos)
    && since == (if section == 0 then pos else pos % section)
  }

  /** The lazy rekey at a block boundary: due exactly when a section has been used up. */
  lemma RekeySyncs(s: Suite, section: nat, key0: seq<Byte>, pos: nat)
    requires s.n > 0 && pos % s.n == 0
    ensures
      var key, since := KeyAfter(s, section, key0, pos), SinceRekey(section, pos);
      if section > 0 && since >= section then Synced(s, section, key0, pos, NextKey(s, key), 0)
      else Synced(s, section, key0, pos, key, since)
  {
    hide NextKey;
    if section > 0 {
      if pos > 0 { Before(pos, section); } else { ModArith.ModUnique(0, section, 0, 0); }
    }
  }

  /** A run of m bytes that stays in the section uses one key throughout. */
  lemma BatchKey(s: Suite, section: nat, key0: seq<Byte>, pos: nat, key: seq<Byte>, since: nat, m: nat, d: nat)
    requires Synced(s, section, key0, pos, key, since) && d < m
    requires section > 0 ==> since + m <= section
    ensures KeyAt(s, section, key0, pos + d) == key
  {
    hide SectionKey;
    if section > 0 { SameSection(pos, d, section); }
  }

  /** A batch of b whole blocks leaves the counts a per-block run would leave. */
  lemma AfterBatch(s: Suite, section: nat, key0: seq<Byte>, pos: nat, key: seq<Byte>, since: nat, b: nat, m: nat)
    requires Synced(s, section, key0, pos, key, since) && m == b * s.n && m > 0
    requires section > 0 ==> since + m <= section
    ensures (pos + m) % s.n == 0 && BlocksBegun(s.n, pos + m) == pos / s.n + b
    ensures SinceRekey(section, pos + m) == since + m
    ensures KeyAfter(s, section, key0, pos + m) == key
  {
    hide KeyAt;
    WholeBlocks(pos, s.n, b, 0);
    BatchKey(s, section, key0, pos, key, since, m, m - 1);
    if section > 0 { SameSection(pos, m - 1, section); }
  }

  lemma BatchRun(s: Suite, section: nat, key0: seq<Byte>, iv0: seq<Byte>, pos: nat, key: seq<Byte>, since: nat, m: nat)
    requires SuiteOk(s) && Synced(s, section, key0, pos, key, since)
    requires section > 0 ==> since + m <= section
    ensures forall d: nat :: d < m ==>
      BatchByte(s, key, Add(iv0, pos / s.n), d) == StreamByte(s, section, key0, iv0, pos + d)
  {
    hide Add, BatchByte, StreamByte;
    forall d: nat | d < m
      ensures BatchByte(s, key, Add(iv0, pos / s.n), d) == StreamByte(s, section, key0, iv0, pos + d)
    {
      BatchIsStream(s, section, key0, iv0, pos, key, since, m, d);
    }
  }

  /** Byte d of a batch is the stream byte at its position. */
  lemma BatchIsStream(s: Suite, section: nat, key0: seq<Byte>, iv0: seq<Byte>, pos: nat,
                      key: seq<Byte>, since: nat, m: nat, d: nat)
    requires SuiteOk(s) && Synced(s, section, key0, pos, key, since) && d < m
    requires section > 0 ==> since + m <= section
    ensures BatchByte(s, key, Add(iv0, pos / s.n), d) == StreamByte(s, section, key0, iv0, pos + d)
  {
    hide KeyAt, Add;
    BatchKey(s, section, key0, pos, key, since, m, d);
    FromBoundary(pos, s.n, d);
    AddAdd(iv0, pos / s.n, d / s.n);
  }

  /** What one byte taken from the current gamma block leaves. */
  lemma AfterByte(s: Suite, section: nat, key0: seq<Byte>, iv0: seq<Byte>, pos: nat)
    requires SuiteOk(s) && (section > 0 ==> section % s.n == 0)
    ensures (pos + 1) % s.n == if pos % s.n + 1 == s.n then 0 else pos % s.n + 1
    ensures BlocksBegun(s.n, pos + 1) == pos / s.n + 1
    ensures KeyAfter(s, section, key0, pos + 1) == KeyAt(s, section, key0, pos)
    ensures SinceRekey(section, pos + 1) == if section == 0 then pos + 1 else pos % section + 1
    ensures (pos + 1) % s.n != 0 ==>
      GammaAt(s, section, key0, iv0, pos + 1) == GammaAt(s, section, key0, iv0, pos)
  {
    hide SectionKey, Add;
    After(pos, s.n);
    if section > 0 && (pos + 1) % s.n != 0 {
      After(pos, section);
      if (pos + 1) % section == 0 { MultipleOfMultiple(pos + 1, section, s.n); }
    }
  }

  class CTR {
    const s: Suite
    const sectionSize: nat
    const iv: array<Byte>
    const gamma: array<Byte>
    var key: seq<Byte>
    var num: nat
    var sinceRekey: nat
    ghost const key0: seq<Byte>
    ghost const iv0: seq<Byte>
    ghost var pos: nat

    ghost predicate Shape()
      reads this
    {
      && SuiteOk(s) && iv != gamma && iv.Length == gamma.Length == |iv0| == s.n
      && (sectionSize > 0 ==> KEY_SIZE % s.n == 0 && sectionSize % s.n == 0)
    }

    /** The carried state is a function of the number of bytes produced so far. */
    ghost predicate Valid()
      reads this, iv, gamma
    {
      && Shape()
      && num == (if pos % s.n == 0 then s.n else pos % s.n)
      && iv[..] == Add(iv0, BlocksBegun(s.n, pos))
      && key == KeyAfter(s, sectionSize, key0, pos)
      && sinceRekey == SinceRekey(sectionSize, pos)
      && (pos % s.n != 0 ==> gamma[..] == GammaAt(s, sectionSize, key0, iv0, pos))
    }

    /** At a block boundary with any pending rekey done. */
    ghost predicate Fresh()
      reads this, iv, gamma
    {
      && Shape() && num == s.n
      && iv[..] == Add(iv0, pos / s.n)
      && Synced(s, sectionSize, key0, pos, key, sinceRekey)
    }

    /** NewCTR: one key for the whole stream. */
    constructor NewCTR(s: Suite, key: seq<Byte>, iv: seq<Byte>)
      requires SuiteOk(s) && |iv| == s.n
      ensures Valid() && fresh(this.iv) && fresh(gamma)
      ensures pos == 0 && this.s == s && key0 == key && iv0 == iv && sectionSize == 0
    {
      hide Add;
      this.s, sectionSize := s, 0;
      this.key, key0, iv0 := key, key, iv;
      this.iv := new Byte[s.n](i requires 0 <= i < |iv| => iv[i]);
      gamma := new Byte[s.n](_ => 0);
      num, sinceRekey, pos := s.n, 0, 0;
      new;
      AddZero(iv);
      ModArith.ModUnique(0, s.n, 0, 0);
      assert this.iv[..] == iv;
    }

    /** NewCTRACPKM: section size 0 degrades to plain CTR. */
    constructor NewCTRACPKM(s: Suite, key: seq<Byte>, iv: seq<Byte>, sectionSize: nat)
      requires SuiteOk(s) && |iv| == s.n && |key| == KEY_SIZE
      requires KEY_SIZE % s.n == 0 && sectionSize % s.n == 0
      ensures Valid() && fresh(this.iv) && fresh(gamma)
      ensures pos == 0 && this.s == s && key0 == key && iv0 == iv && this.sectionSize == sectionSize
    {
      hide Add;
      this.s, this.sectionSize := s, sectionSize;
      this.key, key0, iv0 := key, key, iv;
      this.iv := new Byte[s.n](i requires 0 <= i < |iv| => iv[i]);
      gamma := new Byte[s.n](_ => 0);
      num, sinceRekey, pos := s.n, 0, 0;
      new;
      AddZero(iv);
      ModArith.ModUnique(0, s.n, 0, 0);
      assert this.iv[..] == iv;
    }

    /** rekeyACPKM: the next key is the encryption of D under the current one. */
    method RekeyACPKM()
      requires Shape() && sectionSize > 0
      modifies `key
      ensures key == NextKey(s, old(key))
    {
      assert MeshedPrefix(s, key, 0) == [];
      hide D, MeshedPrefix;
      var n := s.n;
      var newKey: seq<Byte> := [];
      ghost var b := 0;
      var off := 0;
      while off < KEY_SIZE
        invariant off == n * b && n * b <= KEY_SIZE
        invariant key == old(key) && newKey == MeshedPrefix(s, key, b)
        decreases KEY_SIZE - off
      {
        MeshStep(s, key, b);
        newKey := newKey + s.enc(key, D()[off..off + n]);
        b := b + 1;
        off := off + n;
      }
      MeshDone(n, b);
      key := newKey;
    }

    /** Rekeys when the section under the current key is used up. */
    method RekeyIfDue()
      requires Valid() && num == s.n
      modifies `key, `sinceRekey
      ensures Fresh()
    {
      hide NextKey, Add, KeyAfter, SinceRekey;
      RekeySyncs(s, sectionSize, key0, pos);
      if sectionSize > 0 && sinceRekey >= sectionSize {
        RekeyACPKM();
        sinceRekey := 0;
      }
    }

    /** Generates the gamma block for the current position. */
    method NextGamma()
      requires Fresh()
      modifies `num, iv, gamma
      ensures Shape() && num == 0
      ensures iv[..] == Add(iv0, pos / s.n + 1)
      ensures gamma[..] == GammaAt(s, sectionSize, key0, iv0, pos)
    {
      hide Add, KeyAt;
      var g := s.enc(key, iv[..]);
      forall i | 0 <= i < s.n { gamma[i] := g[i]; }
      assert gamma[..] == g;
      AddAdd(iv0, pos / s.n, 1);
      assert iv[..] == Add(iv0, pos / s.n);
      IncCounter(iv);
      num := 0;
    }

    /** How many blocks a batch may take: whole input blocks, never past the section's end. */
    method BatchBlocks(len: nat) returns (blocks: nat)
      requires Fresh()
      ensures blocks * s.n <= len
      ensures sectionSize > 0 ==> sinceRekey + blocks * s.n <= sectionSize
    {
      hide KeyAt, Add;
      blocks := len / s.n;
      DivBelow(len, s.n);
      if sectionSize > 0 {
        var untilRekey := (sectionSize - sinceRekey) / s.n;
        DivBelow(sectionSize - sinceRekey, s.n);
        if blocks > untilRekey {
          MulOrder(untilRekey, blocks, s.n);
          blocks := untilRekey;
        } else {
          MulOrder(blocks, untilRekey, s.n);
        }
      }
    }

    /** The blocks of one batched call: none when the run is too short, and at most the scratch
        buffers hold without the fused call. */
    method BatchSize(len: nat) returns (blocks: nat)
      requires Fresh()
      ensures blocks * s.n <= len && (blocks > 0 ==> blocks >= MIN_BULK_BLOCKS && blocks * s.n > 0)
      ensures sectionSize > 0 ==> sinceRekey + blocks * s.n <= sectionSize
    {
      hide KeyAt, Add, FusedOk;
      blocks := BatchBlocks(len);
      if blocks < MIN_BULK_BLOCKS { return 0; }
      if !s.fused(key) && blocks > MAX_BULK_BLOCKS {
        MulOrder(MAX_BULK_BLOCKS, blocks, s.n);
        blocks := MAX_BULK_BLOCKS;
      }
      MulOrder(1, blocks, s.n);
    }

    /** bulkXOR: a run of whole blocks from offset i, by the fused call or through scratch
        buffers; 0 when the run is too short. */
    method BulkXOR(dst: array<Byte>, src: array<Byte>, i: nat) returns (m: nat)
      requires Fresh() && i <= src.Length <= dst.Length
      requires iv != dst && iv != src && gamma != dst
      modifies dst, iv, `sinceRekey, `pos
      ensures m == 0 ==> Fresh() && pos == old(pos)
      ensures m > 0 ==> Valid() && pos == old(pos) + m && i + m <= src.Length
      ensures forall k :: i <= k < i + m ==>
        dst[k] == Xor(old(src[k]), StreamByte(s, sectionSize, key0, iv0, old(pos) + (k - i)))
      ensures forall k :: 0 <= k < dst.Length && !(i <= k < i + m) ==> dst[k] == old(dst[k])
    {
      hide Add, KeyAt, SectionKey, Xor, SinceRekey, KeyAfter, BlocksBegun, BatchByte, StreamByte, FusedOk;
      var blocks := BatchSize(src.Length - i);
      if blocks == 0 { return 0; }
      m := blocks * s.n;
      AddAdd(iv0, pos / s.n, blocks);
      AfterBatch(s, sectionSize, key0, pos, key, sinceRekey, blocks, m);
      BatchRun(s, sectionSize, key0, iv0, pos, key, sinceRekey, m);
      BatchXOR(s, key, dst, src, i, m, iv, blocks);
      sinceRekey := sinceRekey + m;
      pos := pos + m;
    }

    /** The next byte of the stream, from a gamma block that is not used up. */
    method TakeByte(dst: array<Byte>, src: array<Byte>, i: nat)
      requires Shape() && i < src.Length <= dst.Length
      requires iv != dst && gamma != dst && num == pos % s.n
      requires iv[..] == Add(iv0, pos / s.n + 1)
      requires gamma[..] == GammaAt(s, sectionSize, key0, iv0, pos)
      requires key == KeyAt(s, sectionSize, key0, pos)
      requires sinceRekey == if sectionSize == 0 then pos else pos % sectionSize
      modifies dst, `num, `sinceRekey, `pos
      ensures Valid() && pos == old(pos) + 1
      ensures dst[i] == Xor(old(src[i]), StreamByte(s, sectionSize, key0, iv0, old(pos)))
      ensures forall k :: 0 <= k < dst.Length && k != i ==> dst[k] == old(dst[k])
    {
      hide Add, KeyAt, Xor, SinceRekey, KeyAfter, BlocksBegun, GammaAt;
      AfterByte(s, sectionSize, key0, iv0, pos);
      assert gamma[num] == gamma[..][num];
      dst[i] := Xor(src[i], gamma[num]);
      num := num + 1;
      sinceRekey := sinceRekey + 1;
      pos := pos + 1;
    }

    /** One round of XORKeyStream: a batch at a block boundary when the cipher offers one and the run
        is long enough, else one byte. */
    method NextRun(dst: array<Byte>, src: array<Byte>, i: nat) returns (m: nat)
      requires Valid() && i < src.Length <= dst.Length
      requires iv != dst && iv != src && gamma != dst && gamma != src
      modifies iv, gamma, dst, `key, `num, `sinceRekey, `pos
      ensures Valid() && pos == old(pos) + m && m > 0 && i + m <= src.Length
      ensures forall k :: i <= k < i + m ==>
        dst[k] == Xor(old(src[k]), StreamByte(s, sectionSize, key0, iv0, old(pos) + (k - i)))
      ensures forall k :: 0 <= k < dst.Length && !(i <= k < i + m) ==> dst[k] == old(dst[k])
    {
      hide Add, KeyAt, Xor, SinceRekey, KeyAfter, BlocksBegun, GammaAt, StreamByte, FusedOk;
      if num == s.n {
        RekeyIfDue();
        m := 0;
        if s.bulk(key) { m := BulkXOR(dst, src, i); }
        if m > 0 { return; }
        NextGamma();
      } else {
        MidBlock(s, sectionSize, key0, pos);
      }
      TakeByte(dst, src, i);
      m := 1;
    }

    /** XORKeyStream: the next src.Length bytes of the stream, over any batches and carries. */
    method XORKeyStream(dst: array<Byte>, src: array<Byte>)
      requires Valid() && src.Length <= dst.Length
      requires iv != dst && iv != src && gamma != dst && gamma != src
      modifies this, iv, gamma, dst
      ensures Valid() && pos == old(pos) + src.Length
      ensures dst[..src.Length] == Stream(s, sectionSize, key0, iv0, old(pos), old(src[..]))
      ensures dst[src.Length..] == old(dst[src.Length..])
    {
      assert SuiteOk(s);
      hide Valid, Xor, StreamByte, SuiteOk;
      var i := 0;
      while i < src.Length
        invariant i <= src.Length && Valid() && pos == old(pos) + i
        invariant forall k :: 0 <= k < i ==>
          dst[k] == Xor(old(src[k]), StreamByte(s, sectionSize, key0, iv0, old(pos) + k))
        invariant forall k :: i <= k < dst.Length ==> dst[k] == old(dst[k])
        invariant src != dst ==> src[..] == old(src[..])
      {
        var m := NextRun(dst, src, i);
        i := i + m;
      }
    }
  }

  /** data under the stream from byte pos on: what XORKeyStream writes. */
  function Stream(s: Suite, section: nat, key: seq<Byte>, iv: seq<Byte>, pos: nat, data: seq<Byte>): (r: seq<Byte>)
    requires SuiteOk(s)
    ensures |r| == |data|
  {
    seq(|data|, k requires 0 <= k < |data| => Xor(data[k], StreamByte(s, section, key, iv, pos + k)))
  }

  /** Cutting the input anywhere changes nothing. */
  lemma StreamSplit(s: Suite, section: nat, key: seq<Byte>, iv: seq<Byte>, pos: nat, a: seq<Byte>, b: seq<Byte>)
    requires SuiteOk(s)
    ensures Stream(s, section, key, iv, pos, a + b) ==
      Stream(s, section, key, iv, pos, a) + Stream(s, section, key, iv, pos + |a|, b)
  {
    hide StreamByte, Xor;
    var l := Stream(s, section, key, iv, pos, a + b);
    var r := Stream(s, section, key, iv, pos, a) + Stream(s, section, key, iv, pos + |a|, b);
    forall k | 0 <= k < |l| ensures l[k] == r[k] {
      if k >= |a| { assert pos + k == (pos + |a|) + (k - |a|); }
    }
  }

  /** The stream undoes itself from the same position. */
  lemma StreamInvolution(s: Suite, section: nat, key: seq<Byte>, iv: seq<Byte>, pos: nat, data: seq<Byte>)
    requires SuiteOk(s)
    ensures Stream(s, section, key, iv, pos, Stream(s, section, key, iv, pos, data)) == data
  {
    hide StreamByte, Xor;
    var once := Stream(s, section, key, iv, pos, data);
    var r := Stream(s, section, key, iv, pos, once);
    forall k | 0 <= k < |data| ensures r[k] == data[k] {
      XorCancel(StreamByte(s, section, key, iv, pos + k), data[k]);
    }
  }

  /** Two generators that have produced equally many bytes carry one state, whatever calls and
      whichever paths brought them there. */
  lemma StateDetermined(a: CTR, b: CTR)
    requires a.Valid() && b.Valid()
    requires a.s == b.s && a.sectionSize == b.sectionSize && a.key0 == b.key0 && a.iv0 == b.iv0 && a.pos == b.pos
    ensures a.iv[..] == b.iv[..] && a.num == b.num && a.key == b.key && a.sinceRekey == b.sinceRekey
    ensures a.num < a.s.n ==> a.gamma[..] == b.gamma[..]
  {
    hide Add, KeyAfter, GammaAt, SinceRekey, BlocksBegun;
  }

  /** Inside a block no rekey is pending: the key in place is that of the current position. */
  lemma MidBlock(s: Suite, section: nat, key0: seq<Byte>, pos: nat)
    requires s.n > 0 && pos % s.n != 0 && (section > 0 ==> section % s.n == 0)
    ensures BlocksBegun(s.n, pos) == pos / s.n + 1
    ensures KeyAfter(s, section, key0, pos) == KeyAt(s, section, key0, pos)
    ensures SinceRekey(section, pos) == if section == 0 then pos else pos % section
  {
    hide SectionKey;
    if section > 0 {
      if pos % section == 0 { MultipleOfMultiple(pos, section, s.n); }
      Before(pos, section);
    }
  }
}
