/** The batch entry points: EncryptBlocks with its vector and scalar parts, and the fused
    counter mode of simd_ctr_amd64.go. */
module KuznyechikBulk {
  import opened Gf256
  import opened Blocks
  import opened Kuznyechik
  import opened KuznyechikTables
  import opened KuznyechikConstantTime
  import opened KuznyechikSimd
  import opened KuznyechikCipher
  import opened Counters

  /** Block b of a byte string. */
  function BlockAt(s: seq<Byte>, b: nat): Block
    requires 16 * b + 16 <= |s|
  {
    s[16 * b..16 * b + 16]
  }

  /** Byte p of the block-by-block encryption of s. */
  function EncryptedByte(pi: Sbox, ks: seq<Block>, s: seq<Byte>, p: nat): Byte
    requires |ks| == 10 && p < |s| && |s| % 16 == 0
  {
    EncryptSpec(pi, ks, BlockAt(s, p / 16))[p % 16]
  }

  // ---- transposes ----

  /** Register i receives byte i of the 32 blocks that start at n. */
  method LoadChunk(src: array<Byte>, n: nat) returns (a: array<Reg>)
    requires n + 512 <= src.Length
    ensures fresh(a) && a.Length == 16
    ensures forall l :: 0 <= l < LANES ==> Column(a[..], l) == src[n + 16 * l..n + 16 * l + 16]
  {
    a := new Reg[16](_ => Zeros(LANES));
    for i := 0 to 16
      invariant forall k, l :: 0 <= k < i && 0 <= l < LANES ==> a[k][l] == src[n + 16 * l + k]
    {
      var tmp := new Byte[32](bl requires 0 <= bl < 32 reads src => src[n + bl * 16 + i]);
      a[i] := tmp[..];
    }
    forall l | 0 <= l < LANES ensures Column(a[..], l) == src[n + 16 * l..n + 16 * l + 16] {
      forall k | 0 <= k < 16 ensures Column(a[..], l)[k] == src[n + 16 * l..n + 16 * l + 16][k] {
        assert a[k][l] == src[n + 16 * l + k];
      }
    }
  }

  /** The byte a transposed store writes: v, added to the input when mask is set. */
  function Stored(mask: bool, input: Byte, v: Byte): Byte { if mask then Xor(input, v) else v }

  /** The reverse transpose of k blocks; with mask the input is added, as in counter mode. */
  method StoreLanes(dst: array<Byte>, src: array<Byte>, base: nat, i: nat, tmp: Reg, k: nat, mask: bool)
    requires i < 16 && k <= LANES && base + 16 * k <= dst.Length && base + 16 * k <= src.Length
    modifies dst
    ensures forall p :: 0 <= p < dst.Length && base <= p < base + 16 * k && (p - base) % 16 == i ==>
      dst[p] == Stored(mask, old(src[p]), tmp[(p - base) / 16])
    ensures forall p :: 0 <= p < dst.Length && !(base <= p < base + 16 * k && (p - base) % 16 == i) ==>
      dst[p] == old(dst[p])
  {
    hide Xor;
    for bl := 0 to k
      invariant forall p :: 0 <= p < dst.Length && base <= p < base + 16 * bl && (p - base) % 16 == i ==>
        dst[p] == Stored(mask, old(src[p]), tmp[(p - base) / 16])
      invariant forall p :: 0 <= p < dst.Length && !(base <= p < base + 16 * bl && (p - base) % 16 == i) ==>
        dst[p] == old(dst[p])
    {
      var off := base + bl * 16 + i;
      assert src[off] == old(src[off]);
      dst[off] := if mask then Xor(src[off], tmp[bl]) else tmp[bl];
    }
  }

  method StoreChunk(dst: array<Byte>, src: array<Byte>, base: nat, a: array<Reg>, k: nat, mask: bool)
    requires a.Length == 16 && k <= LANES && base + 16 * k <= dst.Length && base + 16 * k <= src.Length
    requires (a as object) != (dst as object)
    modifies dst
    ensures forall p :: base <= p < base + 16 * k ==>
      dst[p] == Stored(mask, old(src[p]), Column(a[..], (p - base) / 16)[(p - base) % 16])
    ensures forall p :: 0 <= p < dst.Length && !(base <= p < base + 16 * k) ==> dst[p] == old(dst[p])
  {
    hide Xor;
    for i := 0 to 16
      invariant a[..] == old(a[..])
      invariant forall p :: base <= p < base + 16 * k && (p - base) % 16 < i ==>
        dst[p] == Stored(mask, old(src[p]), Column(a[..], (p - base) / 16)[(p - base) % 16])
      invariant forall p :: 0 <= p < dst.Length && !(base <= p < base + 16 * k && (p - base) % 16 < i) ==>
        dst[p] == old(dst[p])
    {
      StoreLanes(dst, src, base, i, a[i], k, mask);
    }
  }

  // ---- simdBulkEncrypt ----

  /** A whole number of blocks. */
  predicate Whole(n: nat) { n % 16 == 0 }

  /** The first n bytes of dst are encrypted, the rest is as before. */
  ghost predicate Progress(pi: Sbox, ks: seq<Block>, src0: seq<Byte>, dst0: seq<Byte>, dst: seq<Byte>, n: nat)
    requires |ks| == 10 && Whole(|src0|) && n <= |src0| <= |dst0| == |dst|
  {
    (forall p :: 0 <= p < n ==> dst[p] == EncryptedByte(pi, ks, src0, p)) &&
    (forall p :: n <= p < |dst| ==> dst[p] == dst0[p])
  }

  lemma ChunkByte(n: nat, p: nat)
    requires n % 16 == 0 && n <= p < n + 512
    ensures p / 16 == n / 16 + (p - n) / 16 && p % 16 == (p - n) % 16 && (p - n) / 16 < 32
    ensures 16 * (p / 16) == n + 16 * ((p - n) / 16)
  {
  }

  /** One batch of 32 blocks from n. */
  method BulkChunk(pi: Sbox, t: Tables, ks: seq<Block>, keys: seq<seq<Reg>>, dst: array<Byte>, src: array<Byte>,
      ghost src0: seq<Byte>, n: nat)
    requires TablesOk(pi, t) && |ks| == 10 && KeysOk(ks, keys)
    requires n % 16 == 0 && n + 512 <= src.Length <= dst.Length && src.Length % 16 == 0
    requires |src0| == src.Length && src[n..] == src0[n..]
    modifies dst
    ensures forall p :: n <= p < n + 512 ==> dst[p] == EncryptedByte(pi, ks, src0, p)
    ensures forall p :: 0 <= p < dst.Length && !(n <= p < n + 512) ==> dst[p] == old(dst[p])
  {
    hide EncryptSpec, TablesOk, KeysOk, Column, BlockAt, EncryptedByte;
    var a := LoadChunk(src, n);
    ghost var x := a[..];
    forall l | 0 <= l < LANES ensures Column(x, l) == BlockAt(src0, n / 16 + l) { ChunkBlock(src[..], src0, n, l); }
    EncryptSliced(pi, t, ks, keys, a);
    ghost var y := a[..];
    StoreChunk(dst, src, n, a, 32, false);
    forall p | n <= p < n + 512 ensures Column(y, (p - n) / 16)[(p - n) % 16] == EncryptedByte(pi, ks, src0, p) {
      LaneEncrypted(pi, ks, src0, n, x, y, p);
    }
  }

  lemma LaneEncrypted(pi: Sbox, ks: seq<Block>, s: seq<Byte>, n: nat, x: seq<Reg>, y: seq<Reg>, p: nat)
    requires |ks| == 10 && |x| == |y| == 16 && |s| % 16 == 0 && n % 16 == 0 && n + 512 <= |s| && n <= p < n + 512
    requires forall l :: 0 <= l < LANES ==> Column(x, l) == BlockAt(s, n / 16 + l)
    requires forall l :: 0 <= l < LANES ==> Column(y, l) == EncryptSpec(pi, ks, Column(x, l))
    ensures (p - n) / 16 < LANES && Column(y, (p - n) / 16)[(p - n) % 16] == EncryptedByte(pi, ks, s, p)
  {
    hide EncryptSpec, Column, BlockAt;
    ChunkByte(n, p);
  }

  lemma ChunkBlock(s: seq<Byte>, s0: seq<Byte>, n: nat, l: nat)
    requires n % 16 == 0 && n + 512 <= |s| == |s0| && s[n..] == s0[n..] && l < LANES
    ensures s[n + 16 * l..n + 16 * l + 16] == BlockAt(s0, n / 16 + l)
  {
    assert 16 * (n / 16 + l) == n + 16 * l;
    forall k | n <= k < |s| ensures s[k] == s0[k] { assert s[k] == s[n..][k - n]; }
  }

  /** Whole 32-block chunks; returns how many bytes were handled. */
  method SimdBulkEncrypt(pi: Sbox, t: Tables, ks: seq<Block>, dst: array<Byte>, src: array<Byte>) returns (n: nat)
    requires TablesOk(pi, t) && |ks| == 10 && src.Length % 16 == 0 && src.Length <= dst.Length
    modifies dst
    ensures n % 512 == 0 && n <= src.Length < n + 512
    ensures Progress(pi, ks, old(src[..]), old(dst[..]), dst[..], n)
  {
    hide EncryptSpec, TablesOk, KeysOk;
    var keys := BroadcastKeys(ks);
    ghost var src0, dst0 := src[..], dst[..];
    n := 0;
    while n + 512 <= src.Length
      invariant n % 512 == 0 && n <= src.Length
      invariant Progress(pi, ks, src0, dst0, dst[..], n)
      invariant src != dst ==> src[..] == src0
    {
      BulkChunk(pi, t, ks, keys, dst, src, src0, n);
      n := n + 512;
    }
  }

  /** One block of the scalar remainder. */
  method EncryptOne(c: Cipher, dst: array<Byte>, src: array<Byte>, ghost src0: seq<Byte>, n: nat)
    requires c.Ready() && n % 16 == 0 && n + 16 <= src.Length <= dst.Length && src.Length % 16 == 0
    requires |src0| == src.Length && src[n..] == src0[n..]
    modifies dst
    ensures c.Ready()
    ensures forall p :: n <= p < n + 16 ==> dst[p] == EncryptedByte(c.pi, c.ks, src0, p)
    ensures forall p :: 0 <= p < dst.Length && !(n <= p < n + 16) ==> dst[p] == old(dst[p])
  {
    hide EncryptSpec, Constants, IsTable, IsColumns, IdentitySbox;
    assert src[n..n + 16] == BlockAt(src0, n / 16) by {
      assert src[n..n + 16] == src[n..][..16] == src0[n..][..16];
    }
    ghost var before := dst[..];
    c.Encrypt(dst, n, src, n);
    forall p | 0 <= p < dst.Length && !(n <= p < n + 16) ensures dst[p] == before[p] {
      if p < n { assert dst[..n][p] == before[..n][p]; }
      else { assert dst[n + 16..][p - n - 16] == before[n + 16..][p - n - 16]; }
    }
    forall p | n <= p < n + 16 ensures dst[p] == EncryptedByte(c.pi, c.ks, src0, p) {
      assert p / 16 == n / 16 && p % 16 == p - n;
      assert dst[n..n + 16][p - n] == dst[p];
    }
  }

  /** The scalar path advances by one block. */
  method EncryptNext(c: Cipher, dst: array<Byte>, src: array<Byte>, ghost src0: seq<Byte>, ghost dst0: seq<Byte>, n: nat)
    requires c.Ready() && Whole(n) && |src0| == src.Length && Whole(src.Length) && n < src.Length <= dst.Length
    requires |dst0| == dst.Length && Progress(c.pi, c.ks, src0, dst0, dst[..], n)
    requires if src == dst then src0 == dst0 else src[..] == src0
    modifies dst
    ensures c.Ready() && Whole(n + 16) && n + 16 <= src.Length && Progress(c.pi, c.ks, src0, dst0, dst[..], n + 16)
    ensures src != dst ==> src[..] == src0
  {
    hide EncryptedByte, Cipher.Ready, Progress;
    TenKeys(c);
    ghost var dst1 := dst[..];
    SourceAhead(c.pi, c.ks, src0, dst0, dst1, src[..], src == dst, n);
    EncryptOne(c, dst, src, src0, n);
    OneMore(c.pi, c.ks, src0, dst0, dst1, dst[..], n);
  }

  /** EncryptBlocks: every block of src encrypted into dst, with or without the vector engine.
      dst and src are one array or do not overlap. */
  method EncryptBlocks(c: Cipher, simd: bool, t: Tables, dst: array<Byte>, src: array<Byte>)
    requires c.Ready() && TablesOk(c.pi, t)
    requires 0 < src.Length && src.Length % BLOCK_SIZE == 0 && src.Length <= dst.Length
    modifies dst
    ensures Progress(c.pi, c.ks, old(src[..]), old(dst[..]), dst[..], src.Length)
  {
    hide TablesOk, Cipher.Ready, Progress, Whole;
    TenKeys(c);
    WholeLength(src.Length);
    ghost var src0, dst0 := src[..], dst[..];
    var n := 0;
    NoProgress(c.pi, c.ks, src0, dst0);
    if simd {
      n := SimdBulkEncrypt(c.pi, t, c.ks, dst, src);
      WholeChunks(n);
    }
    while n < src.Length
      invariant Whole(n) && n <= src.Length && c.Ready()
      invariant Progress(c.pi, c.ks, src0, dst0, dst[..], n)
      invariant src != dst ==> src[..] == src0
    {
      EncryptNext(c, dst, src, src0, dst0, n);
      n := n + 16;
    }
  }

  lemma TenKeys(c: Cipher)
    requires c.Ready()
    ensures |c.ks| == 10
  {
  }

  lemma WholeLength(n: nat)
    requires n % BLOCK_SIZE == 0
    ensures Whole(n) && Whole(0)
  {
  }

  lemma WholeChunks(n: nat)
    requires n % 512 == 0
    ensures Whole(n)
  {
    var k := n / 512;
    assert n == 16 * (32 * k);
  }

  lemma NoProgress(pi: Sbox, ks: seq<Block>, src0: seq<Byte>, dst0: seq<Byte>)
    requires |ks| == 10 && Whole(|src0|) && |src0| <= |dst0|
    ensures Progress(pi, ks, src0, dst0, dst0, 0)
  {
  }

  /** The source blocks still to come are untouched, also when dst is src. */
  lemma SourceAhead(pi: Sbox, ks: seq<Block>, src0: seq<Byte>, dst0: seq<Byte>, dst: seq<Byte>, src: seq<Byte>,
      inPlace: bool, n: nat)
    requires |ks| == 10 && Whole(|src0|) && n <= |src0| <= |dst0| == |dst| && Progress(pi, ks, src0, dst0, dst, n)
    requires if inPlace then src == dst && src0 == dst0 else src == src0
    ensures |src| == |src0| && src[n..] == src0[n..]
  {
    hide EncryptedByte;
  }

  lemma OneMore(pi: Sbox, ks: seq<Block>, src0: seq<Byte>, dst0: seq<Byte>, dst1: seq<Byte>, dst: seq<Byte>, n: nat)
    requires |ks| == 10 && Whole(|src0|) && n + 16 <= |src0| <= |dst0| == |dst1| == |dst|
    requires Progress(pi, ks, src0, dst0, dst1, n)
    requires forall p :: n <= p < n + 16 ==> dst[p] == EncryptedByte(pi, ks, src0, p)
    requires forall p :: 0 <= p < |dst| && !(n <= p < n + 16) ==> dst[p] == dst1[p]
    ensures Progress(pi, ks, src0, dst0, dst, n + 16)
  {
    hide EncryptedByte;
  }

  // ---- counters ----

  function AddWrap(a: Byte, b: Byte): Byte { a + b }

  predicate Below(a: Byte, b: Byte) { a < b }

  lemma BelowIsOrder(a: Byte, b: Byte)
    ensures Below(a, b) <==> Index(a) < Index(b)
  {
  }

  lemma AddWrapSucc(b: Byte, x: Byte)
    ensures AddWrap(b, x + 1) == AddWrap(b, x) + 1 && AddWrap(b, 0) == b
  {
  }

  lemma {:induction false} AddWrapIndex(b: Byte, k: nat)
    requires k < 256
    ensures AddWrap(b, ToByte(k)) == ToByte((Index(b) + k) % 256)
  {
    hide Index, AddWrap, ToByte;
    if k == 0 {
      ToByteZero();
      AddWrapSucc(b, 0);
      ByteRoundTrip(b);
    } else {
      AddWrapIndex(b, k - 1);
      AddWrapSucc(b, ToByte(k - 1));
      ToByteSucc((Index(b) + (k - 1)) % 256);
      ModSucc(Index(b) + (k - 1));
      ToByteUnfold(k);
    }
  }

  lemma ModSucc(n: nat)
    ensures (n % 256 + 1) % 256 == (n + 1) % 256
  {
  }

  lemma ToByteUnfold(k: nat)
    requires 0 < k < 256
    ensures ToByte(k) == ToByte(k - 1) + 1
  {
  }

  lemma ToByteSucc(i: nat)
    requires i < 256
    ensures ToByte(i) + 1 == ToByte((i + 1) % 256)
  {
    hide Index, ToByte;
    IndexRoundTrip(i);
    IncrementByte(ToByte(i));
  }

  /** A lane's sum and carry are those of integer addition. */
  lemma SumAndCarry(b: Byte, k: nat)
    requires k < 256
    ensures
      var r := AddWrap(b, ToByte(k));
      r == ToByte((Index(b) + k) % 256) && (if Below(r, b) then 1 else 0) == (Index(b) + k) / 256
  {
    hide Index, ToByte, AddWrap, Below;
    var r := AddWrap(b, ToByte(k));
    AddWrapIndex(b, k);
    IndexRoundTrip((Index(b) + k) % 256);
    BelowIsOrder(r, b);
  }

  /** The bytes of lane l from register j on. */
  function ColumnFrom(a: seq<Reg>, j: nat, l: nat): seq<Byte>
    requires |a| == 16 && j <= 16 && l < LANES
  {
    seq(16 - j, i requires 0 <= i < 16 - j => a[j + i][l])
  }

  /** Lane l is right from byte j on, and carry[l] is still to be added to the bytes before. */
  ghost predicate CarriedTo(ctr: Block, a: seq<Reg>, carry: Reg, j: nat, l: nat)
    requires |a| == 16 && j <= 16 && l < LANES
  {
    Add(ctr, l) == Add(ctr[..j], Index(carry[l])) + ColumnFrom(a, j, l)
  }

  lemma CarryStep(ctr: Block, a: seq<Reg>, carry: Reg, j: nat, l: nat, r: Reg, next: Reg)
    requires |a| == 16 && 0 < j <= 16 && l < LANES
    requires CarriedTo(ctr, a, carry, j, l)
    requires r[l] == AddWrap(ctr[j - 1], carry[l])
    requires next[l] == if Below(r[l], ctr[j - 1]) then 1 else 0
    ensures CarriedTo(ctr, a[j - 1 := r], next, j - 1, l)
  {
    hide Index, ToByte, AddWrap, Below, Add;
    var b, k := ctr[j - 1], Index(carry[l]);
    ByteRoundTrip(carry[l]);
    SumAndCarry(b, k);
    IndexOfBit(next[l]);
    assert ctr[..j] == ctr[..j - 1] + [b];
    AddLast(ctr[..j - 1], b, k);
    assert ColumnFrom(a[j - 1 := r], j - 1, l) == [r[l]] + ColumnFrom(a, j, l);
  }

  lemma IndexOfBit(b: Byte)
    requires b == 0 || b == 1
    ensures Index(b) == if b == 0 then 0 else 1
  {
  }

  function Ramp(): Reg { seq(LANES, l requires 0 <= l < LANES => ToByte(l)) }

  function AddReg(b: Byte, v: Reg): Reg { seq(LANES, l requires 0 <= l < LANES => AddWrap(b, v[l])) }

  /** one.Masked(r.Less(b)). */
  function CarryReg(r: Reg, b: Byte): Reg { seq(LANES, l requires 0 <= l < LANES => if Below(r[l], b) then 1 else 0) }

  /** slicedCounters: the 32 counters ctr, ctr + 1, .., ctr + 31, byte-sliced, with full carries. */
  method SlicedCounters(ctr: Block) returns (reg: array<Reg>)
    ensures fresh(reg) && reg.Length == 16
    ensures forall l :: 0 <= l < LANES ==> Column(reg[..], l) == Add(ctr, l)
  {
    hide Index, ToByte, AddWrap, Below, Add, CarriedTo, Column, ColumnFrom;
    reg := new Reg[16](_ => Zeros(LANES));
    var carry := Ramp();
    forall l | 0 <= l < LANES ensures CarriedTo(ctr, reg[..], carry, 16, l) {
      NothingCarried(ctr, reg[..], l);
    }
    var j := 16;
    while j > 0
      invariant 0 <= j <= 16
      invariant forall l :: 0 <= l < LANES ==> CarriedTo(ctr, reg[..], carry, j, l)
    {
      var b := ctr[j - 1];
      var r := AddReg(b, carry);
      var next := CarryReg(r, b);
      ghost var later := reg[..][j - 1 := r];
      ghost var j' := j - 1;
      forall l | 0 <= l < LANES ensures CarriedTo(ctr, later, next, j', l) {
        CarryStep(ctr, reg[..], carry, j, l, r, next);
      }
      reg[j - 1] := r;
      assert reg[..] == later;
      carry := next;
      j := j - 1;
    }
    forall l | 0 <= l < LANES ensures Column(reg[..], l) == Add(ctr, l) {
      CarriedOut(ctr, reg[..], carry, l);
    }
  }

  lemma NothingCarried(ctr: Block, a: seq<Reg>, l: nat)
    requires |a| == 16 && l < LANES
    ensures CarriedTo(ctr, a, Ramp(), 16, l)
  {
    hide Add, Index, ToByte;
    IndexRoundTrip(l);
    assert ctr[..16] == ctr && ColumnFrom(a, 16, l) == [];
  }

  lemma CarriedOut(ctr: Block, a: seq<Reg>, carry: Reg, l: nat)
    requires |a| == 16 && l < LANES && CarriedTo(ctr, a, carry, 0, l)
    ensures Column(a, l) == Add(ctr, l)
  {
    hide Add, Index;
    assert ctr[..0] == [];
    AddEmpty(Index(carry[l]));
    assert Column(a, l) == ColumnFrom(a, 0, l);
  }

  // ---- CTRXORBlocks ----

  /** Byte p of the counter-mode keystream from iv. */
  function KeystreamByte(pi: Sbox, ks: seq<Block>, iv: Block, p: nat): Byte
    requires |ks| == 10
  {
    EncryptSpec(pi, ks, Add(iv, p / 16))[p % 16]
  }

  /** The n bytes of dst from i on are those of src under the keystream, the rest is as before. */
  ghost predicate Streamed(pi: Sbox, ks: seq<Block>, iv: Block, src0: seq<Byte>, dst0: seq<Byte>,
                           dst: seq<Byte>, i: nat, n: nat)
    requires |ks| == 10 && i + n <= |src0| <= |dst0| == |dst|
  {
    (forall p :: i <= p < i + n ==> dst[p] == Xor(src0[p], KeystreamByte(pi, ks, iv, p - i))) &&
    (forall p :: 0 <= p < |dst| && !(i <= p < i + n) ==> dst[p] == dst0[p])
  }

  /** One batch: k blocks of keystream from the counter iv + done. */
  method StreamChunk(pi: Sbox, t: Tables, ks: seq<Block>, keys: seq<seq<Reg>>, dst: array<Byte>, src: array<Byte>,
      i: nat, ctr: Block, ghost iv: Block, done: nat, k: nat)
    requires TablesOk(pi, t) && |ks| == 10 && KeysOk(ks, keys) && k <= LANES && ctr == Add(iv, done)
    requires i + 16 * done + 16 * k <= src.Length <= dst.Length
    modifies dst
    ensures forall p :: i + 16 * done <= p < i + 16 * done + 16 * k ==>
      dst[p] == Xor(old(src[p]), KeystreamByte(pi, ks, iv, p - i))
    ensures forall p :: 0 <= p < dst.Length && !(i + 16 * done <= p < i + 16 * done + 16 * k) ==> dst[p] == old(dst[p])
  {
    hide EncryptSpec, TablesOk, KeysOk, Add, Xor, Column, KeystreamByte;
    var a := SlicedCounters(ctr);
    ghost var x := a[..];
    EncryptSliced(pi, t, ks, keys, a);
    ghost var y := a[..];
    var base := i + done * 16;
    StoreChunk(dst, src, base, a, k, true);
    forall q | 16 * done <= q < 16 * done + 16 * k
      ensures Column(y, (q + i - base) / 16)[(q + i - base) % 16] == KeystreamByte(pi, ks, iv, q)
    {
      LaneKeystream(pi, ks, iv, ctr, done, x, y, q);
      assert q + i - base == q - 16 * done;
    }
  }

  lemma LaneKeystream(pi: Sbox, ks: seq<Block>, iv: Block, ctr: Block, done: nat, x: seq<Reg>, y: seq<Reg>, p: nat)
    requires |ks| == 10 && |x| == |y| == 16 && ctr == Add(iv, done) && 16 * done <= p < 16 * done + 512
    requires forall l :: 0 <= l < LANES ==> Column(x, l) == Add(ctr, l)
    requires forall l :: 0 <= l < LANES ==> Column(y, l) == EncryptSpec(pi, ks, Column(x, l))
    ensures (p - 16 * done) / 16 < LANES
    ensures Column(y, (p - 16 * done) / 16)[(p - 16 * done) % 16] == KeystreamByte(pi, ks, iv, p)
  {
    hide EncryptSpec, Add, Column;
    var base := 16 * done;
    ChunkByte(base, p);
    AddAdd(iv, done, (p - base) / 16);
  }

  /** CTRXORBlocks on the m bytes from i on: the keystream from iv over all of them, nothing else
      written, and iv advanced by exactly the block count. */
  method CTRXORBlocks(pi: Sbox, t: Tables, ks: seq<Block>, dst: array<Byte>, src: array<Byte>, i: nat, m: nat,
      iv: array<Byte>)
    requires TablesOk(pi, t) && |ks| == 10
    requires m % 16 == 0 && i + m <= src.Length <= dst.Length && iv.Length == 16 && iv != dst && iv != src
    modifies dst, iv
    ensures Streamed(pi, ks, old(iv[..]), old(src[..]), old(dst[..]), dst[..], i, m)
    ensures iv[..] == Add(old(iv[..]), m / 16)
  {
    hide EncryptSpec, TablesOk, KeysOk, Add, Xor, KeystreamByte, Streamed;
    var keys := BroadcastKeys(ks);
    ghost var src0, dst0, iv0 := src[..], dst[..], iv[..];
    var ctr := new Byte[16](n requires 0 <= n < 16 reads iv => iv[n]);
    assert ctr[..] == iv0;
    AddZero(iv0);
    var total := m / 16;
    var done := 0;
    NothingStreamed(pi, ks, iv0, src0, dst0, i);
    while done < total
      invariant 0 <= done <= total
      invariant ctr[..] == Add(iv0, done)
      invariant iv[..] == iv0
      invariant Streamed(pi, ks, iv0, src0, dst0, dst[..], i, 16 * done)
      invariant src != dst ==> src[..] == src0
    {
      var k := 32;
      if total - done < k { k := total - done; }
      ghost var srcs, dst1 := src[..], dst[..];
      StreamedSource(pi, ks, iv0, src0, dst0, dst1, srcs, src == dst, i, 16 * done);
      StreamChunk(pi, t, ks, keys, dst, src, i, ctr[..], iv0, done, k);
      StreamedMore(pi, ks, iv0, src0, dst0, dst1, dst[..], i, 16 * done, 16 * k);
      AddAdd(iv0, done, k);
      AddCounter(ctr, k);
      done := done + k;
    }
    ghost var written := dst[..];
    assert m == 16 * total;
    forall n | 0 <= n < 16 { iv[n] := ctr[n]; }
    assert iv[..] == ctr[..] && dst[..] == written;
  }

  lemma NothingStreamed(pi: Sbox, ks: seq<Block>, iv: Block, src0: seq<Byte>, dst0: seq<Byte>, i: nat)
    requires |ks| == 10 && i <= |src0| <= |dst0|
    ensures Streamed(pi, ks, iv, src0, dst0, dst0, i, 0)
  {
  }

  /** The source bytes still to come are untouched, also when dst is src. */
  lemma StreamedSource(pi: Sbox, ks: seq<Block>, iv: Block, src0: seq<Byte>, dst0: seq<Byte>, dst: seq<Byte>,
      src: seq<Byte>, inPlace: bool, i: nat, n: nat)
    requires |ks| == 10 && i + n <= |src0| <= |dst0| == |dst| && Streamed(pi, ks, iv, src0, dst0, dst, i, n)
    requires if inPlace then src == dst && src0 == dst0 else src == src0
    ensures |src| == |src0| && forall p :: i + n <= p < |src| ==> src[p] == src0[p]
  {
  }

  lemma StreamedMore(pi: Sbox, ks: seq<Block>, iv: Block, src0: seq<Byte>, dst0: seq<Byte>, dst1: seq<Byte>,
      dst: seq<Byte>, i: nat, n: nat, k: nat)
    requires |ks| == 10 && i + n + k <= |src0| <= |dst0| == |dst1| == |dst|
    requires Streamed(pi, ks, iv, src0, dst0, dst1, i, n)
    requires forall p :: i + n <= p < i + n + k ==> dst[p] == Xor(src0[p], KeystreamByte(pi, ks, iv, p - i))
    requires forall p :: 0 <= p < |dst| && !(i + n <= p < i + n + k) ==> dst[p] == dst1[p]
    ensures Streamed(pi, ks, iv, src0, dst0, dst, i, n + k)
  {
    hide Xor, KeystreamByte;
  }
}
