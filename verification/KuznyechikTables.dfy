/** The in-place transformations of kuznyechik.go, its fused lookup tables, and the proof that
    one table pass equals S then L (or LInv) on every block. */
module KuznyechikTables {
  import opened Gf256
  import opened Blocks
  import opened WordLanes
  import opened Kuznyechik

  // ---- in place ----

  /** s and sInv. */
  method SubstituteBytes(t: Sbox, blk: array<Byte>)
    requires blk.Length == BLOCK_SIZE
    modifies blk
    ensures blk[..] == S(t, old(blk[..]))
  {
    hide At;
    for i := 0 to 16
      invariant forall k :: 0 <= k < i ==> blk[k] == At(t, old(blk[k]))
      invariant forall k :: i <= k < 16 ==> blk[k] == old(blk[k])
    {
      blk[i] := At(t, blk[i]);
    }
    assert blk[..] == S(t, old(blk[..]));
  }

  /** xor. */
  method XorInto(blk: array<Byte>, k: Block)
    requires blk.Length == BLOCK_SIZE
    modifies blk
    ensures blk[..] == XorSeq(old(blk[..]), k)
  {
    hide Xor;
    for i := 0 to 16
      invariant forall j :: 0 <= j < i ==> blk[j] == Xor(old(blk[j]), k[j])
      invariant forall j :: i <= j < 16 ==> blk[j] == old(blk[j])
    {
      blk[i] := Xor(blk[i], k[i]);
    }
    assert blk[..] == XorSeq(old(blk[..]), k);
  }

  /** The accumulation loop r and rInv share: c plus the feedback over y. */
  method Accumulate(c: Byte, y: seq<Byte>) returns (t: Byte)
    requires |y| == 15
    ensures t == Xor(c, Feedback(y, 15))
  {
    assert Feedback(y, 0) == 0;
    hide Xor, Gf, Feedback;
    t := c;
    XorZero(c);
    for i := 0 to 15
      invariant t == Xor(c, Feedback(y, i))
    {
      var g := GfLoop(y[i], LC[i]);
      XorAssoc(c, Feedback(y, i), g);
      FeedbackStep(y, i);
      t := Xor(t, g);
    }
  }

  lemma FeedbackStep(y: seq<Byte>, i: nat)
    requires |y| == 15 && i < 15
    ensures Feedback(y, i + 1) == Xor(Feedback(y, i), Gf(y[i], LC[i]))
  {
    hide Xor, Gf;
  }

  /** r. */
  method RStep(blk: array<Byte>)
    requires blk.Length == BLOCK_SIZE
    modifies blk
    ensures blk[..] == R(old(blk[..]))
  {
    hide Feedback, Xor;
    ghost var x := blk[..];
    assert x[..15] == blk[..15];
    var t := Accumulate(blk[15], blk[..15]);
    forall i | 1 <= i < 16 { blk[i] := blk[i - 1]; }
    blk[0] := t;
    assert blk[..] == [t] + x[..15];
  }

  /** rInv. */
  method RInvStep(blk: array<Byte>)
    requires blk.Length == BLOCK_SIZE
    modifies blk
    ensures blk[..] == RInv(old(blk[..]))
  {
    hide Feedback, Xor;
    ghost var x := blk[..];
    assert x[1..] == blk[1..];
    var t := blk[0];
    var acc := Accumulate(0, blk[1..]);
    XorZero(Feedback(x[1..], 15));
    var old15 := Xor(t, acc);
    forall i | 0 <= i < 15 { blk[i] := blk[i + 1]; }
    blk[15] := old15;
    assert blk[..] == x[1..] + [old15];
  }

  /** l. */
  method LInPlace(blk: array<Byte>)
    requires blk.Length == BLOCK_SIZE
    modifies blk
    ensures blk[..] == L(old(blk[..]))
  {
    hide R;
    for i := 0 to 16
      invariant blk[..] == RTimes(old(blk[..]), i)
    {
      RStep(blk);
    }
  }

  /** lInv. */
  method LInvInPlace(blk: array<Byte>)
    requires blk.Length == BLOCK_SIZE
    modifies blk
    ensures blk[..] == LInv(old(blk[..]))
  {
    hide RInv;
    for i := 0 to 16
      invariant blk[..] == RInvTimes(old(blk[..]), i)
    {
      RInvStep(blk);
    }
  }

  /** The inverse S-box, filled entry by entry; it inverts pi when pi repeats no byte. */
  method BuildInverse(pi: Sbox) returns (inv: Sbox)
    requires forall i, j :: 0 <= i < j < 256 ==> pi[i] != pi[j]
    ensures Inverts(pi, inv)
  {
    hide Index, ToByte;
    inv := Zeros(256);
    for i := 0 to 256
      invariant forall k :: 0 <= k < i ==> Index(inv[Index(pi[k])]) == k
    {
      IndexRoundTrip(i);
      InjectiveIndex(pi, i);
      inv := inv[Index(pi[i]) := ToByte(i)];
    }
    forall b: Byte ensures At(inv, At(pi, b)) == b {
      IndexInjective(At(inv, At(pi, b)), b);
    }
  }

  lemma InjectiveIndex(pi: Sbox, i: nat)
    requires i < 256
    requires forall i, j :: 0 <= i < j < 256 ==> pi[i] != pi[j]
    ensures forall k :: 0 <= k < i ==> Index(pi[k]) != Index(pi[i])
  {
    hide Index;
    forall k | 0 <= k < i ensures Index(pi[k]) != Index(pi[i]) {
      if Index(pi[k]) == Index(pi[i]) { IndexInjective(pi[k], pi[i]); }
    }
  }

  // ---- packed entries ----

  datatype Entry = Entry(hi: bv64, lo: bv64)

  function Pack(b: Block): Entry { Entry(LoadBE(b[..8]), LoadBE(b[8..])) }

  function Unpack(e: Entry): Block { Lanes(e.hi) + Lanes(e.lo) }

  function XorEntry(e: Entry, f: Entry): Entry { Entry(Xor64(e.hi, f.hi), Xor64(e.lo, f.lo)) }

  lemma UnpackPack(b: Block)
    ensures Unpack(Pack(b)) == b
  {
    hide LoadBE, Lanes;
    LanesOfLoad(b[..8]);
    LanesOfLoad(b[8..]);
  }

  lemma UnpackXor(e: Entry, f: Entry)
    ensures Unpack(XorEntry(e, f)) == XorSeq(Unpack(e), Unpack(f))
  {
    hide Lanes, XorSeq, Xor64;
    LanesXor(e.hi, f.hi);
    LanesXor(e.lo, f.lo);
    XorSeqConcat(Lanes(e.hi), Lanes(e.lo), Lanes(f.hi), Lanes(f.lo));
  }

  lemma UnpackZero()
    ensures Unpack(Entry(0, 0)) == Zeros(BLOCK_SIZE)
  {
    hide Lanes;
    LanesConstant();
  }

  /** binary.BigEndian.PutUint64 on the eight bytes from off. */
  method PutUint64(blk: array<Byte>, off: nat, w: bv64)
    requires off + 8 <= blk.Length
    modifies blk
    ensures blk[..] == old(blk[..off]) + Lanes(w) + old(blk[off + 8..])
  {
    hide Lanes;
    var l := Lanes(w);
    forall i | 0 <= i < 8 { blk[off + i] := l[i]; }
    assert blk[off..off + 8] == Lanes(w);
    assert blk[..off] == old(blk[..off]) && blk[off + 8..] == old(blk[off + 8..]);
    assert blk[..] == blk[..off] + blk[off..off + 8] + blk[off + 8..];
  }

  /** The two stores that end every packed transformation. */
  method StoreEntry(blk: array<Byte>, hi: bv64, lo: bv64)
    requires blk.Length == BLOCK_SIZE
    modifies blk
    ensures blk[..] == Unpack(Entry(hi, lo))
  {
    hide Lanes;
    PutUint64(blk, 0, hi);
    assert blk[..8] == Lanes(hi);
    PutUint64(blk, 8, lo);
    assert blk[..] == Lanes(hi) + Lanes(lo);
  }

  // ---- fused tables ----

  /** The entries before row pos, column b hold the packed images under f of single bytes,
      substituted by t, alone in a block. */
  ghost predicate TablePrefix(f: seq<Byte> -> seq<Byte>, t: Sbox, tbl: array2<Entry>, pos: nat, b: nat)
    requires forall x :: |f(x)| == |x|
    requires tbl.Length0 == BLOCK_SIZE && tbl.Length1 == 256
    reads tbl
  {
    forall p, c :: 0 <= p < BLOCK_SIZE && 0 <= c < 256 && (p < pos || (p == pos && c < b)) ==>
      tbl[p, c] == Pack(f(Unit(BLOCK_SIZE, p, t[c])))
  }

  /** The finished table. */
  ghost predicate IsTable(f: seq<Byte> -> seq<Byte>, t: Sbox, tbl: array2<Entry>)
    requires forall x :: |f(x)| == |x|
    reads tbl
  {
    tbl.Length0 == BLOCK_SIZE && tbl.Length1 == 256 && TablePrefix(f, t, tbl, BLOCK_SIZE, 0)
  }

  method SetEntry(ghost f: seq<Byte> -> seq<Byte>, ghost t: Sbox, tbl: array2<Entry>, pos: nat, b: nat, blk: Block)
    requires forall x :: |f(x)| == |x|
    requires tbl.Length0 == BLOCK_SIZE && tbl.Length1 == 256 && pos < BLOCK_SIZE && b < 256
    requires TablePrefix(f, t, tbl, pos, b) && blk == f(Unit(BLOCK_SIZE, pos, t[b]))
    modifies tbl
    ensures TablePrefix(f, t, tbl, pos, b + 1)
  {
    hide Pack;
    tbl[pos, b] := Pack(blk);
  }

  lemma NoEntries(f: seq<Byte> -> seq<Byte>, t: Sbox, tbl: array2<Entry>)
    requires forall x :: |f(x)| == |x|
    requires tbl.Length0 == BLOCK_SIZE && tbl.Length1 == 256
    ensures TablePrefix(f, t, tbl, 0, 0)
  {
    hide Pack;
  }

  lemma AtIndex(t: Sbox, b: Byte)
    ensures At(t, b) == t[Index(b)]
  {
    hide Index;
  }

  lemma NextRow(f: seq<Byte> -> seq<Byte>, t: Sbox, tbl: array2<Entry>, pos: nat)
    requires forall x :: |f(x)| == |x|
    requires tbl.Length0 == BLOCK_SIZE && tbl.Length1 == 256
    requires TablePrefix(f, t, tbl, pos, 256)
    ensures TablePrefix(f, t, tbl, pos + 1, 0)
  {
    hide Pack;
  }

  /** The substitution that changes nothing. */
  function IdentitySbox(): Sbox { seq(256, i requires 0 <= i < 256 => ToByte(i)) }

  lemma IdentityEntry(i: nat)
    requires i < 256
    ensures IdentitySbox()[i] == ToByte(i)
  {
    hide ToByte;
  }

  lemma IdentitySboxAt(b: Byte)
    ensures At(IdentitySbox(), b) == b
  {
    hide Index, ToByte;
    ByteRoundTrip(b);
  }

  /** A zero block with v at pos. */
  method UnitBlock(pos: nat, v: Byte) returns (e: array<Byte>)
    requires pos < BLOCK_SIZE
    ensures fresh(e) && e.Length == BLOCK_SIZE && e[..] == Unit(BLOCK_SIZE, pos, v)
  {
    e := new Byte[16](_ => 0);
    e[pos] := v;
    assert e[..] == Unit(BLOCK_SIZE, pos, v);
  }

  /** buildTables. */
  method BuildTables(pi: Sbox) returns (enc: array2<Entry>, linv: array2<Entry>)
    ensures fresh(enc) && fresh(linv)
    ensures IsTable(L, pi, enc) && IsTable(LInv, IdentitySbox(), linv)
  {
    hide L, LInv, Pack, IdentitySbox, Unit, TablePrefix;
    enc := new Entry[16, 256];
    linv := new Entry[16, 256];
    NoEntries(L, pi, enc);
    NoEntries(LInv, IdentitySbox(), linv);
    for pos := 0 to 16
      invariant TablePrefix(L, pi, enc, pos, 0) && TablePrefix(LInv, IdentitySbox(), linv, pos, 0)
    {
      for b := 0 to 256
        invariant TablePrefix(L, pi, enc, pos, b) && TablePrefix(LInv, IdentitySbox(), linv, pos, b)
      {
        var e := UnitBlock(pos, pi[b]);
        LInPlace(e);
        SetEntry(L, pi, enc, pos, b, e[..]);
        var li := UnitBlock(pos, ToByte(b));
        IdentityEntry(b);
        LInvInPlace(li);
        SetEntry(LInv, IdentitySbox(), linv, pos, b, li[..]);
      }
      NextRow(L, pi, enc, pos);
      NextRow(LInv, IdentitySbox(), linv, pos);
    }
  }

  /** The two exclusive ors that add an entry to the running words. */
  method AddEntry(hi0: bv64, lo0: bv64, e: Entry) returns (hi: bv64, lo: bv64)
    ensures Unpack(Entry(hi, lo)) == XorSeq(Unpack(Entry(hi0, lo0)), Unpack(e))
  {
    hide Unpack, XorSeq, Xor64;
    hi := Xor64(hi0, e.hi);
    lo := Xor64(lo0, e.lo);
    UnpackXor(Entry(hi0, lo0), e);
  }

  /** slEncrypt and lInvFast: sixteen table loads, summed as two words. */
  method TablePass(ghost f: seq<Byte> -> seq<Byte>, ghost t: Sbox, blk: array<Byte>, tbl: array2<Entry>)
    requires blk.Length == BLOCK_SIZE && Additive(BLOCK_SIZE, f)
    requires forall x :: |f(x)| == |x|
    requires IsTable(f, t, tbl)
    modifies blk
    ensures blk[..] == f(S(t, old(blk[..])))
  {
    hide Pack, Unpack, Unit, At, Index, XorSeq;
    var hi, lo: bv64 := 0, 0;
    ghost var x := blk[..];
    ghost var sub := b => At(t, b);
    UnpackZero();
    for pos := 0 to 16
      invariant blk[..] == x
      invariant Unpack(Entry(hi, lo)) == SumOver(BLOCK_SIZE, f, sub, x, pos)
    {
      var e := tbl[pos, Index(blk[pos])];
      AtIndex(t, x[pos]);
      assert e == Pack(f(Unit(BLOCK_SIZE, pos, sub(x[pos]))));
      UnpackPack(f(Unit(BLOCK_SIZE, pos, sub(x[pos]))));
      hi, lo := AddEntry(hi, lo, e);
    }
    Decompose(BLOCK_SIZE, f, sub, x, 16);
    assert Masked(BLOCK_SIZE, sub, x, 16) == S(t, x);
    StoreEntry(blk, hi, lo);
  }

  /** slEncrypt is S followed by L. */
  method SlEncrypt(ghost pi: Sbox, blk: array<Byte>, enc: array2<Entry>)
    requires blk.Length == BLOCK_SIZE && IsTable(L, pi, enc)
    modifies blk
    ensures blk[..] == L(S(pi, old(blk[..])))
  {
    hide L, S;
    LAdditive();
    TablePass(L, pi, blk, enc);
  }

  /** lInvFast is LInv. */
  method LInvFast(blk: array<Byte>, linv: array2<Entry>)
    requires blk.Length == BLOCK_SIZE && IsTable(LInv, IdentitySbox(), linv)
    modifies blk
    ensures blk[..] == LInv(old(blk[..]))
  {
    hide LInv, IdentitySbox;
    LInvAdditive();
    ghost var x := blk[..];
    assert S(IdentitySbox(), x) == x by {
      forall i | 0 <= i < 16 ensures S(IdentitySbox(), x)[i] == x[i] { IdentitySboxAt(x[i]); }
    }
    TablePass(LInv, IdentitySbox(), blk, linv);
  }
}
