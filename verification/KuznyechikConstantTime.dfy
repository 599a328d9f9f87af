/** ctkuznyechik.go: the S-box as a word-parallel scan of all 256 entries and the linear
    transform as 128 masked columns. Both equal the transformations of RFC 7801. */
module KuznyechikConstantTime {
  import opened Gf256
  import opened Blocks
  import opened WordLanes
  import opened Kuznyechik
  import opened KuznyechikTables

  // ---- the S-box scan ----

  /** What the scan has put in a lane holding x after the first b entries. */
  function Scanned(t: Sbox, x: Byte, b: nat): Byte { if Index(x) < b then At(t, x) else 0 }

  lemma ScanStep(t: Sbox, w: bv64, acc: bv64, b: nat, i: nat)
    requires i < 8 && b < 256
    requires Lane(acc, i) == Scanned(t, Lane(w, i), b)
    ensures Lane(ScanWord(w, acc, ToByte(b), t[b]), i) == Scanned(t, Lane(w, i), b + 1)
  {
    hide Lane, ScanWord, Index, ToByte;
    ScanLane(w, acc, ToByte(b), t[b], i);
    IndexRoundTrip(b);
    var x := Lane(w, i);
    if Index(x) == b { IndexInjective(x, ToByte(b)); }
    assert OrByte(0, t[b]) == t[b];
  }

  /** Every lane of acc is what the scan has reached. */
  ghost predicate ScanReached(t: Sbox, w: bv64, acc: bv64, b: nat)
  {
    forall i :: 0 <= i < 8 ==> Lane(acc, i) == Scanned(t, Lane(w, i), b)
  }

  lemma ScanAdvances(t: Sbox, w: bv64, acc: bv64, b: nat)
    requires b < 256 && ScanReached(t, w, acc, b)
    ensures ScanReached(t, w, ScanWord(w, acc, ToByte(b), t[b]), b + 1)
  {
    hide Lane, ScanWord, ToByte, Scanned;
    forall i | 0 <= i < 8
      ensures Lane(ScanWord(w, acc, ToByte(b), t[b]), i) == Scanned(t, Lane(w, i), b + 1)
    {
      ScanStep(t, w, acc, b, i);
    }
  }

  lemma ScanComplete(t: Sbox, w: bv64, acc: bv64)
    requires ScanReached(t, w, acc, 256)
    ensures Lanes(acc) == S(t, Lanes(w))
  {
    hide Lane, At, Index;
    assert Lanes(acc) == S(t, Lanes(w));
  }

  lemma ScanStart(t: Sbox, w: bv64)
    ensures ScanReached(t, w, 0, 0)
  {
    hide At, Index;
    forall i | 0 <= i < 8 ensures Lane(0, i) == 0 { LanesConstant(); assert Lane(0, i) == Lanes(0)[i]; }
  }

  /** ctSbox: both words of a block are substituted in every lane at once. */
  method CtSbox(hi: bv64, lo: bv64, t: Sbox) returns (ah: bv64, al: bv64)
    ensures Lanes(ah) + Lanes(al) == S(t, Lanes(hi) + Lanes(lo))
  {
    hide Lanes, ScanWord, ScanReached, ToByte, At;
    ah, al := 0, 0;
    ScanStart(t, hi);
    ScanStart(t, lo);
    for b := 0 to 256
      invariant ScanReached(t, hi, ah, b) && ScanReached(t, lo, al, b)
    {
      ScanAdvances(t, hi, ah, b);
      ScanAdvances(t, lo, al, b);
      ah := ScanWord(hi, ah, ToByte(b), t[b]);
      al := ScanWord(lo, al, ToByte(b), t[b]);
    }
    ScanComplete(t, hi, ah);
    ScanComplete(t, lo, al);
    SConcat(t, Lanes(hi), Lanes(lo));
  }

  lemma SConcat(t: Sbox, a: seq<Byte>, b: seq<Byte>)
    ensures S(t, a + b) == S(t, a) + S(t, b)
  {
    hide At;
    assert S(t, a + b) == S(t, a) + S(t, b);
  }

  // ---- the masked columns ----

  /** ct.Mask on a word: only the low bit of sel counts. */
  function Mask64(sel: bv64): bv64 { 0 - (sel & 1) }

  lemma MaskSelects(b: Byte, w: bv64)
    ensures And64(w, Mask64(b as bv64)) == if Odd(b) then w else 0
  {
  }

  /** col holds, for every position and bit, the packed image under f of that single bit. */
  ghost predicate ColumnPrefix(f: seq<Byte> -> seq<Byte>, col: array2<Entry>, pos: nat, j: nat)
    requires forall x :: |f(x)| == |x|
    requires col.Length0 == BLOCK_SIZE && col.Length1 == 8
    reads col
  {
    forall p, c :: 0 <= p < BLOCK_SIZE && 0 <= c < 8 && (p < pos || (p == pos && c < j)) ==>
      col[p, c] == Pack(f(Unit(BLOCK_SIZE, p, ShlBy(1, c))))
  }

  ghost predicate IsColumns(f: seq<Byte> -> seq<Byte>, col: array2<Entry>)
    requires forall x :: |f(x)| == |x|
    reads col
  {
    col.Length0 == BLOCK_SIZE && col.Length1 == 8 && ColumnPrefix(f, col, BLOCK_SIZE, 0)
  }

  method SetColumn(ghost f: seq<Byte> -> seq<Byte>, col: array2<Entry>, pos: nat, j: nat, blk: Block)
    requires forall x :: |f(x)| == |x|
    requires col.Length0 == BLOCK_SIZE && col.Length1 == 8 && pos < BLOCK_SIZE && j < 8
    requires ColumnPrefix(f, col, pos, j) && blk == f(Unit(BLOCK_SIZE, pos, ShlBy(1, j)))
    modifies col
    ensures ColumnPrefix(f, col, pos, j + 1)
  {
    hide Pack, ShlBy;
    col[pos, j] := Pack(blk);
  }

  lemma NoColumns(f: seq<Byte> -> seq<Byte>, col: array2<Entry>)
    requires forall x :: |f(x)| == |x|
    requires col.Length0 == BLOCK_SIZE && col.Length1 == 8
    ensures ColumnPrefix(f, col, 0, 0)
  {
    hide Pack, ShlBy;
  }

  lemma NextColumnRow(f: seq<Byte> -> seq<Byte>, col: array2<Entry>, pos: nat)
    requires forall x :: |f(x)| == |x|
    requires col.Length0 == BLOCK_SIZE && col.Length1 == 8
    requires ColumnPrefix(f, col, pos, 8)
    ensures ColumnPrefix(f, col, pos + 1, 0)
  {
    hide Pack, ShlBy;
  }

  /** buildCTColumns. */
  method BuildColumns() returns (lCol: array2<Entry>, lInvCol: array2<Entry>)
    ensures fresh(lCol) && fresh(lInvCol)
    ensures IsColumns(L, lCol) && IsColumns(LInv, lInvCol)
  {
    hide L, LInv, Pack, Unit, ColumnPrefix, ShlBy;
    lCol := new Entry[16, 8];
    lInvCol := new Entry[16, 8];
    NoColumns(L, lCol);
    NoColumns(LInv, lInvCol);
    for pos := 0 to 16
      invariant ColumnPrefix(L, lCol, pos, 0) && ColumnPrefix(LInv, lInvCol, pos, 0)
    {
      for j := 0 to 8
        invariant ColumnPrefix(L, lCol, pos, j) && ColumnPrefix(LInv, lInvCol, pos, j)
      {
        var e := UnitBlock(pos, ShlBy(1, j));
        LInPlace(e);
        SetColumn(L, lCol, pos, j, e[..]);
        var d := UnitBlock(pos, ShlBy(1, j));
        LInvInPlace(d);
        SetColumn(LInv, lInvCol, pos, j, d[..]);
      }
      NextColumnRow(L, lCol, pos);
      NextColumnRow(LInv, lInvCol, pos);
    }
  }

  /** The two masked exclusive ors of one column. */
  method AddMasked(hi0: bv64, lo0: bv64, e: Entry, b: Byte) returns (hi: bv64, lo: bv64)
    ensures Unpack(Entry(hi, lo)) == XorSeq(Unpack(Entry(hi0, lo0)), if Odd(b) then Unpack(e) else Zeros(BLOCK_SIZE))
  {
    hide Unpack, XorSeq, Xor64, And64, Odd, Mask64;
    var m := Mask64(b as bv64);
    MaskSelects(b, e.hi);
    MaskSelects(b, e.lo);
    UnpackZero();
    UnpackXor(Entry(hi0, lo0), Entry(And64(e.hi, m), And64(e.lo, m)));
    hi := Xor64(hi0, And64(e.hi, m));
    lo := Xor64(lo0, And64(e.lo, m));
  }

  /** The eight columns of one byte add the image of that byte. */
  method AddByte(ghost f: seq<Byte> -> seq<Byte>, pos: nat, v: Byte, hi0: bv64, lo0: bv64, col: array2<Entry>)
    returns (hi: bv64, lo: bv64)
    requires Additive(BLOCK_SIZE, f) && pos < BLOCK_SIZE
    requires forall x :: |f(x)| == |x|
    requires IsColumns(f, col)
    ensures Unpack(Entry(hi, lo)) == XorSeq(Unpack(Entry(hi0, lo0)), f(Unit(BLOCK_SIZE, pos, v)))
  {
    hide Pack, Unpack, Unit, ShrBy, ShlBy, XorSeq, Additive, Odd;
    hi, lo := hi0, lo0;
    ghost var base := Unpack(Entry(hi0, lo0));
    XorSeqZero(base);
    for j := 0 to 8
      invariant Unpack(Entry(hi, lo)) == XorSeq(base, BitSum(BLOCK_SIZE, f, pos, v, j))
    {
      var e := col[pos, j];
      UnpackPack(f(Unit(BLOCK_SIZE, pos, ShlBy(1, j))));
      ghost var c := if Odd(ShrBy(v, j)) then Unpack(e) else Zeros(BLOCK_SIZE);
      XorSeqAssoc(base, BitSum(BLOCK_SIZE, f, pos, v, j), c);
      hi, lo := AddMasked(hi, lo, e, ShrBy(v, j));
    }
    BitDecompose(BLOCK_SIZE, f, pos, v, 8);
    LowBitsAll(v);
  }

  /** ctLinear: f of the packed block, without an index that depends on it. */
  method CtLinear(ghost f: seq<Byte> -> seq<Byte>, hi: bv64, lo: bv64, col: array2<Entry>) returns (rh: bv64, rl: bv64)
    requires Additive(BLOCK_SIZE, f)
    requires forall x :: |f(x)| == |x|
    requires IsColumns(f, col)
    ensures Unpack(Entry(rh, rl)) == f(Unpack(Entry(hi, lo)))
  {
    hide Unpack, Unit, XorSeq, Additive, IsColumns;
    var t := new Byte[16](_ => 0);
    StoreEntry(t, hi, lo);
    ghost var x := t[..];
    ghost var id := (b: Byte) => b;
    rh, rl := 0, 0;
    UnpackZero();
    for pos := 0 to 16
      invariant Unpack(Entry(rh, rl)) == SumOver(BLOCK_SIZE, f, id, x, pos)
      invariant t[..] == x
    {
      rh, rl := AddByte(f, pos, t[pos], rh, rl, col);
      assert t[pos] == id(x[pos]);
    }
    Decompose(BLOCK_SIZE, f, id, x, 16);
    assert Masked(BLOCK_SIZE, id, x, 16) == x;
  }

  // ---- the three rounds halves ----

  /** The two loads that start every packed transformation. */
  method LoadBlock(blk: array<Byte>) returns (hi: bv64, lo: bv64)
    requires blk.Length == BLOCK_SIZE
    ensures Lanes(hi) + Lanes(lo) == blk[..]
  {
    hide Lanes, LoadBE;
    hi, lo := LoadBE(blk[0..8]), LoadBE(blk[8..16]);
    LanesOfLoad(blk[0..8]);
    LanesOfLoad(blk[8..16]);
    assert blk[..] == blk[0..8] + blk[8..16];
  }

  /** ctSLEncrypt is S followed by L. */
  method CtSLEncrypt(pi: Sbox, blk: array<Byte>, lCol: array2<Entry>)
    requires blk.Length == BLOCK_SIZE && IsColumns(L, lCol)
    modifies blk
    ensures blk[..] == L(S(pi, old(blk[..])))
  {
    hide L, S, Lanes, IsColumns;
    LAdditive();
    var hi, lo := LoadBlock(blk);
    hi, lo := CtSbox(hi, lo, pi);
    hi, lo := CtLinear(L, hi, lo, lCol);
    StoreEntry(blk, hi, lo);
  }

  /** ctLInvFast is LInv. */
  method CtLInvFast(blk: array<Byte>, lInvCol: array2<Entry>)
    requires blk.Length == BLOCK_SIZE && IsColumns(LInv, lInvCol)
    modifies blk
    ensures blk[..] == LInv(old(blk[..]))
  {
    hide LInv, Lanes, IsColumns;
    LInvAdditive();
    var hi, lo := LoadBlock(blk);
    hi, lo := CtLinear(LInv, hi, lo, lInvCol);
    StoreEntry(blk, hi, lo);
  }

  /** ctSInv is the bytewise inverse S-box. */
  method CtSInv(inv: Sbox, blk: array<Byte>)
    requires blk.Length == BLOCK_SIZE
    modifies blk
    ensures blk[..] == S(inv, old(blk[..]))
  {
    hide S, Lanes;
    var hi, lo := LoadBlock(blk);
    hi, lo := CtSbox(hi, lo, inv);
    StoreEntry(blk, hi, lo);
  }
}
