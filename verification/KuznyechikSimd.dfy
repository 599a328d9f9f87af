/** simd_amd64.go: 32 blocks at once, byte-sliced over sixteen 32-lane registers. Registers are
    sequences of 32 bytes; the vector instructions are given by their effect on each lane. */
module KuznyechikSimd {
  import opened Gf256
  import opened Blocks
  import opened Kuznyechik
  import opened KuznyechikTables
  import opened KuznyechikMatrix

  const LANES: nat := 32

  type Reg = r: seq<Byte> | |r| == LANES witness Zeros(LANES)

  // ---- nibbles ----

  function Low4(v: Byte): Byte { v & 0x0F }

  function High4(v: Byte): Byte { v & 0xF0 }

  function Shr4(v: Byte): Byte { v >> 4 }

  lemma NibbleIndex(v: Byte)
    ensures Index(Low4(v)) == Index(v) % 16
    ensures Index(High4(v)) == Index(v) / 16 * 16
    ensures Index(Shr4(v)) == Index(v) / 16
  {
    LowIndex(v);
    HighIndex(v);
    ShrIndex(v);
  }

  lemma LowIndex(v: Byte)
    ensures Index(Low4(v)) == Index(v) % 16
  {
  }

  lemma HighIndex(v: Byte)
    ensures Index(High4(v)) == Index(v) - Index(v) % 16
  {
  }

  lemma ShrIndex(v: Byte)
    ensures Index(Shr4(v)) == Index(v) / 16
  {
  }

  lemma NibbleSum(v: Byte)
    ensures Xor(Low4(v), High4(v)) == v
    ensures !TopBit(Low4(v)) && !TopBit(Shr4(v))
    ensures Low4(Low4(v)) == Low4(v) && Low4(Shr4(v)) == Shr4(v)
  {
  }

  // ---- vector instructions, lane by lane ----

  function Fill(b: Byte): Reg { seq(LANES, _ => b) }

  function LowReg(v: Reg): Reg { seq(LANES, l requires 0 <= l < LANES => Low4(v[l])) }

  function HighReg(v: Reg): Reg { seq(LANES, l requires 0 <= l < LANES => High4(v[l])) }

  function OrReg(a: Reg, b: Reg): Reg { seq(LANES, l requires 0 <= l < LANES => Or(a[l], b[l])) }

  function Or(a: Byte, b: Byte): Byte { a | b }

  lemma OrZero(a: Byte)
    ensures Or(a, 0) == a && Or(0, a) == a
  {
  }

  lemma OrSwap(a: Byte, b: Byte, c: Byte, d: Byte)
    ensures Or(Or(a, b), Or(c, d)) == Or(Or(a, c), Or(b, d))
  {
    hide Or;
    OrAssoc(a, b, Or(c, d));
    OrAssoc(b, c, d);
    OrComm(b, c);
    OrAssoc(c, b, d);
    OrAssoc(a, c, Or(b, d));
  }

  lemma OrAssoc(a: Byte, b: Byte, c: Byte)
    ensures Or(Or(a, b), c) == Or(a, Or(b, c))
  {
  }

  lemma OrComm(a: Byte, b: Byte)
    ensures Or(a, b) == Or(b, a)
  {
  }

  /** PermuteOrZeroGrouped: a byte shuffle inside each 16-lane half, zero for an index with the
      top bit set. */
  function Shuffle(t: Reg, idx: Reg): Reg
  {
    seq(LANES, l requires 0 <= l < LANES =>
      NibbleIndex(idx[l]);
      if TopBit(idx[l]) then 0 else t[l / 16 * 16 + Index(Low4(idx[l]))])
  }

  /** a in the lanes where x and y agree, 0 elsewhere: Masked of an Equal. */
  function WhereEqual(a: Reg, x: Reg, y: Reg): Reg
  {
    seq(LANES, l requires 0 <= l < LANES => if x[l] == y[l] then a[l] else 0)
  }

  /** The high half of a 16-bit product. */
  function MulHigh(a: bv16, b: bv16): bv16 { (((a as bv32) * (b as bv32)) >> 16) as bv16 }

  /** Two neighbouring lanes as one little-endian 16-bit lane. */
  function Pair(lo: Byte, hi: Byte): bv16 { (lo as bv16) | ((hi as bv16) << 8) }

  function LowByte(w: bv16): Byte { (w & 0xFF) as Byte }

  function HighByte(w: bv16): Byte { (w >> 8) as Byte }

  /** simdHi4: the right shift by four, by way of a 16-bit high multiplication by 0x1000. */
  function Hi4(x: Reg): Reg
  {
    seq(LANES, l requires 0 <= l < LANES =>
      var w := MulHigh(Pair(x[l / 2 * 2], x[l / 2 * 2 + 1]), 0x1000);
      Low4(if l % 2 == 0 then LowByte(w) else HighByte(w)))
  }

  lemma MulHighNibbles(lo: Byte, hi: Byte)
    ensures
      var w := MulHigh(Pair(lo, hi), 0x1000);
      Low4(LowByte(w)) == Shr4(lo) && Low4(HighByte(w)) == Shr4(hi)
  {
  }

  /** No bit of a neighbouring lane survives the mask. */
  lemma Hi4Exact(x: Reg, l: nat)
    requires l < LANES
    ensures Hi4(x)[l] == Shr4(x[l])
  {
    hide MulHigh, Pair, Low4, Shr4, LowByte, HighByte;
    MulHighNibbles(x[l / 2 * 2], x[l / 2 * 2 + 1]);
  }

  // ---- tables ----

  datatype Tables = Tables(sub: seq<Reg>, hiConst: seq<Reg>, m: seq<seq<Byte>>, gfLo: seq<Reg>, gfHi: seq<Reg>)

  ghost predicate SubOk(pi: Sbox, t: Tables)
  {
    |t.sub| == 16 && |t.hiConst| == 16 &&
    (forall h, l :: 0 <= h < 16 && 0 <= l < LANES ==> t.sub[h][l] == pi[16 * h + l % 16]) &&
    (forall h, l :: 0 <= h < 16 && 0 <= l < LANES ==> t.hiConst[h][l] == ToByte(16 * h))
  }

  ghost predicate MatrixOk(t: Tables)
  {
    |t.m| == 16 && (forall j :: 0 <= j < 16 ==> |t.m[j]| == 16) &&
    (forall j, i :: 0 <= j < 16 && 0 <= i < 16 ==> t.m[j][i] == M(j, i))
  }

  ghost predicate ProductsOk(t: Tables)
  {
    |t.gfLo| == 256 && |t.gfHi| == 256 &&
    (forall c, l :: 0 <= c < 256 && 0 <= l < LANES ==> t.gfLo[c][l] == Gf(ToByte(c), ToByte(l % 16))) &&
    (forall c, l :: 0 <= c < 256 && 0 <= l < LANES ==> t.gfHi[c][l] == Gf(ToByte(c), ToByte(l % 16 * 16)))
  }

  ghost predicate TablesOk(pi: Sbox, t: Tables) { SubOk(pi, t) && MatrixOk(t) && ProductsOk(t) }

  /** The sixteen entries of pi under one high nibble, in both halves of the register. */
  function NibbleRow(pi: Sbox, h: nat): (r: Reg)
    requires h < 16
    ensures forall l :: 0 <= l < LANES ==> r[l] == pi[16 * h + l % 16]
  {
    var row := pi[16 * h..16 * h + 16];
    assert |row + row| == LANES;
    assert forall l :: 0 <= l < 16 ==> (row + row)[l] == row[l] && (row + row)[l + 16] == row[l];
    row + row
  }

  /** init: the sub-tables of pi. */
  method BuildSub(pi: Sbox) returns (sub: seq<Reg>, hiConst: seq<Reg>)
    ensures |sub| == 16 && |hiConst| == 16
    ensures forall h, l :: 0 <= h < 16 && 0 <= l < LANES ==> sub[h][l] == pi[16 * h + l % 16]
    ensures forall h, l :: 0 <= h < 16 && 0 <= l < LANES ==> hiConst[h][l] == ToByte(16 * h)
  {
    hide ToByte, NibbleRow;
    sub, hiConst := [], [];
    for h := 0 to 16
      invariant |sub| == h && |hiConst| == h
      invariant forall k, l :: 0 <= k < h && 0 <= l < LANES ==> sub[k][l] == pi[16 * k + l % 16]
      invariant forall k, l :: 0 <= k < h && 0 <= l < LANES ==> hiConst[k][l] == ToByte(16 * k)
    {
      sub := sub + [NibbleRow(pi, h)];
      hiConst := hiConst + [Fill(ToByte(16 * h))];
    }
  }

  /** init: column i of the matrix is L of the i-th unit block. */
  method BuildMatrix() returns (m: seq<seq<Byte>>)
    ensures |m| == 16 && (forall j :: 0 <= j < 16 ==> |m[j]| == 16)
    ensures forall j, i :: 0 <= j < 16 && 0 <= i < 16 ==> m[j][i] == M(j, i)
  {
    hide L, Unit;
    m := seq(16, _ => []);
    for i := 0 to 16
      invariant |m| == 16 && forall j :: 0 <= j < 16 ==> |m[j]| == i
      invariant forall j, k :: 0 <= j < 16 && 0 <= k < i ==> m[j][k] == M(j, k)
    {
      var e := UnitBlock(i, 1);
      LInPlace(e);
      var col := e[..];
      m := seq(16, j requires 0 <= j < 16 && |m| == 16 => m[j] + [col[j]]);
    }
  }

  /** The entries of the products of c by 0, step, 2 step, .. below n, in both halves of the register. */
  ghost predicate Products(c: Byte, step: nat, a: seq<Byte>, n: nat)
    requires step <= 16
  {
    |a| == LANES && forall l :: 0 <= l < LANES && l % 16 < n ==> a[l] == Gf(c, ToByte(l % 16 * step))
  }

  lemma NextProduct(c: Byte, step: nat, a: seq<Byte>, n: nat)
    requires step <= 16 && n < 16 && Products(c, step, a, n)
    ensures var x := Gf(c, ToByte(n * step)); Products(c, step, a[n := x][n + 16 := x], n + 1)
  {
    hide ToByte, Gf;
  }

  /** The two product tables of one constant. */
  method BuildProducts(c: Byte) returns (lo: Reg, hi: Reg)
    ensures forall l :: 0 <= l < LANES ==> lo[l] == Gf(c, ToByte(l % 16))
    ensures forall l :: 0 <= l < LANES ==> hi[l] == Gf(c, ToByte(l % 16 * 16))
  {
    hide ToByte, Gf, Products;
    var a, b := new Byte[32](_ => 0), new Byte[32](_ => 0);
    NoProducts(c, a[..]);
    NoProducts(c, b[..]);
    for n := 0 to 16
      invariant Products(c, 1, a[..], n) && Products(c, 16, b[..], n)
    {
      ghost var a0, b0 := a[..], b[..];
      NextProduct(c, 1, a0, n);
      NextProduct(c, 16, b0, n);
      var x := GfLoop(c, ToByte(n));
      a[n] := x;
      a[n + 16] := a[n];
      var y := GfLoop(c, ToByte(n * 16));
      b[n] := y;
      b[n + 16] := b[n];
      assert a[..] == a0[n := x][n + 16 := x] && b[..] == b0[n := y][n + 16 := y];
    }
    AllProducts(c, a[..], b[..]);
    lo, hi := a[..], b[..];
  }

  lemma NoProducts(c: Byte, a: seq<Byte>)
    requires |a| == LANES
    ensures Products(c, 1, a, 0) && Products(c, 16, a, 0)
  {
  }

  lemma AllProducts(c: Byte, a: seq<Byte>, b: seq<Byte>)
    requires Products(c, 1, a, 16) && Products(c, 16, b, 16)
    ensures |a| == |b| == LANES
    ensures forall l :: 0 <= l < LANES ==> a[l] == Gf(c, ToByte(l % 16)) && b[l] == Gf(c, ToByte(l % 16 * 16))
  {
    hide ToByte, Gf;
  }

  /** init. */
  method BuildSimdTables(pi: Sbox) returns (t: Tables)
    ensures TablesOk(pi, t)
  {
    hide ToByte, Gf, M;
    var sub, hiConst := BuildSub(pi);
    var m := BuildMatrix();
    var gfLo, gfHi := [], [];
    for c := 0 to 256
      invariant |gfLo| == c && |gfHi| == c
      invariant forall k, l :: 0 <= k < c && 0 <= l < LANES ==> gfLo[k][l] == Gf(ToByte(k), ToByte(l % 16))
      invariant forall k, l :: 0 <= k < c && 0 <= l < LANES ==> gfHi[k][l] == Gf(ToByte(k), ToByte(l % 16 * 16))
    {
      var lo, hi := BuildProducts(ToByte(c));
      gfLo := gfLo + [lo];
      gfHi := gfHi + [hi];
    }
    t := Tables(sub, hiConst, m, gfLo, gfHi);
  }

  // ---- simdS ----

  /** The lookup of one sub-table, kept in the lanes whose high nibble is h. */
  function SubLookup(t: Tables, lo: Reg, hi: Reg, h: nat): Reg
    requires h < 16 && |t.sub| == 16 && |t.hiConst| == 16
  {
    WhereEqual(Shuffle(t.sub[h], lo), hi, t.hiConst[h])
  }

  lemma SubLookupLane(pi: Sbox, t: Tables, v: Reg, h: nat, l: nat)
    requires SubOk(pi, t) && h < 16 && l < LANES
    ensures SubLookup(t, LowReg(v), HighReg(v), h)[l] == if Index(v[l]) / 16 == h then At(pi, v[l]) else 0
  {
    hide Index, ToByte, Low4, High4, TopBit, Xor;
    NibbleIndex(v[l]);
    NibbleSum(v[l]);
    IndexRoundTrip(16 * h);
    if High4(v[l]) == ToByte(16 * h) {
      assert Index(v[l]) / 16 == h;
      LaneInHalf(l, Index(v[l]) % 16);
      assert Shuffle(t.sub[h], LowReg(v))[l] == t.sub[h][l / 16 * 16 + Index(v[l]) % 16];
      assert Index(v[l]) == 16 * h + Index(v[l]) % 16;
    } else {
      if Index(v[l]) / 16 == h {
        IndexInjective(High4(v[l]), ToByte(16 * h));
      }
    }
  }

  lemma LaneInHalf(l: nat, n: nat)
    requires l < LANES && n < 16
    ensures 0 <= l / 16 * 16 + n < LANES && (l / 16 * 16 + n) % 16 == n
  {
  }

  lemma SubSizes(pi: Sbox, t: Tables)
    requires SubOk(pi, t)
    ensures |t.sub| == 16 && |t.hiConst| == 16
  {
  }

  /** What the first h sub-tables have found in a lane. */
  function Found(pi: Sbox, x: Byte, h: nat): Byte { if Index(x) / 16 < h then At(pi, x) else 0 }

  ghost predicate FoundAll(pi: Sbox, v: Reg, h: nat, p0: Reg, p1: Reg, p2: Reg, p3: Reg)
  {
    forall l :: 0 <= l < LANES ==> Or(Or(p0[l], p1[l]), Or(p2[l], p3[l])) == Found(pi, v[l], h)
  }

  /** Exactly one of the sub-tables fills a lane, so the four accumulators may be joined by or. */
  lemma FoundStep(pi: Sbox, t: Tables, v: Reg, h: nat, p0: Reg, p1: Reg, p2: Reg, p3: Reg, l: nat)
    requires SubOk(pi, t) && h + 3 < 16 && l < LANES && FoundAll(pi, v, h, p0, p1, p2, p3)
    ensures
      var lo, hi := LowReg(v), HighReg(v);
      Or(Or(Or(p0[l], SubLookup(t, lo, hi, h)[l]), Or(p1[l], SubLookup(t, lo, hi, h + 1)[l])),
         Or(Or(p2[l], SubLookup(t, lo, hi, h + 2)[l]), Or(p3[l], SubLookup(t, lo, hi, h + 3)[l])))
      == Found(pi, v[l], h + 4)
  {
    hide SubOk, SubLookup, Or, At, Index, LowReg, HighReg;
    var lo, hi := LowReg(v), HighReg(v);
    SubSizes(pi, t);
    var t0, t1 := SubLookup(t, lo, hi, h)[l], SubLookup(t, lo, hi, h + 1)[l];
    var t2, t3 := SubLookup(t, lo, hi, h + 2)[l], SubLookup(t, lo, hi, h + 3)[l];
    SubLookupLane(pi, t, v, h, l);
    SubLookupLane(pi, t, v, h + 1, l);
    SubLookupLane(pi, t, v, h + 2, l);
    SubLookupLane(pi, t, v, h + 3, l);
    OrSwap(p0[l], t0, p1[l], t1);
    OrSwap(p2[l], t2, p3[l], t3);
    OrSwap(Or(p0[l], p1[l]), Or(t0, t1), Or(p2[l], p3[l]), Or(t2, t3));
    OrZero(At(pi, v[l]));
    OrZero(0);
  }

  /** simdS: pi in every lane of every register. */
  method SimdS(pi: Sbox, t: Tables, a: array<Reg>, out: array<Reg>)
    requires a != out && a.Length == 16 && out.Length == 16 && TablesOk(pi, t)
    modifies out
    ensures forall r :: 0 <= r < 16 ==> out[r] == S(pi, a[r])
  {
    hide TablesOk, S, SubOk;
    for r := 0 to 16
      invariant forall k :: 0 <= k < r ==> out[k] == S(pi, a[k])
    {
      var s := SubRegister(pi, t, a[r]);
      out[r] := s;
    }
  }

  method SubRegister(pi: Sbox, t: Tables, v: Reg) returns (s: Reg)
    requires TablesOk(pi, t)
    ensures s == S(pi, v)
  {
    hide SubOk, SubLookup, Or, At, Index, MatrixOk, ProductsOk, LowReg, HighReg;
    var lo, hi := LowReg(v), HighReg(v);
    SubSizes(pi, t);
    var p0, p1, p2, p3 := Fill(0), Fill(0), Fill(0), Fill(0);
    OrZero(0);
    var h := 0;
    while h < 16
      invariant 0 <= h <= 16 && h % 4 == 0
      invariant FoundAll(pi, v, h, p0, p1, p2, p3)
    {
      forall l | 0 <= l < LANES
        ensures Or(Or(Or(p0[l], SubLookup(t, lo, hi, h)[l]), Or(p1[l], SubLookup(t, lo, hi, h + 1)[l])),
                   Or(Or(p2[l], SubLookup(t, lo, hi, h + 2)[l]), Or(p3[l], SubLookup(t, lo, hi, h + 3)[l])))
                == Found(pi, v[l], h + 4)
      {
        FoundStep(pi, t, v, h, p0, p1, p2, p3, l);
      }
      p0 := OrReg(p0, SubLookup(t, lo, hi, h));
      p1 := OrReg(p1, SubLookup(t, lo, hi, h + 1));
      p2 := OrReg(p2, SubLookup(t, lo, hi, h + 2));
      p3 := OrReg(p3, SubLookup(t, lo, hi, h + 3));
      h := h + 4;
    }
    s := OrReg(OrReg(p0, p1), OrReg(p2, p3));
    assert s == S(pi, v);
  }

  // ---- simdL ----

  /** Every lane multiplied by c. */
  function MulReg(c: Byte, v: Reg): Reg { seq(LANES, l requires 0 <= l < LANES => Gf(c, v[l])) }

  /** The two nibble lookups of one product. */
  lemma ProductLane(t: Tables, c: Byte, v: Reg, l: nat)
    requires ProductsOk(t) && l < LANES
    ensures Xor(Shuffle(t.gfLo[Index(c)], LowReg(v))[l], Shuffle(t.gfHi[Index(c)], Hi4(v))[l]) == Gf(c, v[l])
  {
    hide Index, ToByte, Low4, High4, Shr4, TopBit, Xor, Gf, Hi4;
    var x := v[l];
    NibbleIndex(x);
    NibbleSum(x);
    Hi4Exact(v, l);
    ByteRoundTrip(c);
    ByteRoundTrip(Low4(x));
    ByteRoundTrip(High4(x));
    LaneInHalf(l, Index(x) % 16);
    LaneInHalf(l, Index(x) / 16);
    assert Shuffle(t.gfLo[Index(c)], LowReg(v))[l] == Gf(c, Low4(x));
    assert Shuffle(t.gfHi[Index(c)], Hi4(v))[l] == Gf(c, High4(x));
    GfXor(Low4(x), High4(x), c);
  }

  /** One guarded multiply-accumulate. */
  method MulAcc(t: Tables, acc: Reg, c: Byte, lo: Reg, hi: Reg, ghost v: Reg) returns (r: Reg)
    requires ProductsOk(t) && lo == LowReg(v) && hi == Hi4(v)
    ensures r == XorSeq(acc, MulReg(c, v))
  {
    hide Gf, Xor, Shuffle, LowReg, Hi4, Index, ToByte;
    if c != 0 {
      var p := XorSeq(Shuffle(t.gfLo[Index(c)], lo), Shuffle(t.gfHi[Index(c)], hi));
      assert p == MulReg(c, v) by {
        forall l | 0 <= l < LANES ensures p[l] == Gf(c, v[l]) { ProductLane(t, c, v, l); }
      }
      r := XorSeq(acc, p);
    } else {
      assert MulReg(c, v) == Zeros(LANES) by {
        forall l | 0 <= l < LANES ensures Gf(0, v[l]) == 0 { GfZero(v[l]); }
      }
      XorSeqZero(acc);
      r := acc;
    }
  }

  /** The first k terms of row j over whole registers. */
  function RegRow(j: nat, a: seq<Reg>, k: nat): Reg
    requires j < 16 && |a| == 16 && k <= 16
  {
    if k == 0 then Zeros(LANES) else XorSeq(RegRow(j, a, k - 1), MulReg(M(j, k - 1), a[k - 1]))
  }

  lemma NoTerms(j: nat, a: seq<Reg>)
    requires j < 16 && |a| == 16
    ensures RegRow(j, a, 0) == Zeros(LANES)
  {
    hide M, MulReg;
  }

  /** Four accumulators advanced by one term each hold four more terms of the row. */
  lemma FourTerms(a0: Reg, a1: Reg, a2: Reg, a3: Reg, t0: Reg, t1: Reg, t2: Reg, t3: Reg)
    ensures
      XorSeq(XorSeq(XorSeq(a0, t0), XorSeq(a1, t1)), XorSeq(XorSeq(a2, t2), XorSeq(a3, t3))) ==
      XorSeq(XorSeq(XorSeq(XorSeq(XorSeq(XorSeq(a0, a1), XorSeq(a2, a3)), t0), t1), t2), t3)
  {
    hide XorSeq;
    var s := XorSeq(XorSeq(a0, a1), XorSeq(a2, a3));
    XorSeqSwap(a0, t0, a1, t1);
    XorSeqSwap(a2, t2, a3, t3);
    XorSeqSwap(XorSeq(a0, a1), XorSeq(t0, t1), XorSeq(a2, a3), XorSeq(t2, t3));
    XorSeqAssoc(s, XorSeq(t0, t1), XorSeq(t2, t3));
    XorSeqAssoc(s, t0, t1);
    XorSeqAssoc(XorSeq(XorSeq(s, t0), t1), t2, t3);
  }

  lemma RowAdvance(j: nat, a: seq<Reg>, i: nat)
    requires j < 16 && |a| == 16 && i + 4 <= 16
    ensures RegRow(j, a, i + 4) ==
      XorSeq(XorSeq(XorSeq(XorSeq(RegRow(j, a, i), MulReg(M(j, i), a[i])), MulReg(M(j, i + 1), a[i + 1])),
        MulReg(M(j, i + 2), a[i + 2])), MulReg(M(j, i + 3), a[i + 3]))
  {
    hide XorSeq, MulReg, M;
    assert RegRow(j, a, i + 2) ==
      XorSeq(XorSeq(RegRow(j, a, i), MulReg(M(j, i), a[i])), MulReg(M(j, i + 1), a[i + 1]));
  }

  /** One output register of simdL. */
  method RowRegister(t: Tables, j: nat, lo: seq<Reg>, hi: seq<Reg>, ghost a: seq<Reg>) returns (r: Reg)
    requires j < 16 && |lo| == |hi| == |a| == 16 && MatrixOk(t) && ProductsOk(t)
    requires forall i :: 0 <= i < 16 ==> lo[i] == LowReg(a[i]) && hi[i] == Hi4(a[i])
    ensures r == RegRow(j, a, 16)
  {
    hide XorSeq, MulReg, M, LowReg, Hi4, RegRow, ProductsOk;
    var a0, a1, a2, a3 := Fill(0), Fill(0), Fill(0), Fill(0);
    assert Fill(0) == Zeros(LANES);
    XorSeqZero(Fill(0));
    NoTerms(j, a);
    var i := 0;
    while i < 16
      invariant 0 <= i <= 16 && i % 4 == 0
      invariant XorSeq(XorSeq(a0, a1), XorSeq(a2, a3)) == RegRow(j, a, i)
    {
      FourTerms(a0, a1, a2, a3, MulReg(M(j, i), a[i]), MulReg(M(j, i + 1), a[i + 1]),
                MulReg(M(j, i + 2), a[i + 2]), MulReg(M(j, i + 3), a[i + 3]));
      RowAdvance(j, a, i);
      a0 := MulAcc(t, a0, t.m[j][i], lo[i], hi[i], a[i]);
      a1 := MulAcc(t, a1, t.m[j][i + 1], lo[i + 1], hi[i + 1], a[i + 1]);
      a2 := MulAcc(t, a2, t.m[j][i + 2], lo[i + 2], hi[i + 2], a[i + 2]);
      a3 := MulAcc(t, a3, t.m[j][i + 3], lo[i + 3], hi[i + 3], a[i + 3]);
      i := i + 4;
    }
    r := XorSeq(XorSeq(a0, a1), XorSeq(a2, a3));
  }

  /** simdL: the matrix product over whole registers. */
  method SimdL(t: Tables, a: array<Reg>, out: array<Reg>)
    requires a != out && a.Length == 16 && out.Length == 16 && MatrixOk(t) && ProductsOk(t)
    modifies out
    ensures forall j :: 0 <= j < 16 ==> out[j] == RegRow(j, a[..], 16)
  {
    hide LowReg, Hi4, RegRow, MatrixOk, ProductsOk;
    var lo, hi: seq<Reg> := [], [];
    for i := 0 to 16
      invariant |lo| == i && |hi| == i
      invariant forall k :: 0 <= k < i ==> lo[k] == LowReg(a[k]) && hi[k] == Hi4(a[k])
    {
      lo := lo + [LowReg(a[i])];
      hi := hi + [Hi4(a[i])];
    }
    for j := 0 to 16
      invariant a[..] == old(a[..])
      invariant forall k :: 0 <= k < j ==> out[k] == RegRow(k, a[..], 16)
    {
      var r := RowRegister(t, j, lo, hi, a[..]);
      out[j] := r;
    }
  }

  // ---- what the registers mean ----

  /** Block l of a byte-sliced batch. */
  function Column(a: seq<Reg>, l: nat): Block
    requires |a| == 16 && l < LANES
  {
    seq(16, j requires 0 <= j < 16 => a[j][l])
  }

  lemma {:induction false} RegRowLane(j: nat, a: seq<Reg>, k: nat, l: nat)
    requires j < 16 && |a| == 16 && k <= 16 && l < LANES
    ensures RegRow(j, a, k)[l] == RowSum(j, Column(a, l), k)
  {
    hide Gf, Xor, M;
    if k > 0 { RegRowLane(j, a, k - 1, l); }
  }

  /** One round of the batch is one round of every block in it. */
  lemma BatchRound(pi: Sbox, k: Block, a: seq<Reg>, x: seq<Reg>, s: seq<Reg>, out: seq<Reg>, l: nat)
    requires |a| == |x| == |s| == |out| == 16 && l < LANES
    requires forall j :: 0 <= j < 16 ==> x[j] == XorSeq(a[j], Fill(k[j]))
    requires forall j :: 0 <= j < 16 ==> s[j] == S(pi, x[j])
    requires forall j :: 0 <= j < 16 ==> out[j] == RegRow(j, s, 16)
    ensures Column(out, l) == Round(pi, k, Column(a, l))
  {
    hide L, RegRow, RowSum, At, Xor;
    var y := S(pi, XorSeq(Column(a, l), k));
    forall j | 0 <= j < 16 ensures Column(s, l)[j] == y[j] {
      assert x[j][l] == Xor(a[j][l], k[j]);
    }
    assert Column(s, l) == y;
    forall j | 0 <= j < 16 ensures Column(out, l)[j] == L(y)[j] {
      RegRowLane(j, s, 16, l);
      LIsMatrix(y, j);
    }
  }

  // ---- the engine ----

  /** The broadcast round keys. */
  method BroadcastKeys(ks: seq<Block>) returns (b: seq<seq<Reg>>)
    requires |ks| == 10
    ensures KeysOk(ks, b)
  {
    b := [];
    for r := 0 to 10
      invariant |b| == r
      invariant forall p :: 0 <= p < r ==> |b[p]| == 16 && forall j :: 0 <= j < 16 ==> b[p][j] == Fill(ks[p][j])
    {
      b := b + [seq(16, j requires 0 <= j < 16 => Fill(ks[r][j]))];
    }
  }

  ghost predicate KeysOk(ks: seq<Block>, b: seq<seq<Reg>>)
  {
    |ks| == 10 && |b| == 10 &&
    forall p :: 0 <= p < 10 ==> |b[p]| == 16 && forall j :: 0 <= j < 16 ==> b[p][j] == Fill(ks[p][j])
  }

  /** a[j] ^= k[j] for all sixteen registers. */
  method XorKeys(a: array<Reg>, k: seq<Reg>)
    requires a.Length == 16 && |k| == 16
    modifies a
    ensures forall j :: 0 <= j < 16 ==> a[j] == XorSeq(old(a[j]), k[j])
  {
    hide XorSeq;
    for j := 0 to 16
      invariant forall i :: 0 <= i < j ==> a[i] == XorSeq(old(a[i]), k[i])
      invariant forall i :: j <= i < 16 ==> a[i] == old(a[i])
    {
      a[j] := XorSeq(a[j], k[j]);
    }
  }

  /** Column l of a holds the state of block x[l] after n rounds. */
  ghost predicate InRound(pi: Sbox, ks: seq<Block>, x: seq<Reg>, a: seq<Reg>, n: nat)
    requires |ks| == 10 && n <= 9 && |x| == |a| == 16
  {
    forall l :: 0 <= l < LANES ==> Column(a, l) == Rounds(pi, ks, Column(x, l), n)
  }

  lemma BeforeRounds(pi: Sbox, ks: seq<Block>, x: seq<Reg>)
    requires |ks| == 10 && |x| == 16
    ensures InRound(pi, ks, x, x, 0)
  {
    hide Column, Round;
  }

  lemma InRoundLane(pi: Sbox, ks: seq<Block>, x: seq<Reg>, a: seq<Reg>, n: nat, l: nat)
    requires |ks| == 10 && n <= 9 && |x| == |a| == 16 && l < LANES && InRound(pi, ks, x, a, n)
    ensures Column(a, l) == Rounds(pi, ks, Column(x, l), n)
  {
    hide Column, Round;
  }

  lemma InNextRound(pi: Sbox, ks: seq<Block>, x0: seq<Reg>, n: nat,
                    a: seq<Reg>, x: seq<Reg>, s: seq<Reg>, out: seq<Reg>, k: seq<Reg>)
    requires |a| == |x| == |s| == |out| == |k| == |x0| == 16 && |ks| == 10 && n < 9
    requires InRound(pi, ks, x0, a, n)
    requires forall j :: 0 <= j < 16 ==> k[j] == Fill(ks[n][j])
    requires forall j :: 0 <= j < 16 ==> x[j] == XorSeq(a[j], k[j])
    requires forall j :: 0 <= j < 16 ==> s[j] == S(pi, x[j])
    requires forall j :: 0 <= j < 16 ==> out[j] == RegRow(j, s, 16)
    ensures InRound(pi, ks, x0, out, n + 1)
  {
    hide Round, XorSeq, S, RegRow, Column;
    forall l | 0 <= l < LANES ensures Column(out, l) == Rounds(pi, ks, Column(x0, l), n + 1) {
      BatchRound(pi, ks[n], a, x, s, out, l);
    }
  }

  /** One LSX round in place: key, pi into b, L back into a. */
  method SlicedRound(pi: Sbox, t: Tables, ghost ks: seq<Block>, k: seq<Reg>, a: array<Reg>,
                     ghost x0: seq<Reg>, ghost n: nat)
    requires TablesOk(pi, t) && a.Length == 16 && |k| == |x0| == 16 && |ks| == 10 && n < 9
    requires InRound(pi, ks, x0, a[..], n)
    requires forall j :: 0 <= j < 16 ==> k[j] == Fill(ks[n][j])
    modifies a
    ensures InRound(pi, ks, x0, a[..], n + 1)
  {
    hide InRound, S, XorSeq, RegRow, Fill, SubOk, MatrixOk, ProductsOk;
    var b := new Reg[16](_ => Zeros(LANES));
    ghost var a0 := a[..];
    XorKeys(a, k);
    ghost var a1 := a[..];
    SimdS(pi, t, a, b);
    ghost var s := b[..];
    SimdL(t, b, a);
    InNextRound(pi, ks, x0, n, a0, a1, s, a[..], k);
  }

  /** Nine rounds and the last key: every lane holds the encryption of its block. */
  method EncryptSliced(pi: Sbox, t: Tables, ks: seq<Block>, keys: seq<seq<Reg>>, a: array<Reg>)
    requires TablesOk(pi, t) && KeysOk(ks, keys) && a.Length == 16
    modifies a
    ensures forall l :: 0 <= l < LANES ==> Column(a[..], l) == EncryptSpec(pi, ks, Column(old(a[..]), l))
  {
    hide InRound, TablesOk, Column, Fill, Rounds;
    ghost var x0 := a[..];
    BeforeRounds(pi, ks, x0);
    for r := 0 to 9
      invariant InRound(pi, ks, x0, a[..], r)
    {
      SlicedRound(pi, t, ks, keys[r], a, x0, r);
    }
    ghost var y := a[..];
    XorKeys(a, keys[9]);
    forall l | 0 <= l < LANES ensures Column(a[..], l) == EncryptSpec(pi, ks, Column(x0, l)) {
      LastKey(ks[9], y, a[..], l);
      InRoundLane(pi, ks, x0, y, 9, l);
    }
  }

  lemma LastKey(k: Block, y: seq<Reg>, a: seq<Reg>, l: nat)
    requires |y| == |a| == 16 && l < LANES
    requires forall j :: 0 <= j < 16 ==> a[j] == XorSeq(y[j], Fill(k[j]))
    ensures Column(a, l) == XorSeq(Column(y, l), k)
  {
    hide Xor;
    assert Column(a, l) == XorSeq(Column(y, l), k);
  }
}
