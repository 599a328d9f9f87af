/** The LPS transformation and the compression function of Streebog (RFC 6986, sections 6 and 8):
    the table-driven form on 64-bit words equals L after P after S on bytes. */
module StreebogTransform {
  import opened Gf256
  import opened Blocks
  import opened WordLanes
  import opened Kuznyechik

  const STATE: nat := 64

  /** The tables of RFC 6986: the substitution, the byte permutation, the rows of the linear map
      and the iteration constants. */
  datatype Consts = Consts(pi: Sbox, tau: seq<nat>, rows: seq<bv64>, c: seq<seq<Byte>>)

  ghost predicate ConstsOk(k: Consts)
  {
    && |k.tau| == 64 && (forall s :: 0 <= s < 64 ==> k.tau[s] < 64)
    && |k.rows| == 64
    && |k.c| == 12 && (forall i :: 0 <= i < 12 ==> |k.c[i]| == STATE)
  }

  lemma ConstSizes(k: Consts)
    requires ConstsOk(k)
    ensures |k.rows| == 64 && |k.c| == 12 && forall i :: 0 <= i < 12 ==> |k.c[i]| == STATE
  {
  }

  // ---- words ----

  lemma Xor64Comm(a: bv64, b: bv64)
    ensures Xor64(a, b) == Xor64(b, a)
  {
  }

  lemma Xor64Assoc(a: bv64, b: bv64, c: bv64)
    ensures Xor64(Xor64(a, b), c) == Xor64(a, Xor64(b, c))
  {
  }

  lemma Xor64Zero(a: bv64)
    ensures Xor64(a, 0) == a && Xor64(0, a) == a && Xor64(a, a) == 0
  {
  }

  lemma Xor64Swap(a: bv64, b: bv64, c: bv64, d: bv64)
    ensures Xor64(Xor64(a, b), Xor64(c, d)) == Xor64(Xor64(a, c), Xor64(b, d))
  {
    hide Xor64;
    Xor64Assoc(a, b, Xor64(c, d));
    Xor64Assoc(b, c, d);
    Xor64Comm(b, c);
    Xor64Assoc(c, b, d);
    Xor64Assoc(a, c, Xor64(b, d));
  }

  /** Byte k of a word in little-endian order. */
  function LaneLE(w: bv64, k: nat): Byte
    requires k < 8
  {
    Lane(w, 7 - k)
  }

  /** binary.LittleEndian.PutUint64. */
  function LanesLE(w: bv64): (r: seq<Byte>)
    ensures |r| == 8
  {
    seq(8, k requires 0 <= k < 8 => LaneLE(w, k))
  }

  function Backwards(b: seq<Byte>): (r: seq<Byte>)
    ensures |r| == |b|
  {
    seq(|b|, k requires 0 <= k < |b| => b[|b| - 1 - k])
  }

  /** binary.LittleEndian.Uint64. */
  function LoadLE(b: seq<Byte>): bv64
    requires |b| == 8
  {
    LoadBE(Backwards(b))
  }

  lemma LanesOfLoadLE(b: seq<Byte>)
    requires |b| == 8
    ensures LanesLE(LoadLE(b)) == b
  {
    hide LoadBE, Lane;
    LanesOfLoad(Backwards(b));
    var w := LoadBE(Backwards(b));
    forall k | 0 <= k < 8 ensures LanesLE(w)[k] == b[k] {
      assert Lane(w, 7 - k) == Lanes(w)[7 - k] == Backwards(b)[7 - k];
    }
  }

  lemma LoadOfLanes(w: bv64)
    ensures LoadBE(Lanes(w)) == w
  {
  }

  lemma LoadLEXor(a: seq<Byte>, b: seq<Byte>)
    requires |a| == |b| == 8
    ensures LoadLE(XorSeq(a, b)) == Xor64(LoadLE(a), LoadLE(b))
  {
    hide LoadBE, Lanes, Xor, Xor64;
    var x, y := Backwards(a), Backwards(b);
    assert Backwards(XorSeq(a, b)) == XorSeq(x, y);
    LanesOfLoad(x);
    LanesOfLoad(y);
    LanesXor(LoadBE(x), LoadBE(y));
    LoadOfLanes(Xor64(LoadBE(x), LoadBE(y)));
  }

  /** The bytes of eight words. */
  function WordsToBytes(w: seq<bv64>): (r: seq<Byte>)
    requires |w| == 8
    ensures |r| == STATE
  {
    seq(64, i requires 0 <= i < 64 => LaneLE(w[i / 8], i % 8))
  }

  function BytesToWords(b: seq<Byte>): (r: seq<bv64>)
    requires |b| == STATE
    ensures |r| == 8
  {
    seq(8, i requires 0 <= i < 8 => LoadLE(b[8 * i..8 * i + 8]))
  }

  lemma BytesOfWords(b: seq<Byte>)
    requires |b| == STATE
    ensures WordsToBytes(BytesToWords(b)) == b
  {
    hide LoadLE, LaneLE;
    forall i | 0 <= i < 64 ensures WordsToBytes(BytesToWords(b))[i] == b[i] {
      var c := b[8 * (i / 8)..8 * (i / 8) + 8];
      LanesOfLoadLE(c);
      assert LanesLE(LoadLE(c))[i % 8] == LaneLE(LoadLE(c), i % 8);
    }
  }

  /** xor512. */
  function XorWords(a: seq<bv64>, b: seq<bv64>): (r: seq<bv64>)
    requires |a| == |b| == 8
    ensures |r| == 8
  {
    seq(8, i requires 0 <= i < 8 => Xor64(a[i], b[i]))
  }

  lemma BytesOfXor(a: seq<bv64>, b: seq<bv64>)
    requires |a| == |b| == 8
    ensures WordsToBytes(XorWords(a, b)) == XorSeq(WordsToBytes(a), WordsToBytes(b))
  {
    hide Lane, Xor, Xor64;
    forall i | 0 <= i < 64 ensures WordsToBytes(XorWords(a, b))[i] == XorSeq(WordsToBytes(a), WordsToBytes(b))[i] {
      LaneXor(a[i / 8], b[i / 8], 7 - i % 8);
    }
  }

  // ---- L and P ----

  function Shr64(w: bv64): bv64 { w >> 1 }

  predicate Odd64(w: bv64) { w & 1 != 0 }

  function ShrBy64(w: bv64, k: nat): bv64 { if k == 0 then w else Shr64(ShrBy64(w, k - 1)) }

  lemma Shr64Xor(a: bv64, b: bv64)
    ensures Shr64(Xor64(a, b)) == Xor64(Shr64(a), Shr64(b))
  {
  }

  lemma Odd64Xor(a: bv64, b: bv64)
    ensures Odd64(Xor64(a, b)) == (Odd64(a) != Odd64(b))
  {
  }

  lemma {:induction false} ShrBy64Xor(a: bv64, b: bv64, k: nat)
    ensures ShrBy64(Xor64(a, b), k) == Xor64(ShrBy64(a, k), ShrBy64(b, k))
  {
    hide Shr64, Xor64;
    if k > 0 {
      ShrBy64Xor(a, b, k - 1);
      Shr64Xor(ShrBy64(a, k - 1), ShrBy64(b, k - 1));
    }
  }

  /** w when c holds, 0 otherwise. */
  function Pick64(c: bool, w: bv64): bv64 { if c then w else 0 }

  /** The rows selected by the k low bits of a word. */
  function RowsOf(rows: seq<bv64>, w: bv64, k: nat): bv64
    requires |rows| == 64 && k <= 64
  {
    if k == 0 then 0
    else Xor64(RowsOf(rows, w, k - 1), Pick64(Odd64(ShrBy64(w, k - 1)), rows[64 - k]))
  }

  lemma Pick64Xor(p: bool, q: bool, w: bv64)
    ensures Pick64(p != q, w) == Xor64(Pick64(p, w), Pick64(q, w))
  {
    hide Xor64;
    Xor64Zero(w);
    Xor64Zero(0);
  }

  lemma {:induction false} RowsOfXor(rows: seq<bv64>, a: bv64, b: bv64, k: nat)
    requires |rows| == 64 && k <= 64
    ensures RowsOf(rows, Xor64(a, b), k) == Xor64(RowsOf(rows, a, k), RowsOf(rows, b, k))
  {
    hide Shr64, Xor64, Odd64, ShrBy64, Pick64;
    if k == 0 {
      Xor64Zero(0);
    } else {
      RowsOfXor(rows, a, b, k - 1);
      ShrBy64Xor(a, b, k - 1);
      RowXor(RowsOf(rows, a, k - 1), RowsOf(rows, b, k - 1), ShrBy64(a, k - 1), ShrBy64(b, k - 1), rows[64 - k]);
    }
  }

  lemma RowXor(ra: bv64, rb: bv64, a: bv64, b: bv64, row: bv64)
    ensures Xor64(Xor64(ra, rb), Pick64(Odd64(Xor64(a, b)), row))
         == Xor64(Xor64(ra, Pick64(Odd64(a), row)), Xor64(rb, Pick64(Odd64(b), row)))
  {
    hide Xor64, Odd64, Pick64;
    Odd64Xor(a, b);
    Pick64Xor(Odd64(a), Odd64(b), row);
    Xor64Swap(ra, rb, Pick64(Odd64(a), row), Pick64(Odd64(b), row));
  }

  function P(k: Consts, a: seq<Byte>): (r: seq<Byte>)
    requires |k.tau| == 64 && (forall s :: 0 <= s < 64 ==> k.tau[s] < 64) && |a| == STATE
    ensures |r| == STATE
  {
    seq(64, s requires 0 <= s < 64 => a[k.tau[s]])
  }

  /** l on one word. */
  function LWord(k: Consts, w: bv64): bv64
    requires |k.rows| == 64
  {
    RowsOf(k.rows, w, 64)
  }

  function LBytes(k: Consts, p: seq<Byte>): (r: seq<Byte>)
    requires |k.rows| == 64 && |p| == STATE
    ensures |r| == STATE
  {
    seq(64, i requires 0 <= i < 64 => LaneLE(LWord(k, LoadLE(p[i / 8 * 8..i / 8 * 8 + 8])), i % 8))
  }

  /** L(P(a)), and a itself when it is not a full state. */
  function LP(k: Consts, a: seq<Byte>): (r: seq<Byte>)
    requires ConstsOk(k)
    ensures |r| == |a|
  {
    if |a| != STATE then a else LBytes(k, P(k, a))
  }

  lemma LPXor(k: Consts, a: seq<Byte>, b: seq<Byte>)
    requires ConstsOk(k) && |a| == |b| == STATE
    ensures LP(k, XorSeq(a, b)) == XorSeq(LP(k, a), LP(k, b))
  {
    hide Lane, LoadLE, Xor, Xor64, RowsOf;
    var p, q := P(k, a), P(k, b);
    assert P(k, XorSeq(a, b)) == XorSeq(p, q);
    forall i | 0 <= i < 64 ensures LP(k, XorSeq(a, b))[i] == XorSeq(LP(k, a), LP(k, b))[i] {
      var x, y := p[i / 8 * 8..i / 8 * 8 + 8], q[i / 8 * 8..i / 8 * 8 + 8];
      assert XorSeq(p, q)[i / 8 * 8..i / 8 * 8 + 8] == XorSeq(x, y);
      LoadLEXor(x, y);
      RowsOfXor(k.rows, LoadLE(x), LoadLE(y), 64);
      LaneXor(LWord(k, LoadLE(x)), LWord(k, LoadLE(y)), 7 - i % 8);
    }
  }

  /** LP as a map, for the decomposition over byte positions. */
  function LPMap(k: Consts): seq<Byte> -> seq<Byte>
    requires ConstsOk(k)
  {
    a => LP(k, a)
  }

  lemma LPAdditive(k: Consts)
    requires ConstsOk(k)
    ensures Additive(STATE, LPMap(k))
  {
    hide LP;
    forall a: seq<Byte>, b: seq<Byte> ensures AdditiveAt(STATE, LPMap(k), a, b) {
      if |a| == STATE && |b| == STATE { LPXor(k, a, b); }
    }
  }

  /** L(P(S(x))). */
  function LPS(k: Consts, x: seq<Byte>): (r: seq<Byte>)
    requires ConstsOk(k) && |x| == STATE
    ensures |r| == STATE
  {
    LP(k, S(k.pi, x))
  }

  // ---- the code ----

  /** linearLP: the permutation, then l word by word, bit by bit. */
  method LinearLP(k: Consts, a: seq<Byte>) returns (out: seq<Byte>)
    requires ConstsOk(k) && |a| == STATE
    ensures out == LP(k, a)
  {
    hide Lane, LoadLE, Xor64, Odd64, RowsOf, ShrBy64, ConstsOk;
    var p := PermuteBytes(k, a);
    out := [];
    ConstSizes(k);
    for w := 0 to 8
      invariant |out| == 8 * w && out == LBytes(k, p)[..8 * w]
    {
      var word := LoadLE(p[8 * w..8 * w + 8]);
      var acc: bv64 := 0;
      NoRows(k.rows, word);
      for bit := 0 to 64
        invariant acc == RowsOf(k.rows, word, bit)
      {
        RowsStep(k.rows, word, bit);
        if Odd64(ShrBy64(word, bit)) { acc := Xor64(acc, k.rows[63 - bit]); }
      }
      out := out + LanesLE(acc);
    }
  }

  lemma NoRows(rows: seq<bv64>, w: bv64)
    requires |rows| == 64
    ensures RowsOf(rows, w, 0) == 0
  {
    hide Xor64, Odd64, ShrBy64;
  }

  lemma RowsStep(rows: seq<bv64>, w: bv64, bit: nat)
    requires |rows| == 64 && bit < 64
    ensures RowsOf(rows, w, bit + 1) ==
      if Odd64(ShrBy64(w, bit)) then Xor64(RowsOf(rows, w, bit), rows[63 - bit]) else RowsOf(rows, w, bit)
  {
    hide Xor64, Odd64, ShrBy64;
    Xor64Zero(RowsOf(rows, w, bit));
  }

  method PermuteBytes(k: Consts, a: seq<Byte>) returns (p: seq<Byte>)
    requires ConstsOk(k) && |a| == STATE
    ensures p == P(k, a)
  {
    p := [];
    for s := 0 to 64
      invariant p == P(k, a)[..s]
    {
      p := p + [a[k.tau[s]]];
    }
  }

  /** lpTable[p][v] is the packed image of the byte v alone at position p. */
  ghost predicate IsLpTable(k: Consts, t: seq<seq<seq<bv64>>>)
    requires ConstsOk(k)
  {
    |t| == 64 && (forall p :: 0 <= p < 64 ==> |t[p]| == 256) &&
    forall p, v :: 0 <= p < 64 && 0 <= v < 256 ==> t[p][v] == BytesToWords(LP(k, Unit(STATE, p, ToByte(v))))
  }

  /** init. */
  method BuildLpTable(k: Consts) returns (t: seq<seq<seq<bv64>>>)
    requires ConstsOk(k)
    ensures IsLpTable(k, t)
  {
    hide LP, BytesToWords, Unit, ToByte, ConstsOk;
    t := [];
    for p := 0 to 64
      invariant |t| == p && (forall q :: 0 <= q < p ==> |t[q]| == 256)
      invariant forall q, v :: 0 <= q < p && 0 <= v < 256 ==>
        t[q][v] == BytesToWords(LP(k, Unit(STATE, q, ToByte(v))))
    {
      var row: seq<seq<bv64>> := [];
      for v := 0 to 256
        invariant |row| == v
        invariant forall u :: 0 <= u < v ==> row[u] == BytesToWords(LP(k, Unit(STATE, p, ToByte(u))))
      {
        var x := LinearLP(k, Unit(STATE, p, ToByte(v)));
        row := row + [BytesToWords(x)];
      }
      t := t + [row];
    }
  }

  function SubMap(k: Consts): Byte -> Byte
    requires ConstsOk(k)
  {
    (v: Byte) => At(k.pi, v)
  }

  /** The sum of the images of the first n substituted bytes. */
  ghost function LpsSum(k: Consts, b: seq<Byte>, n: nat): (r: seq<Byte>)
    requires ConstsOk(k) && |b| == STATE && n <= STATE
    ensures |r| == STATE
  {
    SumOver(STATE, LPMap(k), SubMap(k), b, n)
  }

  lemma LpsSumEnds(k: Consts, b: seq<Byte>)
    requires ConstsOk(k) && |b| == STATE
    ensures LpsSum(k, b, 0) == Zeros(STATE) && LpsSum(k, b, 64) == LPS(k, b)
  {
    hide LP, At, XorSeq;
    LPAdditive(k);
    Decompose(STATE, LPMap(k), SubMap(k), b, 64);
    assert Masked(STATE, SubMap(k), b, 64) == S(k.pi, b);
  }

  /** lps: 64 table loads, summed word by word. */
  method Lps(k: Consts, t: seq<seq<seq<bv64>>>, x: seq<bv64>) returns (r: seq<bv64>)
    requires ConstsOk(k) && IsLpTable(k, t) && |x| == 8
    ensures |r| == 8 && WordsToBytes(r) == LPS(k, WordsToBytes(x))
  {
    hide WordsToBytes, ConstsOk, IsLpTable, LpsSum, LPS;
    r := seq(8, _ => 0);
    ZeroWords();
    LpsSumEnds(k, WordsToBytes(x));
    for p := 0 to 8
      invariant |r| == 8 && WordsToBytes(r) == LpsSum(k, WordsToBytes(x), 8 * p)
    {
      for j := 0 to 8
        invariant |r| == 8 && WordsToBytes(r) == LpsSum(k, WordsToBytes(x), 8 * p + j)
      {
        r := AddEntry(k, t, x, r, p, j);
      }
    }
  }

  /** The table entry of byte j of word p joins the sum. */
  method AddEntry(k: Consts, t: seq<seq<seq<bv64>>>, x: seq<bv64>, r: seq<bv64>, p: nat, j: nat) returns (r': seq<bv64>)
    requires ConstsOk(k) && IsLpTable(k, t) && |x| == |r| == 8 && p < 8 && j < 8
    requires WordsToBytes(r) == LpsSum(k, WordsToBytes(x), 8 * p + j)
    ensures |r'| == 8
    ensures WordsToBytes(r') == LpsSum(k, WordsToBytes(x), 8 * p + j + 1)
  {
    hide LP, BytesToWords, WordsToBytes, Unit, ToByte, At, ConstsOk, XorSeq, IsLpTable, XorWords;
    var v := At(k.pi, LaneLE(x[p], j));
    ByteOfWords(x, p, j);
    TableSizes(k, t, 8 * p + j);
    var e := t[8 * p + j][Index(v)];
    TableEntry(k, t, 8 * p + j, v);
    BytesOfXor(r, e);
    r' := XorWords(r, e);
  }

  lemma TableSizes(k: Consts, t: seq<seq<seq<bv64>>>, p: nat)
    requires ConstsOk(k) && IsLpTable(k, t) && p < 64
    ensures |t| == 64 && |t[p]| == 256
  {
    hide LP, BytesToWords;
  }

  lemma ZeroWords()
    ensures WordsToBytes(seq(8, _ => 0)) == Zeros(STATE)
  {
    hide Lane;
    forall i | 0 <= i < 8 ensures Lane(0, i) == 0 { LanesConstant(); assert Lane(0, i) == Lanes(0)[i]; }
  }

  lemma ByteOfWords(x: seq<bv64>, p: nat, j: nat)
    requires |x| == 8 && p < 8 && j < 8
    ensures WordsToBytes(x)[8 * p + j] == LaneLE(x[p], j)
  {
    hide Lane;
    assert (8 * p + j) / 8 == p && (8 * p + j) % 8 == j;
  }

  lemma TableEntry(k: Consts, t: seq<seq<seq<bv64>>>, p: nat, v: Byte)
    requires ConstsOk(k) && IsLpTable(k, t) && p < 64
    ensures |t[p]| == 256 && |t[p][Index(v)]| == 8
    ensures WordsToBytes(t[p][Index(v)]) == LPMap(k)(Unit(STATE, p, v))
  {
    hide LP, BytesToWords, WordsToBytes, Unit, ToByte, ConstsOk, Index;
    ByteRoundTrip(v);
    BytesOfWords(LP(k, Unit(STATE, p, v)));
  }

  // ---- the compression function ----

  /** The round key and state after i of the twelve rounds. */
  function ERound(k: Consts, key: seq<Byte>, m: seq<Byte>, i: nat): (r: (seq<Byte>, seq<Byte>))
    requires ConstsOk(k) && |key| == |m| == STATE && i <= 12
    ensures |r.0| == |r.1| == STATE
  {
    if i == 0 then (key, XorSeq(m, key))
    else
      var (q, s) := ERound(k, key, m, i - 1);
      var next := LPS(k, XorSeq(q, k.c[i - 1]));
      (next, XorSeq(LPS(k, s), next))
  }

  /** E(K, m). */
  function E(k: Consts, key: seq<Byte>, m: seq<Byte>): (r: seq<Byte>)
    requires ConstsOk(k) && |key| == |m| == STATE
    ensures |r| == STATE
  {
    ERound(k, key, m, 12).1
  }

  /** g_N(h, m) = E(LPS(h + N), m) + h + m. */
  function G(k: Consts, h: seq<Byte>, m: seq<Byte>, n: seq<Byte>): (r: seq<Byte>)
    requires ConstsOk(k) && |h| == |m| == |n| == STATE
    ensures |r| == STATE
  {
    XorSeq(XorSeq(E(k, LPS(k, XorSeq(h, n)), m), h), m)
  }

  /** e on words. */
  method EWords(k: Consts, t: seq<seq<seq<bv64>>>, key0: seq<bv64>, m: seq<bv64>) returns (state: seq<bv64>)
    requires ConstsOk(k) && IsLpTable(k, t) && |key0| == |m| == 8
    ensures |state| == 8 && WordsToBytes(state) == E(k, WordsToBytes(key0), WordsToBytes(m))
  {
    hide LPS, WordsToBytes, BytesToWords, XorWords, XorSeq, IsLpTable, ConstsOk, ERound;
    ghost var kb, mb := WordsToBytes(key0), WordsToBytes(m);
    var key := key0;
    BytesOfXor(m, key);
    state := XorWords(m, key);
    EStart(k, kb, mb);
    ConstSizes(k);
    for i := 0 to 12
      invariant |key| == |state| == 8
      invariant (WordsToBytes(key), WordsToBytes(state)) == ERound(k, kb, mb, i)
    {
      var c := BytesToWords(k.c[i]);
      BytesOfWords(k.c[i]);
      BytesOfXor(key, c);
      EStep(k, kb, mb, i);
      key := Lps(k, t, XorWords(key, c));
      var s := Lps(k, t, state);
      BytesOfXor(s, key);
      state := XorWords(s, key);
    }
  }

  lemma EStart(k: Consts, key: seq<Byte>, m: seq<Byte>)
    requires ConstsOk(k) && |key| == |m| == STATE
    ensures ERound(k, key, m, 0) == (key, XorSeq(m, key))
  {
    hide LPS, XorSeq;
  }

  lemma EStep(k: Consts, key: seq<Byte>, m: seq<Byte>, i: nat)
    requires ConstsOk(k) && |key| == |m| == STATE && i < 12
    ensures
      var (q, s) := ERound(k, key, m, i);
      var next := LPS(k, XorSeq(q, k.c[i]));
      ERound(k, key, m, i + 1) == (next, XorSeq(LPS(k, s), next))
  {
    hide LPS, XorSeq;
  }

  /** g on words. */
  method GWords(k: Consts, t: seq<seq<seq<bv64>>>, h: seq<bv64>, m: seq<bv64>, n: seq<bv64>) returns (r: seq<bv64>)
    requires ConstsOk(k) && IsLpTable(k, t) && |h| == |m| == |n| == 8
    ensures |r| == 8 && WordsToBytes(r) == G(k, WordsToBytes(h), WordsToBytes(m), WordsToBytes(n))
  {
    hide LPS, E, WordsToBytes, XorWords, XorSeq, IsLpTable, ConstsOk;
    BytesOfXor(h, n);
    var key := Lps(k, t, XorWords(h, n));
    var u := EWords(k, t, key, m);
    BytesOfXor(u, h);
    BytesOfXor(XorWords(u, h), m);
    r := XorWords(XorWords(u, h), m);
  }
}
