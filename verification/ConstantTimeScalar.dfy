/** Constant-time scalar multiplication (ctscalar.go): fixed window and Montgomery ladder
    over the limb formulas, and the entry point ScalarMultCT. */
module ConstantTimeScalar {
  import opened ModArith
  import opened Words
  import opened Ct
  import opened Bytes
  import opened MontgomeryField
  import opened FieldModel
  import opened AffineCurve
  import opened ProjectiveCurve
  import opened CompleteFormulas
  import opened CurveGroup
  import opened ConstantTimeCurve

  // ------------------------------------------------------------- scalar digits

  /** Fixed-width big-endian bytes to little-endian limbs. */
  method ScalarBytesToLimbs(n: nat, b: seq<Octet>) returns (out: Fe)
    requires |b| == 8 * n
    ensures |out| == n && Val(out) == BE(b)
  {
    var o := new Word[n];
    for i := 0 to n
      invariant Val(o[..i]) == BE(b[8 * (n - i)..])
    {
      var w := b[8 * (n - 1 - i)..8 * (n - i)];
      EightBytes(w);
      o[i] := BE(w);
      ValPrefix(o[..], i);
      assert o[..][..i + 1] == o[..i + 1] && o[..][..i] == o[..i];
      NextLimb(n, i, b);
    }
    assert b[0..] == b && o[..n] == o[..];
    out := o[..];
  }

  lemma NextLimb(n: nat, i: nat, b: seq<Octet>)
    requires i < n && |b| == 8 * n
    ensures BE(b[8 * (n - 1 - i)..]) == BE(b[8 * (n - i)..]) + Pow(B, i) * BE(b[8 * (n - 1 - i)..8 * (n - i)])
  {
    hide BE, Pow;
    var w, rest := b[8 * (n - 1 - i)..8 * (n - i)], b[8 * (n - i)..];
    BEConcat(w, rest);
    assert b[8 * (n - 1 - i)..] == w + rest;
    ByteWeight(i);
  }

  lemma EightBytes(w: seq<Octet>)
    requires |w| == 8
    ensures BE(w) < B
  {
    BEBound(w);
    ByteWeight(1);
    assert Pow(B, 1) == B * Pow(B, 0);
  }

  lemma {:induction false} ByteWeight(i: nat)
    ensures Pow(256, 8 * i) == Pow(B, i)
  {
    if i > 0 {
      ByteWeight(i - 1);
      PowAdd(256, 8, 8 * (i - 1));
      assert Pow(256, 4) == 0x1_0000_0000;
      PowAdd(256, 4, 4);
    }
  }

  lemma {:induction false} BEConcat(a: seq<Octet>, b: seq<Octet>)
    ensures BE(a + b) == BE(a) * Pow(256, |b|) + BE(b)
  {
    if |b| == 0 {
      assert a + b == a;
    } else {
      BEConcat(a, b[..|b| - 1]);
      assert (a + b)[..|a + b| - 1] == a + b[..|b| - 1];
      MulAssoc(BE(a), 256, Pow(256, |b| - 1));
      assert BE(a) * (256 * Pow(256, |b| - 1)) == BE(a) * Pow(256, |b| - 1) * 256;
    }
  }

  /** Bits [pos, pos + w) of a limb vector, read from a single limb. */
  function LimbDigit(s: Fe, pos: nat, w: nat): (d: nat)
    requires pos / 64 < |s|
  {
    PowPositive(2, pos % 64);
    PowPositive(2, w);
    s[pos / 64] / Pow(2, pos % 64) % Pow(2, w)
  }

  /** When the digit does not straddle a limb it is the digit of the value. */
  lemma LimbDigitOfValue(s: Fe, pos: nat, w: nat)
    requires pos / 64 < |s| && pos % 64 + w <= 64
    ensures Pow(2, w) > 0 && LimbDigit(s, pos, w) == High(Val(s), pos) % Pow(2, w)
  {
    var i, j := pos / 64, pos % 64;
    DigitWeights(i, j, w);
    assert pos == 64 * i + j;
    SplitAt(s, i);
    ValBound(s[..i]);
    DigitArithmetic(Val(s), Pow(B, i), Val(s[..i]), Val(s[i..]), s[i], Val(s[i + 1..]), Pow(2, j), Pow(2, w), Pow(2, 64 - j - w));
  }

  lemma DigitWeights(i: nat, j: nat, w: nat)
    requires j + w <= 64
    ensures Pow(B, i) > 0 && Pow(2, j) > 0 && Pow(2, w) > 0 && Pow(2, 64 - j - w) > 0
    ensures Pow(2, 64 * i + j) == Pow(B, i) * Pow(2, j)
    ensures B == Pow(2, j) * (Pow(2, w) * Pow(2, 64 - j - w))
  {
    PowPositive(2, w);
    PowPositive(2, j);
    PowPositive(2, 64 - j - w);
    PowPositive(B, i);
    PowOfPow(i);
    PowAdd(2, 64 * i, j);
    PowAdd(2, j, 64 - j);
    PowAdd(2, w, 64 - j - w);
    WordSize();
  }

  lemma {:induction false} ValAppend(a: Fe, b: Fe)
    ensures Val(a + b) == Val(a) + Pow(B, |a|) * Val(b)
  {
    if |a| == 0 {
      assert a + b == b;
    } else {
      ValAppend(a[1..], b);
      assert (a + b)[1..] == a[1..] + b;
      MulAssoc(B, Pow(B, |a| - 1), Val(b));
    }
  }

  lemma SplitAt(s: Fe, i: nat)
    requires i < |s|
    ensures Val(s) == Val(s[..i]) + Pow(B, i) * Val(s[i..])
    ensures Val(s[i..]) == s[i] + B * Val(s[i + 1..])
  {
    var t := s[i..];
    ValAppend(s[..i], t);
    assert s == s[..i] + t && t[1..] == s[i + 1..];
    assert Val(t) == t[0] + B * Val(t[1..]);
  }

  lemma DigitArithmetic(v: int, q: int, low: int, t: int, x: int, rest: int, d: int, w: int, e: int)
    requires q > 0 && 0 <= low < q && d > 0 && w > 0 && e > 0 && 0 <= x
    requires v == low + q * t && t == x + B * rest && B == d * (w * e)
    ensures q * d > 0 && v / (q * d) % w == x / d % w
  {
    MulPositive(q, d);
    DivMod(x, d);
    var k, r := x / d, x % d;
    assert t == d * (k + w * (e * rest)) + r by {
      assert d * (w * e) * rest == d * (w * (e * rest));
    }
    DigitQuotient(v, q, low, d, k + w * (e * rest), r);
    CongIntro(k + w * (e * rest), k, w, e * rest);
    CongIffModEq(k + w * (e * rest), k, w);
  }

  lemma DigitQuotient(v: int, q: int, low: int, d: int, t: int, r: int)
    requires q > 0 && 0 <= low < q && d > 0 && 0 <= r < d && q * d > 0
    requires v == low + q * (d * t + r)
    ensures v / (q * d) == t
  {
    assert q * (d * t + r) == (q * d) * t + q * r by { MulAssoc(q, d, t); }
    assert 0 <= q * r <= q * d - q by { MulMono(r, d - 1, q); MulMono(0, r, q); }
    ModUnique(v, q * d, t, low + q * r);
  }

  // ------------------------------------------------------------ the fixed window

  /** The table entry with index digit, by a masked scan of all sixteen. */
  method SelectWindow(n: nat, tbl: seq<CtPoint>, digit: Word) returns (r: CtPoint)
    requires |tbl| == 16 && digit < 16
    requires forall j :: 0 <= j < 16 ==> |tbl[j].x| == n && |tbl[j].y| == n && |tbl[j].z| == n
    ensures r == tbl[digit]
  {
    var zero: Fe := seq(n, _ => 0);
    r := PPoint(zero, zero, zero);
    for j := 0 to 16
      invariant |r.x| == n && |r.y| == n && |r.z| == n
      invariant j > digit ==> r == tbl[digit]
    {
      var mask := Eq(j, digit);
      EqIsComparison(j, digit);
      var x := Cmov(mask, tbl[j].x, r.x);
      var y := Cmov(mask, tbl[j].y, r.y);
      var z := Cmov(mask, tbl[j].z, r.z);
      r := PPoint(x, y, z);
    }
  }

  /** What the window method needs of its curve and point. */
  ghost predicate Suitable(c: Curve, cc: CtCurve, P: Point)
  {
    c.Valid() && c.NonSingular() && Associative(c) && cc.For(c) && IsOnCurve(c, P)
  }

  /** The limbs stand for m·P, or are (0:0:0) when an exceptional addition came before. */
  ghost predicate Holds(c: Curve, f: Field, p: CtPoint, m: nat, P: Point, good: bool)
    requires c.Valid() && f.Valid() && IsOnCurve(c, P)
  {
    if good then Stands(f, p, Times(c, m, P)) else Collapsed(f, p)
  }

  function Gap(m: nat, d: nat): nat { if m >= d then m - d else d - m }

  /** j·P has order two. */
  ghost predicate HasOrderTwoAt(c: Curve, P: Point, j: nat)
    requires c.Valid() && IsOnCurve(c, P)
  {
    OrderTwo(Times(c, j, P))
  }

  /** Adding multiples: right unless their difference has order two, and (0:0:0) absorbs. */
  lemma AddMultiples(c: Curve, cc: CtCurve, P: Point, p: CtPoint, q: CtPoint, m: nat, d: nat, a: bool, b: bool)
    requires Suitable(c, cc, P) && Holds(c, cc.f, p, m, P, a) && Holds(c, cc.f, q, d, P, b)
    ensures Holds(c, cc.f, CtAdd(cc, p, q), m + d, P, a && b && !HasOrderTwoAt(c, P, Gap(m, d)))
  {
    hide Add, IsOnCurve, CtAdd, IsPrime, Represents;
    if !a || !b {
      CtAddAbsorbs(cc, p, q);
    } else {
      var M, D := Times(c, m, P), Times(c, d, P);
      DifferenceOfMultiples(c, m, d, P);
      NegKeepsOrderTwo(c, Times(c, Gap(m, d), P));
      CtAddStands(cc, c, p, q, M, D);
      TimesAdd(c, m, d, P);
    }
  }

  lemma DoubleMultiple(c: Curve, cc: CtCurve, P: Point, p: CtPoint, m: nat, a: bool)
    requires Suitable(c, cc, P) && Holds(c, cc.f, p, m, P, a)
    ensures Holds(c, cc.f, CtDouble(cc, p), 2 * m, P, a)
  {
    hide Double, IsOnCurve, CtDouble, IsPrime, Represents;
    if a {
      CtDoubleStands(cc, c, p, Times(c, m, P));
      TimesDouble(c, m, P);
    } else {
      CtDoubleAbsorbs(cc, p);
    }
  }

  /** No addition that led to the table entry j met a difference of order two. */
  ghost predicate EntrySafe(c: Curve, P: Point, j: nat)
    requires c.Valid() && IsOnCurve(c, P)
  {
    forall i: nat :: i + 2 <= j ==> !HasOrderTwoAt(c, P, i)
  }

  lemma EntryStep(c: Curve, P: Point, j: nat)
    requires c.Valid() && IsOnCurve(c, P) && j >= 2
    ensures EntrySafe(c, P, j) <==> EntrySafe(c, P, j - 1) && !HasOrderTwoAt(c, P, j - 2)
  {
    hide Times, OrderTwo;
  }

  /** The table stands for 0·P, 1·P, ..., 15·P. */
  ghost predicate TableStands(c: Curve, f: Field, tbl: seq<CtPoint>, P: Point)
    requires c.Valid() && f.Valid() && IsOnCurve(c, P)
  {
    forall j :: 0 <= j < |tbl| ==> Stands(f, tbl[j], Times(c, j, P))
  }

  /** Entry by entry, for every point. */
  ghost predicate TableHolds(c: Curve, f: Field, tbl: seq<CtPoint>, P: Point)
    requires c.Valid() && f.Valid() && IsOnCurve(c, P)
  {
    forall j :: 0 <= j < |tbl| ==> Holds(c, f, tbl[j], j, P, EntrySafe(c, P, j))
  }

  /** 0·P .. 15·P by repeated addition: each entry up to the first whose difference from P has
      order two stands, so all do exactly when none of 1·P .. 13·P has order two. */
  method BuildTable(c: Curve, cc: CtCurve, p: CtPoint, ghost P: Point) returns (tbl: seq<CtPoint>)
    requires Suitable(c, cc, P) && Stands(cc.f, p, P)
    ensures |tbl| == 16 && TableHolds(c, cc.f, tbl, P)
    ensures TableStands(c, cc.f, tbl, P) <==> forall j :: 1 <= j <= 13 ==> !HasOrderTwoAt(c, P, j)
  {
    hide Add, IsOnCurve, Stands, Collapsed, CtAdd, IsPrime, EntrySafe;
    var id := Identity(cc.f);
    FirstEntries(c, P);
    tbl := [id, p];
    for i := 2 to 16
      invariant |tbl| == i && TableHolds(c, cc.f, tbl, P)
    {
      AddMultiples(c, cc, P, tbl[i - 1], p, i - 1, 1, EntrySafe(c, P, i - 1), true);
      EntryStep(c, P, i);
      tbl := tbl + [CtAdd(cc, tbl[i - 1], p)];
    }
    WholeTable(c, cc.f, tbl, P);
  }

  lemma FirstEntries(c: Curve, P: Point)
    requires c.Valid() && IsOnCurve(c, P)
    ensures Times(c, 0, P) == Infinity && Times(c, 1, P) == P && EntrySafe(c, P, 0) && EntrySafe(c, P, 1)
  {
    TimesOne(c, P);
  }

  lemma WholeTable(c: Curve, f: Field, tbl: seq<CtPoint>, P: Point)
    requires c.Valid() && f.Valid() && IsOnCurve(c, P) && |tbl| == 16 && TableHolds(c, f, tbl, P)
    ensures TableStands(c, f, tbl, P) <==> forall j :: 1 <= j <= 13 ==> !HasOrderTwoAt(c, P, j)
  {
    hide IsOnCurve, Stands, Collapsed, IsPrime, Times, EntrySafe;
    SafeEntries(c, P);
    if TableStands(c, f, tbl, P) {
      var last := Times(c, 15, P);
      assert Stands(f, tbl[15], last);
      assert Holds(c, f, tbl[15], 15, P, EntrySafe(c, P, 15));
      if Collapsed(f, tbl[15]) { CollapsedStandsForNothing(f, tbl[15], last); }
    }
  }

  lemma SafeEntries(c: Curve, P: Point)
    requires c.Valid() && IsOnCurve(c, P)
    ensures EntrySafe(c, P, 15) <==> forall j :: 1 <= j <= 13 ==> !HasOrderTwoAt(c, P, j)
    ensures EntrySafe(c, P, 15) ==> forall j: nat :: j < 16 ==> EntrySafe(c, P, j)
  {
    TimesOne(c, P);
    assert !HasOrderTwoAt(c, P, 0);
    hide HasOrderTwoAt, IsOnCurve, IsPrime;
  }

  lemma TimesOne(c: Curve, P: Point)
    requires c.Valid() && IsOnCurve(c, P)
    ensures Times(c, 0, P) == Infinity && Times(c, 1, P) == P
  {
    assert Times(c, 1, P) == Add(c, Times(c, 0, P), P);
  }

  /** The number of windows read. */
  function Windows(bits: nat): nat { (bits + 3) / 4 }

  /** No addition of the first w windows of k, nor any that led to their table entries, met a
      difference of order two. */
  ghost predicate Safe(c: Curve, P: Point, k: nat, w: nat)
    requires c.Valid() && IsOnCurve(c, P)
  {
    w == 0 || (Safe(c, P, k / 16, w - 1) && WindowSafe(c, P, k / 16, k % 16))
  }

  /** The same of one window: m·P is shifted and digit·P added. */
  ghost predicate WindowSafe(c: Curve, P: Point, m: nat, digit: nat)
    requires c.Valid() && IsOnCurve(c, P)
  {
    EntrySafe(c, P, digit) && !HasOrderTwoAt(c, P, Gap(16 * m, digit))
  }

  lemma SafeStep(c: Curve, P: Point, m: nat, digit: nat, w: nat)
    requires c.Valid() && IsOnCurve(c, P) && digit < 16
    ensures Safe(c, P, 16 * m + digit, w + 1) <==> Safe(c, P, m, w) && WindowSafe(c, P, m, digit)
  {
    hide WindowSafe;
    assert (16 * m + digit) / 16 == m && (16 * m + digit) % 16 == digit;
  }

  /** The nWin lowest 4-bit windows of the scalar, most significant first: their multiple of P, or
      (0:0:0) if one addition on the way was exceptional. */
  method ScalarMultLimbs(c: Curve, cc: CtCurve, kl: Fe, p: CtPoint, ghost P: Point) returns (result: CtPoint)
    requires Suitable(c, cc, P) && Stands(cc.f, p, P)
    requires |kl| == cc.f.n && cc.orderBits <= 64 * cc.f.n
    ensures var w := Windows(cc.orderBits);
            Pow(16, w) > 0 && Holds(c, cc.f, result, Val(kl) % Pow(16, w), P, Safe(c, P, Val(kl) % Pow(16, w), w))
  {
    hide Add, Double, IsOnCurve, Stands, Collapsed, CtAdd, CtDouble, IsPrime;
    hide High, LimbDigit, TableHolds, TableStands, Times, WindowSafe, Pow;
    var tbl := BuildTable(c, cc, p, P);
    var nWin := (cc.orderBits + 3) / 4;
    result := Identity(cc.f);
    ghost var k := Val(kl);
    ghost var m: nat := 0;
    TimesOne(c, P);
    PowZero(16);
    var wi := nWin;
    while wi > 0
      invariant 0 <= wi <= nWin
      invariant Holds(c, cc.f, result, m, P, Safe(c, P, m, nWin - wi))
      invariant m < Pow(16, nWin - wi) && High(k, 4 * wi) == m + Pow(16, nWin - wi) * High(k, 4 * nWin)
      decreases wi
    {
      wi := wi - 1;
      WindowInRange(cc.orderBits, cc.f.n, wi);
      var digit := WindowDigit(kl, 4 * wi);
      result := WindowStep(c, cc, tbl, digit, result, P, m, Safe(c, P, m, nWin - wi - 1));
      SafeStep(c, P, m, digit, nWin - wi - 1);
      HighFour(k, 4 * wi);
      PowStep(16, nWin - wi - 1);
      MulAssoc(16, Pow(16, nWin - wi - 1), High(k, 4 * nWin));
      m := 16 * m + digit;
    }
    HighAll(k);
    ModUnique(k, Pow(16, nWin), High(k, 4 * nWin), m);
  }

  lemma PowZero(b: nat)
    ensures Pow(b, 0) == 1
  {
  }

  lemma PowStep(b: nat, n: nat)
    ensures Pow(b, n + 1) == b * Pow(b, n)
  {
  }

  lemma WindowInRange(bits: nat, n: nat, wi: nat)
    requires wi < (bits + 3) / 4 && bits <= 64 * n
    ensures 4 * wi / 64 < n && 4 * wi % 4 == 0
  {
  }

  lemma NoHighBits(k: nat, bits: nat, pos: nat)
    requires k < Pow(2, bits) && bits <= pos
    ensures High(k, pos) == 0
  {
    PowAdd(2, bits, pos - bits);
    PowPositive(2, pos - bits);
    PowPositive(2, bits);
    MulMono(1, Pow(2, pos - bits), Pow(2, bits));
    ModUnique(k, Pow(2, pos), 0, k);
  }

  /** The window digit at an aligned position. */
  method WindowDigit(kl: Fe, pos: nat) returns (digit: Word)
    requires pos / 64 < |kl| && pos % 4 == 0
    ensures digit < 16 && digit == High(Val(kl), pos) % 16
  {
    LimbDigitOfValue(kl, pos, 4);
    assert Pow(2, 4) == 16;
    digit := LimbDigit(kl, pos, 4);
  }

  /** Four doublings, then the addition of the selected multiple. */
  method WindowStep(c: Curve, cc: CtCurve, tbl: seq<CtPoint>, digit: Word, r: CtPoint, ghost P: Point, ghost m: nat,
                    ghost good: bool)
    returns (result: CtPoint)
    requires Suitable(c, cc, P) && |tbl| == 16 && TableHolds(c, cc.f, tbl, P) && digit < 16
    requires Holds(c, cc.f, r, m, P, good)
    ensures Holds(c, cc.f, result, 16 * m + digit, P, good && WindowSafe(c, P, m, digit))
  {
    hide IsPrime, IsOnCurve, CtAdd, CtDouble, EntrySafe, Times, Holds, TableHolds, Doubled, Associative;
    result := r;
    ghost var e := m;
    DoubledFour(m);
    for s := 0 to 4
      invariant e == Doubled(m, s) && Holds(c, cc.f, result, e, P, good)
    {
      DoubleMultiple(c, cc, P, result, e, good);
      DoubledNext(m, s);
      result := CtDouble(cc, result);
      e := 2 * e;
    }
    TableShape(c, cc.f, tbl, P);
    var sel := SelectWindow(cc.f.n, tbl, digit);
    AddMultiples(c, cc, P, result, sel, e, digit, good, EntrySafe(c, P, digit));
    result := CtAdd(cc, result, sel);
  }

  lemma DoubledFour(m: nat)
    ensures Doubled(m, 0) == m && Doubled(m, 4) == 16 * m
  {
    assert Doubled(m, 2) == 2 * Doubled(m, 1) && Doubled(m, 4) == 2 * Doubled(m, 3);
  }

  lemma DoubledNext(m: nat, s: nat)
    ensures Doubled(m, s + 1) == 2 * Doubled(m, s)
  {
  }

  lemma TableShape(c: Curve, f: Field, tbl: seq<CtPoint>, P: Point)
    requires c.Valid() && f.Valid() && IsOnCurve(c, P) && TableHolds(c, f, tbl, P)
    ensures forall j :: 0 <= j < |tbl| ==> |tbl[j].x| == f.n && |tbl[j].y| == f.n && |tbl[j].z| == f.n
    ensures forall j :: 0 <= j < |tbl| ==> Holds(c, f, tbl[j], j, P, EntrySafe(c, P, j))
  {
    hide Times, EntrySafe;
    forall j | 0 <= j < |tbl| ensures PointElem(f, tbl[j]) { HoldsElem(c, f, tbl[j], j, P, EntrySafe(c, P, j)); }
  }

  function Doubled(m: nat, s: nat): nat { if s == 0 then m else 2 * Doubled(m, s - 1) }

  /** Sixteen times the higher digits plus this one. */
  lemma HighFour(k: nat, pos: nat)
    ensures High(k, pos) == 16 * High(k, pos + 4) + High(k, pos) % 16
  {
    hide High;
    HighStep(k, pos);
    HighStep(k, pos + 1);
    HighStep(k, pos + 2);
    HighStep(k, pos + 3);
  }

  // ------------------------------------------------------------------ the ladder

  /** The lowest orderBits bits of k times P by the Montgomery ladder. R1 - R0 = P throughout, so
      only a point that itself has order two is exceptional; for it every addition collapses. */
  method ScalarMultLadder(c: Curve, cc: CtCurve, kl: Fe, p: CtPoint, ghost P: Point) returns (result: CtPoint)
    requires Suitable(c, cc, P) && Stands(cc.f, p, P)
    requires |kl| == cc.f.n && cc.orderBits <= 64 * cc.f.n
    ensures var q := Pow(2, cc.orderBits);
            q > 0 && Holds(c, cc.f, result, Val(kl) % q, P, !OrderTwo(P) || Val(kl) % q == 0)
  {
    hide Add, Double, IsOnCurve, IsPrime, Stands, Collapsed, LadderState, Times, Pow, High, LimbDigit;
    var id := Identity(cc.f);
    var r0 := new PointCell(id);
    var r1 := new PointCell(p);
    LadderStart(c, cc.f, P, id, p);
    PowZero(2);
    ghost var k, m: nat := Val(kl), 0;
    var i := cc.orderBits;
    while i > 0
      invariant 0 <= i <= cc.orderBits && fresh(r0) && fresh(r1) && r0 != r1
      invariant LadderState(c, cc.f, P, r0.Value(), r1.Value(), m)
      invariant m < Pow(2, cc.orderBits - i) && High(k, i) == m + Pow(2, cc.orderBits - i) * High(k, cc.orderBits)
    {
      i := i - 1;
      var bit := BitDigit(kl, i);
      HighBit(k, i);
      LadderStep(c, cc, bit, r0, r1, P, m);
      PowStep(2, cc.orderBits - i - 1);
      MulAssoc(2, Pow(2, cc.orderBits - i - 1), High(k, cc.orderBits));
      m := 2 * m + bit;
    }
    HighAll(k);
    ModUnique(k, Pow(2, cc.orderBits), High(k, cc.orderBits), m);
    result := r0.Value();
    LadderEnd(c, cc.f, P, result, r1.Value(), m);
  }

  lemma LadderStart(c: Curve, f: Field, P: Point, id: CtPoint, p: CtPoint)
    requires c.Valid() && f.Valid() && IsOnCurve(c, P) && Stands(f, id, Infinity) && Stands(f, p, P)
    ensures LadderState(c, f, P, id, p, 0)
  {
    hide IsOnCurve, IsPrime, Times, Represents, Decoded;
    TimesOne(c, P);
  }

  lemma LadderEnd(c: Curve, f: Field, P: Point, r0: CtPoint, r1: CtPoint, m: nat)
    requires c.Valid() && f.Valid() && IsOnCurve(c, P) && LadderState(c, f, P, r0, r1, m)
    ensures Holds(c, f, r0, m, P, !OrderTwo(P) || m == 0)
  {
    hide IsOnCurve, IsPrime, Times, Stands, Collapsed;
  }

  /** The bit of the scalar at a position. */
  method BitDigit(kl: Fe, pos: nat) returns (bit: Word)
    requires pos / 64 < |kl|
    ensures bit < 2 && bit == High(Val(kl), pos) % 2
  {
    LimbDigitOfValue(kl, pos, 1);
    assert Pow(2, 1) == 2;
    bit := LimbDigit(kl, pos, 1);
  }

  lemma HighBit(k: nat, i: nat)
    ensures High(k, i) == 2 * High(k, i + 1) + High(k, i) % 2
  {
    hide High;
    HighStep(k, i);
  }

  /** R0 and R1 after the prefix m of the scalar. A point of order two has lost R1 after its first
      addition, and R0 with the first set bit. */
  ghost predicate LadderState(c: Curve, f: Field, P: Point, r0: CtPoint, r1: CtPoint, m: nat)
    requires c.Valid() && f.Valid() && IsOnCurve(c, P)
  {
    && PointElem(f, r1)
    && Holds(c, f, r0, m, P, !OrderTwo(P) || m == 0)
    && (!OrderTwo(P) ==> Stands(f, r1, Times(c, m + 1, P)))
    && (OrderTwo(P) && m == 0 ==> Stands(f, r1, P) || Collapsed(f, r1))
  }

  /** One bit: swap, add, double, swap. */
  method LadderStep(c: Curve, cc: CtCurve, bit: Word, r0: PointCell, r1: PointCell, ghost P: Point, ghost m: nat)
    requires Suitable(c, cc, P) && bit <= 1 && r0 != r1
    requires LadderState(c, cc.f, P, r0.Value(), r1.Value(), m)
    modifies r0, r1
    ensures LadderState(c, cc.f, P, r0.Value(), r1.Value(), 2 * m + bit)
  {
    hide Add, Double, IsOnCurve, CtAdd, CtDouble, IsPrime, Represents, Decoded, Times, LadderState;
    var n := cc.f.n;
    LadderElems(c, cc.f, P, r0.Value(), r1.Value(), m);
    ghost var s, t := r0.Value(), r1.Value();
    Cswap(n, bit, r0, r1);
    var sum := CtAdd(cc, r0.Value(), r1.Value());
    var dbl := CtDouble(cc, r0.Value());
    ResultElems(cc, r0.Value(), r1.Value());
    r1.x, r1.y, r1.z := sum.x, sum.y, sum.z;
    r0.x, r0.y, r0.z := dbl.x, dbl.y, dbl.z;
    assert r0.Value() == dbl && r1.Value() == sum;
    Cswap(n, bit, r0, r1);
    if bit == 0 { LadderZero(c, cc, P, s, t, m); } else { LadderOne(c, cc, P, s, t, m); }
  }

  lemma LadderElems(c: Curve, f: Field, P: Point, r0: CtPoint, r1: CtPoint, m: nat)
    requires c.Valid() && f.Valid() && IsOnCurve(c, P) && LadderState(c, f, P, r0, r1, m)
    ensures PointElem(f, r0) && PointElem(f, r1)
  {
  }

  lemma LadderZero(c: Curve, cc: CtCurve, P: Point, s: CtPoint, t: CtPoint, m: nat)
    requires Suitable(c, cc, P) && LadderState(c, cc.f, P, s, t, m)
    ensures LadderState(c, cc.f, P, CtDouble(cc, s), CtAdd(cc, s, t), 2 * m)
  {
    hide Add, Double, IsOnCurve, CtAdd, CtDouble, IsPrime, Represents, Decoded, Times, Stands;
    LadderElems(c, cc.f, P, s, t, m);
    ResultElems(cc, s, t);
    TimesOne(c, P);
    DoubleMultiple(c, cc, P, s, m, !OrderTwo(P) || m == 0);
    if !OrderTwo(P) {
      AddMultiples(c, cc, P, s, t, m, m + 1, true, true);
    } else if m == 0 {
      if Stands(cc.f, t, P) {
        AddMultiples(c, cc, P, s, t, 0, 1, true, true);
      } else {
        CtAddAbsorbs(cc, s, t);
      }
    }
  }

  lemma LadderOne(c: Curve, cc: CtCurve, P: Point, s: CtPoint, t: CtPoint, m: nat)
    requires Suitable(c, cc, P) && LadderState(c, cc.f, P, s, t, m)
    ensures LadderState(c, cc.f, P, CtAdd(cc, t, s), CtDouble(cc, t), 2 * m + 1)
  {
    hide Add, Double, IsOnCurve, CtAdd, CtDouble, IsPrime, Represents, Decoded, Times, Stands;
    LadderElems(c, cc.f, P, s, t, m);
    ResultElems(cc, t, s);
    TimesOne(c, P);
    if !OrderTwo(P) {
      DoubleMultiple(c, cc, P, t, m + 1, true);
      AddMultiples(c, cc, P, t, s, m + 1, m, true, true);
    } else if m == 0 && Stands(cc.f, t, P) {
      AddMultiples(c, cc, P, t, s, 1, 0, true, true);
    } else {
      CtAddAbsorbs(cc, t, s);
    }
  }

  // ------------------------------------------------------------ the entry point

  /** The field widths the backend covers, and an order that fits the limbs. */
  ghost predicate Fits(c: Curve)
  {
    c.P < Pow(B, 8) ==> BitLen(if c.Q < 0 then 0 else c.Q) <= if c.P < Pow(B, 4) then 256 else 512
  }

  /** The limbs of the backend that covers the curve. */
  function Limbs(c: Curve): nat { if c.P < Pow(B, 4) then 4 else 8 }

  /** What the window method returns: the multiple by the windows read, or the identity if one
      addition on the way was exceptional. */
  ghost function WindowMultiple(c: Curve, k: nat, P: Point): (r: Point)
    requires c.Valid() && IsOnCurve(c, P)
    ensures IsOnCurve(c, r)
  {
    var w := Windows(BitLen(if c.Q < 0 then 0 else c.Q));
    PowPositive(16, w);
    DivMod(k, Pow(16, w));
    var m := k % Pow(16, w);
    if Safe(c, P, m, w) then Times(c, m, P) else Infinity
  }

  /** What the constant-time path returns for k > 0: a curve wider than 512 bits falls back to the
      variable-time multiplication. */
  ghost function CtMultiple(c: Curve, k: nat, P: Point): (r: Point)
    requires c.Valid() && IsOnCurve(c, P)
    ensures IsOnCurve(c, r)
  {
    if c.P < Pow(B, 8) then WindowMultiple(c, k, P) else Times(c, k, P)
  }

  /** The scalar fits the limbs of the backend; larger ones the source refuses by a panic. */
  predicate ScalarFits(c: Curve, k: int) { c.P < Pow(B, 8) ==> k < Pow(256, 8 * Limbs(c)) }

  /** Constant-time k·p, for every point of the curve and every scalar that fits the limbs. */
  method ScalarMultCT(c: Curve, k: int, p: Point) returns (r: Point)
    requires c.Valid() && c.NonSingular() && Associative(c) && Fits(c) && IsOnCurve(c, p)
    requires ScalarFits(c, k)
    ensures r == if k <= 0 then Infinity else CtMultiple(c, k, p)
  {
    hide Add, IsOnCurve, Stands, Collapsed, IsPrime, Times, Safe;
    if k <= 0 || p.Infinity? {
      if k > 0 { OfInfinity(c, k); }
      return Infinity;
    }
    var n: nat;
    if c.P < Pow(B, 4) {
      n := 4;
    } else if c.P < Pow(B, 8) {
      n := 8;
    } else {
      r := ScalarMult(c, k, p);
      return;
    }
    var cc := NewCtCurve(c, n);
    BEToBE(k, 8 * n);
    var kl := ScalarBytesToLimbs(n, ToBE(k, 8 * n));
    var q := FromAffine(cc.f, p);
    var s := ScalarMultLimbs(c, cc, kl, q, p);
    ghost var w := Windows(cc.orderBits);
    ghost var m := k % Pow(16, w);
    HoldsElem(c, cc.f, s, m, p, Safe(c, p, m, w));
    r := ToAffine(cc.f, s, c, Times(c, m, p));
  }

  lemma HoldsElem(c: Curve, f: Field, s: CtPoint, m: nat, P: Point, good: bool)
    requires c.Valid() && f.Valid() && IsOnCurve(c, P) && Holds(c, f, s, m, P, good)
    ensures PointElem(f, s)
  {
  }

  /** Every multiple of the identity is the identity, on either path. */
  lemma OfInfinity(c: Curve, k: nat)
    requires c.Valid()
    ensures Times(c, k, Infinity) == Infinity && WindowMultiple(c, k, Infinity) == Infinity
  {
    hide IsPrime, Times, Safe;
    TimesInfinity(c, k);
    var w := Windows(BitLen(if c.Q < 0 then 0 else c.Q));
    PowPositive(16, w);
    DivMod(k, Pow(16, w));
    TimesInfinity(c, k % Pow(16, w));
  }
}
