/** Polynomials over GF(2) as finite sets of exponents: sum, product by counting pairs, and
    congruence modulo a polynomial with a leading term. */
module BinaryPoly {

  type Poly = set<nat>

  function Plus(a: Poly, b: Poly): Poly { (a - b) + (b - a) }

  /** Multiplication by the variable. */
  function Up(a: Poly): Poly { set e | e in a :: e + 1 }

  /** The ways to write e as an exponent of a plus an exponent of b. */
  function Pairs(a: Poly, b: Poly, e: nat): set<nat> { set i | i in a && i <= e && e - i in b }

  /** The product: e occurs when the number of ways to write it is odd. */
  function Times(a: Poly, b: Poly): Poly
  {
    set i, j | i in a && j in b && |Pairs(a, b, i + j)| % 2 == 1 :: i + j
  }

  lemma InUp(a: Poly, e: nat)
    ensures e in Up(a) <==> e > 0 && e - 1 in a
  {
    if e > 0 && e - 1 in a { assert (e - 1) + 1 == e; }
  }

  lemma InTimes(a: Poly, b: Poly, e: nat)
    ensures e in Times(a, b) <==> |Pairs(a, b, e)| % 2 == 1
  {
    if |Pairs(a, b, e)| % 2 == 1 {
      var i :| i in Pairs(a, b, e);
      assert i + (e - i) == e;
    }
  }

  /** Parity of a symmetric difference. */
  lemma CardPlus(s: set<nat>, t: set<nat>)
    ensures |Plus(s, t)| % 2 == (|s| + |t|) % 2
  {
    assert s == (s - t) + s * t && |s| == |s - t| + |s * t|;
    assert t == (t - s) + s * t && |t| == |t - s| + |s * t|;
  }

  lemma {:induction false} CardUp(s: set<nat>)
    ensures |Up(s)| == |s|
  {
    if s != {} {
      var x :| x in s;
      CardUp(s - {x});
      InUp(s - {x}, x + 1);
      assert Up(s) == Up(s - {x}) + {x + 1} by {
        forall e ensures e in Up(s) <==> e in Up(s - {x}) + {x + 1} {
          if e is nat { InUp(s, e); InUp(s - {x}, e); }
        }
      }
    }
  }

  // ---- the product is bilinear ----

  lemma InPlus(s: Poly, t: Poly, e: nat)
    ensures e in Plus(s, t) <==> (e in s) != (e in t)
  {
  }

  lemma PairsPlus(a: Poly, a': Poly, b: Poly, e: nat)
    ensures Pairs(Plus(a, a'), b, e) == Plus(Pairs(a, b, e), Pairs(a', b, e))
  {
  }

  lemma TimesPlusLeft(a: Poly, a': Poly, b: Poly)
    ensures Times(Plus(a, a'), b) == Plus(Times(a, b), Times(a', b))
  {
    hide Times, Pairs, Plus;
    forall e: nat ensures e in Times(Plus(a, a'), b) <==> e in Plus(Times(a, b), Times(a', b)) {
      InTimes(Plus(a, a'), b, e);
      InTimes(a, b, e);
      InTimes(a', b, e);
      PairsPlus(a, a', b, e);
      CardPlus(Pairs(a, b, e), Pairs(a', b, e));
      InPlus(Times(a, b), Times(a', b), e);
    }
  }

  lemma TimesUp(a: Poly, b: Poly)
    ensures Times(Up(a), b) == Up(Times(a, b))
  {
    hide Times, Pairs, Up;
    forall e: nat ensures e in Times(Up(a), b) <==> e in Up(Times(a, b)) {
      InTimes(Up(a), b, e);
      InUp(Times(a, b), e);
      if e == 0 {
        NoPairsAtZero(a, b);
      } else {
        InTimes(a, b, e - 1);
        PairsUp(a, b, e);
        CardUp(Pairs(a, b, e - 1));
      }
    }
  }

  lemma NoPairsAtZero(a: Poly, b: Poly)
    ensures Pairs(Up(a), b, 0) == {}
  {
  }

  lemma PairsOfOne(b: Poly, e: nat)
    ensures Pairs({0}, b, e) == if e in b then {0} else {}
  {
  }

  lemma PairsBounded(a: Poly, b: Poly, e: nat)
    ensures forall i :: i in Pairs(a, b, e) ==> i <= e
  {
  }

  lemma PairsUp(a: Poly, b: Poly, e: nat)
    requires e > 0
    ensures Pairs(Up(a), b, e) == Up(Pairs(a, b, e - 1))
  {
    forall i: nat ensures i in Pairs(Up(a), b, e) <==> i in Up(Pairs(a, b, e - 1)) {
      InUp(a, i);
      InUp(Pairs(a, b, e - 1), i);
    }
  }

  lemma TimesZero(b: Poly)
    ensures Times({}, b) == {}
  {
  }

  lemma TimesOne(b: Poly)
    ensures Times({0}, b) == b
  {
    hide Times, Pairs;
    forall e: nat ensures e in Times({0}, b) <==> e in b {
      InTimes({0}, b, e);
      PairsOfOne(b, e);
    }
  }

  /** Pairs read from the other side. */
  function Flip(s: set<nat>, e: nat): set<nat> { set i | i in s && i <= e :: e - i }

  lemma {:induction false} CardFlip(s: set<nat>, e: nat)
    requires forall i :: i in s ==> i <= e
    ensures |Flip(s, e)| == |s|
  {
    if s != {} {
      var x :| x in s;
      CardFlip(s - {x}, e);
      assert e - x !in Flip(s - {x}, e);
      assert Flip(s, e) == Flip(s - {x}, e) + {e - x} by {
        forall k | k in Flip(s, e) ensures k in Flip(s - {x}, e) + {e - x} {
          var i :| i in s && i <= e && k == e - i;
          if i != x { assert i in s - {x}; }
        }
      }
    }
  }

  lemma TimesCommutes(a: Poly, b: Poly)
    ensures Times(a, b) == Times(b, a)
  {
    hide Times, Pairs, Flip;
    forall e: nat ensures e in Times(a, b) <==> e in Times(b, a) {
      InTimes(a, b, e);
      InTimes(b, a, e);
      PairsFlip(a, b, e);
      PairsBounded(a, b, e);
      CardFlip(Pairs(a, b, e), e);
    }
  }

  lemma PairsFlip(a: Poly, b: Poly, e: nat)
    ensures Pairs(b, a, e) == Flip(Pairs(a, b, e), e)
  {
    forall k | k in Pairs(b, a, e) ensures k in Flip(Pairs(a, b, e), e) {
      assert e - k in Pairs(a, b, e) && e - (e - k) == k;
    }
  }

  // ---- congruence ----

  /** a and b differ by a multiple of f. */
  ghost predicate Congruent(a: Poly, b: Poly, f: Poly)
  {
    exists q: Poly :: Plus(a, b) == Times(q, f)
  }

  lemma CongruentIntro(a: Poly, b: Poly, f: Poly, q: Poly)
    requires Plus(a, b) == Times(q, f)
    ensures Congruent(a, b, f)
  {
  }

  lemma CongruentSame(a: Poly, f: Poly)
    ensures Congruent(a, a, f)
  {
    TimesZero(f);
    CongruentIntro(a, a, f, {});
  }

  lemma CongruentSym(a: Poly, b: Poly, f: Poly)
    requires Congruent(a, b, f)
    ensures Congruent(b, a, f)
  {
    var q: Poly :| Plus(a, b) == Times(q, f);
    assert Plus(b, a) == Plus(a, b);
  }

  lemma CongruentTrans(a: Poly, b: Poly, c: Poly, f: Poly)
    requires Congruent(a, b, f) && Congruent(b, c, f)
    ensures Congruent(a, c, f)
  {
    var q: Poly :| Plus(a, b) == Times(q, f);
    var r: Poly :| Plus(b, c) == Times(r, f);
    assert Plus(a, c) == Plus(Plus(a, b), Plus(b, c));
    TimesPlusLeft(q, r, f);
    CongruentIntro(a, c, f, Plus(q, r));
  }

  lemma CongruentPlus(a: Poly, b: Poly, c: Poly, d: Poly, f: Poly)
    requires Congruent(a, b, f) && Congruent(c, d, f)
    ensures Congruent(Plus(a, c), Plus(b, d), f)
  {
    var q: Poly :| Plus(a, b) == Times(q, f);
    var r: Poly :| Plus(c, d) == Times(r, f);
    assert Plus(Plus(a, c), Plus(b, d)) == Plus(Plus(a, b), Plus(c, d));
    TimesPlusLeft(q, r, f);
    CongruentIntro(Plus(a, c), Plus(b, d), f, Plus(q, r));
  }

  lemma UpPlus(a: Poly, b: Poly)
    ensures Up(Plus(a, b)) == Plus(Up(a), Up(b))
  {
    forall e: nat ensures e in Up(Plus(a, b)) <==> e in Plus(Up(a), Up(b)) {
      InUp(Plus(a, b), e);
      InUp(a, e);
      InUp(b, e);
    }
  }

  lemma CongruentUp(a: Poly, b: Poly, f: Poly)
    requires Congruent(a, b, f)
    ensures Congruent(Up(a), Up(b), f)
  {
    var q: Poly :| Plus(a, b) == Times(q, f);
    UpPlus(a, b);
    TimesUp(q, f);
    CongruentIntro(Up(a), Up(b), f, Up(q));
  }

  /** Adding the modulus once. */
  lemma CongruentReduce(a: Poly, f: Poly)
    ensures Congruent(Plus(a, f), a, f)
  {
    assert Plus(Plus(a, f), a) == f;
    TimesOne(f);
    CongruentIntro(Plus(a, f), a, f, {0});
  }

  /** All exponents below n. */
  predicate Below(a: Poly, n: nat) { forall e :: e in a ==> e < n }

  lemma {:induction false} Largest(s: set<nat>) returns (m: nat)
    requires s != {}
    ensures m in s && forall e :: e in s ==> e <= m
  {
    var x :| x in s;
    if s == {x} {
      m := x;
    } else {
      assert s == s - {x} + {x};
      var y := Largest(s - {x});
      m := if x > y then x else y;
      forall e | e in s ensures e <= m {
        if e != x { assert e in s - {x}; }
      }
    }
  }

  /** Below the degree of the modulus the representative is unique. */
  lemma ReducedUnique(a: Poly, b: Poly, f: Poly, n: nat)
    requires Congruent(a, b, f) && Below(a, n) && Below(b, n)
    requires n in f && Below(f, n + 1)
    ensures a == b
  {
    hide Times, Pairs, Plus;
    var q: Poly :| Plus(a, b) == Times(q, f);
    if q != {} {
      var m := Largest(q);
      LeadingPair(q, f, m, n);
      InTimes(q, f, m + n);
      InPlus(a, b, m + n);
      assert false;
    }
    TimesZero(f);
    forall e: nat ensures e in a <==> e in b { InPlus(a, b, e); }
  }

  /** The leading terms meet in one way only. */
  lemma LeadingPair(q: Poly, f: Poly, m: nat, n: nat)
    requires m in q && n in f && Below(q, m + 1) && Below(f, n + 1)
    ensures |Pairs(q, f, m + n)| == 1
  {
    var p := Pairs(q, f, m + n);
    assert m in p && forall i :: i in p ==> m + n - i in f;
    assert p == {m};
  }
}
