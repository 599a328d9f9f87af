/** Which error each refused chain raises, and what the path-length check counts. */
module ChainSearchLaws {
  import opened ChainSearch
  import opened ModArith

  /** A chain meets the checks when no certificate has an unhandled critical extension, no more
      intermediates lie below a certificate than it allows, and each certificate's name constraints
      admit all those below it. */
  lemma MeetsExactly(e: Env, chain: seq<Cert>)
    ensures MeetsConstraints(e, chain) <==>
      && (forall c :: c in chain ==> !c.unhandledCritical)
      && (forall i :: 1 <= i < |chain| && chain[i].basicConstraintsValid && chain[i].maxPathLen >= 0 ==>
            |chain[1..i]| <= chain[i].maxPathLen)
      && (forall i, j :: 0 <= j < i < |chain| ==> e.names(chain[i], chain[j]))
  {
    if MeetsConstraints(e, chain) {
      forall c | c in chain ensures !c.unhandledCritical {
        var i :| 0 <= i < |chain| && chain[i] == c;
        assert MeetsAt(e, chain, i);
      }
      forall i | 1 <= i < |chain| && chain[i].basicConstraintsValid && chain[i].maxPathLen >= 0
        ensures |chain[1..i]| <= chain[i].maxPathLen
      {
        assert MeetsAt(e, chain, i);
      }
      forall i, j | 0 <= j < i < |chain| ensures e.names(chain[i], chain[j]) { assert MeetsAt(e, chain, i); }
    } else {
      var i :| 0 <= i < |chain| && !MeetsAt(e, chain, i);
      assert chain[i] in chain;
    }
  }

  /** Position i is the first that fails. */
  ghost predicate FailsFirst(e: Env, chain: seq<Cert>, i: nat)
  {
    i < |chain| && !MeetsAt(e, chain, i) && forall k :: 0 <= k < i ==> MeetsAt(e, chain, k)
  }

  /** The error is that of the first failing position: the extension before the path length, and that
      before the names. */
  lemma FailsExactly(e: Env, chain: seq<Cert>, i: nat)
    requires FailsFirst(e, chain, i)
    ensures var long := chain[i].basicConstraintsValid && 0 <= chain[i].maxPathLen < i - 1;
            FirstError(e, chain, 0) == Some(
              if chain[i].unhandledCritical then UnhandledCriticalExt
              else if long then PathLenExceeded else NameConstraint)
  {
    hide MeetsAt;
    SkipsTo(e, chain, 0, i);
    AtFirst(e, chain, i);
  }

  lemma {:induction false} SkipsTo(e: Env, chain: seq<Cert>, k: nat, i: nat)
    requires FailsFirst(e, chain, i) && k <= i
    ensures FirstError(e, chain, k) == FirstError(e, chain, i)
    decreases i - k
  {
    hide MeetsAt, ErrorAt;
    if k < i { SkipsTo(e, chain, k + 1, i); }
  }

  lemma AtFirst(e: Env, chain: seq<Cert>, i: nat)
    requires FailsFirst(e, chain, i)
    ensures var long := chain[i].basicConstraintsValid && 0 <= chain[i].maxPathLen < i - 1;
            FirstError(e, chain, i) == Some(
              if chain[i].unhandledCritical then UnhandledCriticalExt
              else if long then PathLenExceeded else NameConstraint)
  {
  }

  /** Without a path within the bound the error names a mixed pool exactly when some pool entry is
      outside the family. */
  lemma MixedExactly(e: Env, leaf: Cert)
    ensures Outcome(e, leaf) == Failed(MixedChain) <==>
      (!exists chain :: WithinBound(e, leaf, chain, MAX_DEPTH)) && (exists c :: c in e.roots + e.inters && !c.isGOST)
  {
    hide WithinBound, FirstChain, MeetsAt;
    SearchExact(e, leaf, MAX_DEPTH, []);
    if FirstChain(e, leaf, MAX_DEPTH).Some? { ErrorKinds(e, FirstChain(e, leaf, MAX_DEPTH).value, 0); }
    assert Mixed(e) <==> exists c :: c in e.roots + e.inters && !c.isGOST;
  }
}
