/** x509gost/verify.go: the depth-bounded search for a GOST certificate chain and the checks on the
    chain it returns. Signature checking and name matching are parameters. */
module ChainSearch {
  import opened ModArith

  /** What the search and the checks read of a certificate. */
  datatype Cert = Cert(raw: seq<int>, isGOST: bool, unhandledCritical: bool,
                       basicConstraintsValid: bool, maxPathLen: int)

  /** The pools, signerOf(parent, child) at the time of the call, and applyNameConstraints(ca,
      below) succeeding. */
  datatype Env = Env(roots: seq<Cert>, inters: seq<Cert>, signer: (Cert, Cert) -> bool, names: (Cert, Cert) -> bool)

  datatype Error = UnhandledCriticalExt | PathLenExceeded | NameConstraint | MixedChain | NoValidChain

  datatype Result = Chain(chain: seq<Cert>) | Failed(error: Error)

  /** The number of certificates below the root a chain may have. */
  const MAX_DEPTH: nat := 8

  /** Byte identity. */
  predicate CertEqual(a: Cert, b: Cert) { a.raw == b.raw }

  // ---- what a chain is ----

  /** A usable next certificate above child that is not a root. */
  predicate Bridges(e: Env, inter: Cert, child: Cert)
  {
    inter.isGOST && !CertEqual(inter, child) && e.signer(inter, child)
  }

  lemma BridgesMeans(e: Env, inter: Cert, child: Cert)
    ensures Bridges(e, inter, child) <==> inter.isGOST && !CertEqual(inter, child) && e.signer(inter, child)
  {
  }

  /** chain leads from leaf through GOST intermediates, none identical to its child, to a GOST
      root, a signer above each. */
  predicate IsPath(e: Env, leaf: Cert, chain: seq<Cert>)
    decreases |chain|
  {
    && |chain| >= 2 && chain[0] == leaf
    && (if |chain| == 2 then chain[1] in e.roots && chain[1].isGOST && e.signer(chain[1], leaf)
        else chain[1] in e.inters && Bridges(e, chain[1], leaf) && IsPath(e, chain[1], chain[1..]))
  }

  /** The same, position by position. */
  lemma {:induction false} IsPathEverywhere(e: Env, leaf: Cert, chain: seq<Cert>)
    ensures IsPath(e, leaf, chain) <==>
      && |chain| >= 2 && chain[0] == leaf
      && chain[|chain| - 1] in e.roots && chain[|chain| - 1].isGOST
      && e.signer(chain[|chain| - 1], chain[|chain| - 2])
      && (forall i :: 0 < i < |chain| - 1 ==> chain[i] in e.inters && Bridges(e, chain[i], chain[i - 1]))
    decreases |chain|
  {
    hide Bridges;
    if |chain| > 2 {
      var t := chain[1..];
      IsPathEverywhere(e, chain[1], t);
      if IsPath(e, leaf, chain) {
        forall i | 0 < i < |chain| - 1 ensures chain[i] in e.inters && Bridges(e, chain[i], chain[i - 1]) {
          if i > 1 { assert t[i - 1] == chain[i] && t[i - 2] == chain[i - 1]; }
        }
      }
    }
  }

  // ---- the search order ----

  /** The first root from index i on that signed child. */
  function FirstRoot(e: Env, child: Cert, i: nat): Option<Cert>
    requires i <= |e.roots|
    decreases |e.roots| - i
  {
    if i == |e.roots| then None
    else if e.roots[i].isGOST && e.signer(e.roots[i], child) then Some(e.roots[i])
    else FirstRoot(e, child, i + 1)
  }

  /** The first chain through an intermediate from index i on. */
  function FirstBridge(e: Env, child: Cert, depth: nat, i: nat): Option<seq<Cert>>
    requires i <= |e.inters| && depth > 0
    decreases depth, 0, |e.inters| - i
  {
    if i == |e.inters| then None
    else if !Bridges(e, e.inters[i], child) then FirstBridge(e, child, depth, i + 1)
    else
      match FirstChain(e, e.inters[i], depth - 1)
      case Some(rest) => Some([child] + rest)
      case None => FirstBridge(e, child, depth, i + 1)
  }

  /** The first chain in search order with at most depth certificates below the root. */
  function FirstChain(e: Env, child: Cert, depth: nat): Option<seq<Cert>>
    decreases depth, 1, 0
  {
    if depth == 0 then None
    else
      match FirstRoot(e, child, 0)
      case Some(root) => Some([child, root])
      case None => FirstBridge(e, child, depth, 0)
  }

  lemma {:induction false} FirstRootSound(e: Env, child: Cert, i: nat)
    requires i <= |e.roots|
    ensures match FirstRoot(e, child, i)
      case Some(r) => r in e.roots && r.isGOST && e.signer(r, child)
      case None => forall r :: r in e.roots[i..] ==> !(r.isGOST && e.signer(r, child))
    decreases |e.roots| - i
  {
    if i < |e.roots| {
      FirstRootSound(e, child, i + 1);
      assert e.roots[i..] == [e.roots[i]] + e.roots[i + 1..];
    }
  }

  /** What the search returns is a path within the depth. */
  lemma {:induction false} FirstChainSound(e: Env, child: Cert, depth: nat)
    ensures match FirstChain(e, child, depth)
      case Some(chain) => IsPath(e, child, chain) && |chain| <= depth + 1
      case None => true
    decreases depth, 1, 0
  {
    if depth > 0 {
      FirstRootSound(e, child, 0);
      if FirstRoot(e, child, 0).None? { FirstBridgeSound(e, child, depth, 0); }
    }
  }

  lemma {:induction false} FirstBridgeSound(e: Env, child: Cert, depth: nat, i: nat)
    requires i <= |e.inters| && depth > 0
    ensures match FirstBridge(e, child, depth, i)
      case Some(chain) => IsPath(e, child, chain) && |chain| <= depth + 1
      case None => true
    decreases depth, 0, |e.inters| - i
  {
    hide Bridges;
    if i < |e.inters| {
      FirstBridgeSound(e, child, depth, i + 1);
      FirstChainSound(e, e.inters[i], depth - 1);
      if Bridges(e, e.inters[i], child) {
        match FirstChain(e, e.inters[i], depth - 1) {
          case Some(rest) =>
            assert ([child] + rest)[1..] == rest;
          case None =>
        }
      }
    }
  }

  // ---- the order of paths ----

  /** The index of the first entry equal to c. */
  function First(pool: seq<Cert>, c: Cert): (i: nat)
    ensures i <= |pool| && (i < |pool| ==> pool[i] == c) && c !in pool[..i]
  {
    if pool == [] || pool[0] == c then 0
    else
      assert forall n: nat :: n < |pool| ==> pool[..n + 1] == [pool[0]] + pool[1..][..n];
      1 + First(pool[1..], c)
  }

  lemma {:induction false} FirstInPool(pool: seq<Cert>, i: nat)
    requires i < |pool|
    ensures First(pool, pool[i]) <= i
  {
    if i > 0 { FirstInPool(pool[1..], i - 1); }
  }

  /** The place of the certificate at position k among the candidates there: roots, then intermediates. */
  function Rank(e: Env, path: seq<Cert>, k: nat): nat
    requires k < |path|
  {
    if k == |path| - 1 then First(e.roots, path[k]) else |e.roots| + First(e.inters, path[k])
  }

  /** Where the two paths part, p goes on to the candidate of lower rank. */
  predicate PartsBefore(e: Env, p: seq<Cert>, q: seq<Cert>, k: nat)
  {
    0 < k < |p| && k < |q| && p[..k] == q[..k] && Rank(e, p, k) < Rank(e, q, k)
  }

  /** p comes before q in the search order: lexicographic along the path, by rank. */
  ghost predicate Precedes(e: Env, p: seq<Cert>, q: seq<Cert>) { exists k :: PartsBefore(e, p, q, k) }

  lemma PrecedesAsymmetric(e: Env, p: seq<Cert>, q: seq<Cert>)
    requires Precedes(e, p, q)
    ensures !Precedes(e, q, p)
  {
    var k: nat :| PartsBefore(e, p, q, k);
    forall n: nat ensures !PartsBefore(e, q, p, n) {
      if 0 < n < |q| && n < |p| && q[..n] == p[..n] {
        if k < n {
          RanksAgree(e, p, q, k, n);
        } else if n < k {
          RanksAgree(e, p, q, n, k);
        }
      }
    }
  }

  lemma RanksAgree(e: Env, p: seq<Cert>, q: seq<Cert>, k: nat, n: nat)
    requires k < n < |p| && n < |q| && p[..n] == q[..n]
    ensures Rank(e, p, k) == Rank(e, q, k)
  {
    assert p[k] == p[..n][k] == q[..n][k];
  }

  lemma RankAfter(e: Env, child: Cert, p: seq<Cert>, k: nat)
    requires k < |p|
    ensures Rank(e, [child] + p, k + 1) == Rank(e, p, k)
  {
    assert ([child] + p)[k + 1] == p[k];
  }

  lemma PrecedesAfter(e: Env, child: Cert, p: seq<Cert>, q: seq<Cert>)
    requires Precedes(e, p, q)
    ensures Precedes(e, [child] + p, [child] + q)
  {
    hide Rank;
    var k: nat :| PartsBefore(e, p, q, k);
    RankAfter(e, child, p, k);
    RankAfter(e, child, q, k);
    var n := k + 1;
    assert ([child] + p)[..n] == [child] + p[..k] == [child] + q[..k] == ([child] + q)[..n];
    assert PartsBefore(e, [child] + p, [child] + q, n);
  }

  ghost predicate WithinBound(e: Env, leaf: Cert, chain: seq<Cert>, depth: nat)
  {
    IsPath(e, leaf, chain) && |chain| <= depth + 1
  }

  /** chain is the least path with at most depth certificates below the root. */
  ghost predicate Least(e: Env, leaf: Cert, chain: seq<Cert>, depth: nat)
  {
    && WithinBound(e, leaf, chain, depth)
    && forall q :: WithinBound(e, leaf, q, depth) && q != chain ==> Precedes(e, chain, q)
  }

  lemma FirstRootLeast(e: Env, child: Cert, i: nat, r: Cert)
    requires i <= First(e.roots, r) && r in e.roots && r.isGOST && e.signer(r, child)
    ensures FirstRoot(e, child, i).Some? && First(e.roots, FirstRoot(e, child, i).value) <= First(e.roots, r)
    decreases |e.roots| - i
  {
    if e.roots[i].isGOST && e.signer(e.roots[i], child) {
      FirstInPool(e.roots, i);
    } else {
      FirstRootLeast(e, child, i + 1, r);
    }
  }

  /** What the search returns is or precedes every path within the depth. */
  lemma {:induction false} FirstChainLeast(e: Env, child: Cert, depth: nat, q: seq<Cert>)
    requires IsPath(e, child, q) && |q| <= depth + 1
    ensures FirstChain(e, child, depth).Some?
    ensures var c := FirstChain(e, child, depth).value; c == q || Precedes(e, c, q)
    decreases depth, 1, 0
  {
    FirstRootSound(e, child, 0);
    if FirstRoot(e, child, 0).Some? {
      var root := FirstRoot(e, child, 0).value;
      if |q| == 2 { FirstRootLeast(e, child, 0, q[1]); }
      if q != [child, root] {
        RootFirst(e, child, root, q);
        assert PartsBefore(e, [child, root], q, 1);
      }
    } else {
      assert e.roots[0..] == e.roots;
      FirstBridgeLeast(e, child, depth, 0, q);
    }
  }

  lemma RootFirst(e: Env, child: Cert, root: Cert, q: seq<Cert>)
    requires root in e.roots && IsPath(e, child, q) && q != [child, root]
    requires |q| == 2 ==> First(e.roots, root) <= First(e.roots, q[1])
    ensures PartsBefore(e, [child, root], q, 1)
  {
    FirstOfMember(e.roots, root);
    assert [child, root][..1] == [child] == q[..1];
    if |q| == 2 {
      FirstOfMember(e.roots, q[1]);
      assert q == [child, q[1]];
    }
  }

  lemma FirstOfMember(pool: seq<Cert>, c: Cert)
    requires c in pool
    ensures First(pool, c) < |pool| && pool[First(pool, c)] == c
  {
    assert pool[..|pool|] == pool;
  }

  lemma {:induction false} FirstBridgeLeast(e: Env, child: Cert, depth: nat, i: nat, q: seq<Cert>)
    requires IsPath(e, child, q) && 2 < |q| <= depth + 1 && i <= First(e.inters, q[1])
    ensures i <= |e.inters| && FirstBridge(e, child, depth, i).Some?
    ensures var c := FirstBridge(e, child, depth, i).value; c == q || Precedes(e, c, q)
    decreases depth, 0, |e.inters| - i
  {
    hide Bridges;
    FirstOfMember(e.inters, q[1]);
    var tail := q[1..];
    if i == First(e.inters, q[1]) {
      FirstChainLeast(e, q[1], depth - 1, tail);
      FirstChainSound(e, q[1], depth - 1);
      assert q == [child] + tail;
      var rest := FirstChain(e, q[1], depth - 1).value;
      if rest != tail { PrecedesAfter(e, child, rest, tail); }
    } else {
      FirstBridgeLeast(e, child, depth, i + 1, q);
      FirstChainSound(e, e.inters[i], depth - 1);
      if Bridges(e, e.inters[i], child) && FirstChain(e, e.inters[i], depth - 1).Some? {
        EarlierBridge(e, child, i, FirstChain(e, e.inters[i], depth - 1).value, q);
      }
    }
  }

  lemma EarlierBridge(e: Env, child: Cert, i: nat, rest: seq<Cert>, q: seq<Cert>)
    requires |q| > 2 && q[0] == child && i < First(e.inters, q[1]) && i < |e.inters|
    requires |rest| >= 2 && rest[0] == e.inters[i]
    ensures Precedes(e, [child] + rest, q)
  {
    FirstInPool(e.inters, i);
    assert ([child] + rest)[..1] == [child] == q[..1];
    assert PartsBefore(e, [child] + rest, q, 1);
  }

  /** The search returns exactly the least path within the depth, and none exactly when there is no
      such path. */
  lemma SearchExact(e: Env, leaf: Cert, depth: nat, chain: seq<Cert>)
    ensures FirstChain(e, leaf, depth) == Some(chain) <==> Least(e, leaf, chain, depth)
    ensures FirstChain(e, leaf, depth).Some? <==> exists q :: WithinBound(e, leaf, q, depth)
  {
    hide IsPath, FirstChain, Precedes;
    FirstChainSound(e, leaf, depth);
    forall q | WithinBound(e, leaf, q, depth)
      ensures FirstChain(e, leaf, depth).Some?
      ensures q == FirstChain(e, leaf, depth).value || Precedes(e, FirstChain(e, leaf, depth).value, q)
    {
      FirstChainLeast(e, leaf, depth, q);
    }
    if FirstChain(e, leaf, depth).Some? {
      var c := FirstChain(e, leaf, depth).value;
      assert WithinBound(e, leaf, c, depth);
      if Least(e, leaf, chain, depth) && chain != c { PrecedesAsymmetric(e, c, chain); }
    }
  }

  // ---- the checks on a chain ----

  /** Position i meets the critical-extension, path-length and name checks. */
  predicate MeetsAt(e: Env, chain: seq<Cert>, i: nat)
    requires i < |chain|
  {
    && !chain[i].unhandledCritical
    && (chain[i].basicConstraintsValid && chain[i].maxPathLen >= 0 ==> i - 1 <= chain[i].maxPathLen)
    && (forall j :: 0 <= j < i ==> e.names(chain[i], chain[j]))
  }

  predicate MeetsConstraints(e: Env, chain: seq<Cert>) { forall i :: 0 <= i < |chain| ==> MeetsAt(e, chain, i) }

  /** The error position i raises, in the order of the tests. */
  function ErrorAt(e: Env, chain: seq<Cert>, i: nat): (r: Option<Error>)
    requires i < |chain|
    ensures r.None? <==> MeetsAt(e, chain, i)
  {
    if chain[i].unhandledCritical then Some(UnhandledCriticalExt)
    else if chain[i].basicConstraintsValid && chain[i].maxPathLen >= 0 && i - 1 > chain[i].maxPathLen then
      Some(PathLenExceeded)
    else if exists j :: 0 <= j < i && !e.names(chain[i], chain[j]) then Some(NameConstraint)
    else None
  }

  /** The error of the first position from i on that raises one. */
  function FirstError(e: Env, chain: seq<Cert>, i: nat): (r: Option<Error>)
    requires i <= |chain|
    ensures r.None? <==> forall k :: i <= k < |chain| ==> MeetsAt(e, chain, k)
    decreases |chain| - i
  {
    if i == |chain| then None
    else if ErrorAt(e, chain, i).Some? then ErrorAt(e, chain, i)
    else FirstError(e, chain, i + 1)
  }

  /** validateGOSTChainConstraints: no error exactly when every position meets every check. */
  method ValidateConstraints(e: Env, chain: seq<Cert>) returns (r: Option<Error>)
    ensures r == FirstError(e, chain, 0)
    ensures r.None? <==> MeetsConstraints(e, chain)
  {
    hide MeetsAt;
    for i := 0 to |chain|
      invariant FirstError(e, chain, 0) == FirstError(e, chain, i)
    {
      if chain[i].unhandledCritical { return Some(UnhandledCriticalExt); }
      if chain[i].basicConstraintsValid && chain[i].maxPathLen >= 0 {
        var numIntermediates := i - 1;
        if numIntermediates > chain[i].maxPathLen { return Some(PathLenExceeded); }
      }
      for j := 0 to i
        invariant forall k :: 0 <= k < j ==> e.names(chain[i], chain[k])
      {
        if !e.names(chain[i], chain[j]) { return Some(NameConstraint); }
      }
    }
    return None;
  }

  // ---- the code ----

  /** A pool entry outside the GOST family. */
  predicate Mixed(e: Env)
  {
    (exists c :: c in e.roots && !c.isGOST) || (exists c :: c in e.inters && !c.isGOST)
  }

  /** The flag the search sets through a pointer. */
  class Flag {
    var saw: bool

    constructor ()
      ensures !saw
    {
      saw := false;
    }
  }

  /** buildGOSTChainRec. */
  method BuildRec(e: Env, child: Cert, depthLeft: nat, flag: Flag) returns (r: Option<seq<Cert>>)
    modifies flag
    ensures r == FirstChain(e, child, depthLeft)
    ensures old(flag.saw) ==> flag.saw
    ensures flag.saw ==> old(flag.saw) || Mixed(e)
    ensures r.None? && depthLeft > 0 && Mixed(e) ==> flag.saw
    decreases depthLeft
  {
    hide Bridges;
    if depthLeft == 0 { return None; }
    for i := 0 to |e.roots|
      invariant FirstRoot(e, child, 0) == FirstRoot(e, child, i)
      invariant old(flag.saw) ==> flag.saw
      invariant flag.saw ==> old(flag.saw) || Mixed(e)
      invariant forall k :: 0 <= k < i && !e.roots[k].isGOST ==> flag.saw
    {
      if !e.roots[i].isGOST {
        flag.saw := true;
        continue;
      }
      if !e.signer(e.roots[i], child) { continue; }
      return Some([child, e.roots[i]]);
    }
    for i := 0 to |e.inters|
      invariant FirstBridge(e, child, depthLeft, 0) == FirstBridge(e, child, depthLeft, i)
      invariant old(flag.saw) ==> flag.saw
      invariant flag.saw ==> old(flag.saw) || Mixed(e)
      invariant forall k :: 0 <= k < |e.roots| && !e.roots[k].isGOST ==> flag.saw
      invariant forall k :: 0 <= k < i && !e.inters[k].isGOST ==> flag.saw
    {
      if !e.inters[i].isGOST {
        flag.saw := true;
        BridgesMeans(e, e.inters[i], child);
        continue;
      }
      if CertEqual(e.inters[i], child) {
        BridgesMeans(e, e.inters[i], child);
        continue;
      }
      if !e.signer(e.inters[i], child) {
        BridgesMeans(e, e.inters[i], child);
        continue;
      }
      BridgesMeans(e, e.inters[i], child);
      var rest := BuildRec(e, e.inters[i], depthLeft - 1, flag);
      if rest.Some? { return Some([child] + rest.value); }
    }
    return None;
  }

  /** buildGOSTChain: the first chain if it passes the checks; without any chain, the error names a
      mixed pool exactly when there is one. */
  method BuildChain(e: Env, leaf: Cert) returns (r: Result)
    ensures r == Outcome(e, leaf)
  {
    var flag := new Flag();
    var chain := BuildRec(e, leaf, MAX_DEPTH, flag);
    if chain.Some? {
      var err := ValidateConstraints(e, chain.value);
      if err.Some? { return Failed(err.value); }
      return Chain(chain.value);
    }
    if flag.saw { return Failed(MixedChain); }
    return Failed(NoValidChain);
  }

  function Outcome(e: Env, leaf: Cert): Result
  {
    match FirstChain(e, leaf, MAX_DEPTH)
    case Some(chain) =>
      (match FirstError(e, chain, 0)
       case Some(err) => Failed(err)
       case None => Chain(chain))
    case None => Failed(if Mixed(e) then MixedChain else NoValidChain)
  }

  /** A returned chain is a path of at most nine certificates that meets every check at every
      position. */
  lemma OutcomeSound(e: Env, leaf: Cert, chain: seq<Cert>)
    requires Outcome(e, leaf) == Chain(chain)
    ensures IsPath(e, leaf, chain) && |chain| <= 9 && MeetsConstraints(e, chain)
  {
    hide IsPath, FirstChain, MeetsAt;
    FirstChainSound(e, leaf, MAX_DEPTH);
  }

  /** The two errors that mean no chain are raised exactly when no path within the bound exists. */
  lemma NoChainExact(e: Env, leaf: Cert)
    ensures Outcome(e, leaf) == Failed(MixedChain) || Outcome(e, leaf) == Failed(NoValidChain)
      <==> !exists chain :: WithinBound(e, leaf, chain, MAX_DEPTH)
  {
    hide WithinBound, FirstChain, MeetsAt;
    SearchExact(e, leaf, MAX_DEPTH, []);
    if FirstChain(e, leaf, MAX_DEPTH).Some? {
      ErrorKinds(e, FirstChain(e, leaf, MAX_DEPTH).value, 0);
    }
  }

  lemma {:induction false} ErrorKinds(e: Env, chain: seq<Cert>, i: nat)
    requires i <= |chain|
    ensures match FirstError(e, chain, i) case Some(err) => err != MixedChain && err != NoValidChain case None => true
    decreases |chain| - i
  {
    hide MeetsAt;
    if i < |chain| { ErrorKinds(e, chain, i + 1); }
  }

  /** Only the least path within the bound is checked: it is returned if and only if it meets every
      check at every position, and no other path ever is. */
  lemma SucceedsExactly(e: Env, leaf: Cert, chain: seq<Cert>)
    ensures Outcome(e, leaf) == Chain(chain) <==> Least(e, leaf, chain, MAX_DEPTH) && MeetsConstraints(e, chain)
  {
    hide Least, FirstChain, MeetsAt;
    SearchExact(e, leaf, MAX_DEPTH, chain);
  }

  /** If every path within the bound meets the checks, verification succeeds exactly when there is one. */
  lemma CompleteWhenAllMeet(e: Env, leaf: Cert)
    requires forall q :: WithinBound(e, leaf, q, MAX_DEPTH) ==> MeetsConstraints(e, q)
    ensures Outcome(e, leaf).Chain? <==> exists chain :: WithinBound(e, leaf, chain, MAX_DEPTH)
  {
    hide WithinBound, FirstChain, MeetsConstraints;
    SearchExact(e, leaf, MAX_DEPTH, []);
    if FirstChain(e, leaf, MAX_DEPTH).Some? {
      var c := FirstChain(e, leaf, MAX_DEPTH).value;
      SearchExact(e, leaf, MAX_DEPTH, c);
      assert WithinBound(e, leaf, c, MAX_DEPTH);
      SucceedsExactly(e, leaf, c);
    }
  }

  // ---- pools that name one issuer for each certificate ----

  predicate Issues(e: Env, root: Cert, child: Cert) { root in e.roots && root.isGOST && e.signer(root, child) }

  /** child has at most one usable issuer: one root and no intermediate, or one intermediate and no root. */
  ghost predicate OneIssuer(e: Env, child: Cert)
  {
    && (forall r, s :: Issues(e, r, child) && Issues(e, s, child) ==> r == s)
    && (forall m, n :: m in e.inters && n in e.inters && Bridges(e, m, child) && Bridges(e, n, child) ==> m == n)
    && (forall r, m :: Issues(e, r, child) && m in e.inters ==> !Bridges(e, m, child))
  }

  /** Then there is at most one path. */
  lemma {:induction false} OneIssuerOnePath(e: Env, leaf: Cert, p: seq<Cert>, q: seq<Cert>)
    requires OneIssuer(e, leaf) && forall m :: m in e.inters ==> OneIssuer(e, m)
    requires IsPath(e, leaf, p) && IsPath(e, leaf, q)
    ensures p == q
    decreases |p|
  {
    hide Bridges;
    if |p| == 2 { assert Issues(e, p[1], leaf); }
    if |q| == 2 { assert Issues(e, q[1], leaf); }
    if |p| > 2 && |q| > 2 { OneIssuerOnePath(e, p[1], p[1..], q[1..]); }
    assert p == [p[0]] + p[1..] && q == [q[0]] + q[1..];
  }

  /** On pools in which the leaf and every intermediate have at most one issuer, looking at one path
      only loses nothing: verification succeeds if and only if some path within the bound meets the
      checks. */
  lemma CompleteWhenOneIssuer(e: Env, leaf: Cert)
    requires OneIssuer(e, leaf) && forall m :: m in e.inters ==> OneIssuer(e, m)
    ensures Outcome(e, leaf).Chain? <==>
      exists chain :: WithinBound(e, leaf, chain, MAX_DEPTH) && MeetsConstraints(e, chain)
  {
    hide FirstChain, MeetsConstraints, IsPath, OneIssuer;
    if exists chain :: WithinBound(e, leaf, chain, MAX_DEPTH) && MeetsConstraints(e, chain) {
      var chain :| WithinBound(e, leaf, chain, MAX_DEPTH) && MeetsConstraints(e, chain);
      forall q | WithinBound(e, leaf, q, MAX_DEPTH) ensures q == chain { OneIssuerOnePath(e, leaf, q, chain); }
      assert Least(e, leaf, chain, MAX_DEPTH);
      SucceedsExactly(e, leaf, chain);
    }
    if Outcome(e, leaf).Chain? {
      OutcomeSound(e, leaf, Outcome(e, leaf).chain);
      assert WithinBound(e, leaf, Outcome(e, leaf).chain, MAX_DEPTH);
    }
  }

  /** No certificate of the pools, nor the leaf, imposes a constraint. */
  predicate Unconstrained(e: Env, leaf: Cert)
  {
    forall c :: c in [leaf] + e.roots + e.inters ==>
      !c.unhandledCritical && !(c.basicConstraintsValid && c.maxPathLen >= 0) &&
      forall d :: d in [leaf] + e.roots + e.inters ==> e.names(c, d)
  }

  /** On such pools every path meets the checks. */
  lemma UnconstrainedMeets(e: Env, leaf: Cert, chain: seq<Cert>)
    requires Unconstrained(e, leaf) && IsPath(e, leaf, chain)
    ensures MeetsConstraints(e, chain)
  {
    hide IsPath, Bridges;
    IsPathEverywhere(e, leaf, chain);
    forall i | 0 <= i < |chain| ensures chain[i] in [leaf] + e.roots + e.inters {
    }
  }

  // ---- two consequences of the code ----

  function Plain(id: int, critical: bool): Cert { Cert([id], true, critical, false, 0) }

  /** Two roots signed one leaf and only the first has an unhandled critical extension: a path that
      meets every check exists, and verification fails. */
  lemma LaterChainNotTried()
    ensures
      var leaf, r1, r2 := Plain(0, false), Plain(1, true), Plain(2, false);
      var e := Env([r1, r2], [], (p: Cert, c: Cert) => c.raw == [0] && p.raw != [0], (p: Cert, c: Cert) => true);
      && IsPath(e, leaf, [leaf, r2]) && MeetsConstraints(e, [leaf, r2])
      && Outcome(e, leaf) == Failed(UnhandledCriticalExt)
  {
    var leaf, r1, r2 := Plain(0, false), Plain(1, true), Plain(2, false);
    var e := Env([r1, r2], [], (p: Cert, c: Cert) => c.raw == [0] && p.raw != [0], (p: Cert, c: Cert) => true);
    assert FirstRoot(e, leaf, 0) == Some(r1);
    assert FirstChain(e, leaf, MAX_DEPTH) == Some([leaf, r1]);
    assert FirstError(e, [leaf, r1], 1) == Some(UnhandledCriticalExt);
  }

  /** A ladder of nine certificates, each signed by the next. */
  predicate Above(p: Cert, c: Cert) { |p.raw| == 1 && |c.raw| == 1 && p.raw[0] == c.raw[0] + 1 }

  function Rungs(n: nat): seq<Cert> { seq(n, i requires 0 <= i < n => Plain(i, false)) }

  function Ladder(): Env { Env([Plain(8, false)], Rungs(8)[1..], Above, (p: Cert, c: Cert) => true) }

  lemma LadderIsPath()
    ensures IsPath(Ladder(), Plain(0, false), Rungs(9))
  {
    hide IsPath;
    var e, chain := Ladder(), Rungs(9);
    forall i | 0 < i < 8 ensures chain[i] in e.inters && Bridges(e, chain[i], chain[i - 1]) {
      assert e.inters[i - 1] == chain[i];
    }
    assert chain[8] == e.roots[0];
    IsPathEverywhere(e, Plain(0, false), chain);
  }

  /** Position i of a path up the ladder holds rung i. */
  lemma {:induction false} Climbing(chain: seq<Cert>, i: nat)
    requires i < |chain| && chain[0].raw == [0]
    requires forall k :: 0 < k <= i ==> Above(chain[k], chain[k - 1])
    ensures chain[i].raw == [i]
  {
    if i > 0 { Climbing(chain, i - 1); }
  }

  /** Every path up the ladder has all nine. */
  lemma LadderLength(chain: seq<Cert>)
    requires IsPath(Ladder(), Plain(0, false), chain)
    ensures |chain| == 9
  {
    hide IsPath, Above;
    var n := |chain|;
    IsPathEverywhere(Ladder(), Plain(0, false), chain);
    assert Above(chain[n - 1], chain[n - 2]);
    forall k | 0 < k <= n - 1 ensures Above(chain[k], chain[k - 1]) {
      if k < n - 1 { assert Bridges(Ladder(), chain[k], chain[k - 1]); }
    }
    Climbing(chain, n - 1);
    assert chain[n - 1] == Plain(8, false);
  }

  lemma LadderUnconstrained()
    ensures Unconstrained(Ladder(), Plain(0, false))
  {
  }

  /** The bound counts the certificates below the root: a chain of nine verifies. */
  lemma NineCertificatesVerify()
    ensures Outcome(Ladder(), Plain(0, false)).Chain? && |Outcome(Ladder(), Plain(0, false)).chain| == 9
  {
    hide IsPath, Unconstrained, Ladder, Outcome, MeetsConstraints;
    var e, leaf := Ladder(), Plain(0, false);
    LadderIsPath();
    LadderUnconstrained();
    assert WithinBound(e, leaf, Rungs(9), MAX_DEPTH);
    forall q | WithinBound(e, leaf, q, MAX_DEPTH) ensures MeetsConstraints(e, q) { UnconstrainedMeets(e, leaf, q); }
    CompleteWhenAllMeet(e, leaf);
    OutcomeSound(e, leaf, Outcome(e, leaf).chain);
    LadderLength(Outcome(e, leaf).chain);
  }
}
