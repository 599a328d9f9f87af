/** The partly filled block buffer that both hash objects keep. */
module BlockBuffer {
  import opened ModArith
  import opened Gf256

  /** copy(dst[n:], q). */
  method CopyInto(dst: array<Byte>, n: nat, q: seq<Byte>)
    requires n + |q| <= dst.Length
    modifies dst
    ensures dst[..n + |q|] == old(dst[..n]) + q
  {
    forall i | 0 <= i < |q| { dst[n + i] := q[i]; }
  }

  /** Where the bytes of a part-filled buffer lie in the message. */
  lemma FillFacts(size: nat, m: seq<Byte>, n: nat, q: seq<Byte>)
    requires size > 0 && n == |m| % size && 0 < n && n + |q| <= size
    ensures n <= |m|
    ensures
      var before, held, all := m[..|m| - n], m[|m| - n..], m + q;
      && before + held == m && before + (held + q) == all
      && |before| % size == 0 && |before| / size == |m| / size
      && (n + |q| < size ==> |all| / size == |before| / size && |all| % size == n + |q|)
      && all[|all| - (n + |q|)..] == held + q
  {
    FillCounts(size, |m|, n, |q|);
  }

  lemma FillCounts(size: nat, l: nat, n: nat, c: nat)
    requires size > 0 && n == l % size && n + c <= size
    ensures n <= l && (l - n) % size == 0 && (l - n) / size == l / size
    ensures n + c < size ==> (l + c) / size == l / size && (l + c) % size == n + c
  {
    DivMod(l, size);
    var k := l / size;
    MulMono(0, k, size);
    ModUnique(l - n, size, k, 0);
    if n + c < size { ModUnique(l + c, size, k, n + c); }
  }
}
