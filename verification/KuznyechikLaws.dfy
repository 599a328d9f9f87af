/** What the cipher is (RFC 7801), said without the functions that specify the code: the constants by
    the inverse of L, the round keys and the rounds by the sequences they form, R by its vectors. */
module KuznyechikLaws {
  import opened Gf256
  import opened Blocks
  import opened Kuznyechik

  // ---- the key schedule ----

  /** The inverse linear map takes constant i to fifteen zero bytes and the number i + 1. */
  lemma ConstantsCount(i: nat)
    requires i < 32
    ensures LInv(Constants()[i])[..15] == Zeros(15) && Index(LInv(Constants()[i])[15]) == i + 1
  {
    hide L, LInv, ToByte, Index;
    var u := Unit(BLOCK_SIZE, 15, ToByte(i + 1));
    assert Constants()[i] == L(u);
    LInverse(u);
    IndexRoundTrip(i + 1);
    assert u[..15] == Zeros(15);
  }

  /** L takes no other block there. */
  ghost predicate IsConstant(x: Block, n: nat)
  {
    n < 256 && LInv(x)[..15] == Zeros(15) && Index(LInv(x)[15]) == n
  }

  lemma ConstantDetermined(x: Block, y: Block, n: nat)
    requires IsConstant(x, n) && IsConstant(y, n)
    ensures x == y
  {
    hide L, LInv, Index;
    IndexInjective(LInv(x)[15], LInv(y)[15]);
    assert LInv(x) == LInv(x)[..15] + [LInv(x)[15]] && LInv(y) == LInv(y)[..15] + [LInv(y)[15]];
    LInverse(x);
    LInverse(y);
  }

  /** A run of the Feistel recurrence over the constants c from the halves of the key. */
  ghost predicate KeyRun(pi: Sbox, key: seq<Byte>, c: seq<Block>, u: seq<Block>)
    requires |key| == 32
  {
    && |c| == 32 && |u| == 34 && u[0] == key[16..] && u[1] == key[..16]
    && forall n :: 0 <= n < 32 ==> u[n + 2] == XorSeq(L(S(pi, XorSeq(u[n + 1], c[n]))), u[n])
  }

  /** The round keys are the pairs that the recurrence reaches after every eight steps, over the
      constants that L takes from the numbers 1 to 32. */
  lemma RoundKeysExactly(pi: Sbox, key: seq<Byte>, c: seq<Block>, u: seq<Block>, i: nat)
    requires |key| == 32 && KeyRun(pi, key, c, u) && i < 5
    requires forall n :: 0 <= n < 32 ==> IsConstant(c[n], n + 1)
    ensures RoundKeys(pi, key)[2 * i] == u[8 * i + 1] && RoundKeys(pi, key)[2 * i + 1] == u[8 * i]
  {
    hide KeyState, IsConstant, Constants;
    SameConstants(c);
    KeyStateRun(pi, key, c, u, 8 * i);
    assert 2 * i / 2 * 8 == 8 * i && (2 * i + 1) / 2 * 8 == 8 * i && (2 * i + 1) % 2 == 1;
  }

  lemma SameConstants(c: seq<Block>)
    requires |c| == 32 && forall n :: 0 <= n < 32 ==> IsConstant(c[n], n + 1)
    ensures c == Constants()
  {
    hide Constants, LInv, Index;
    forall n | 0 <= n < 32 ensures c[n] == Constants()[n] {
      ConstantsCount(n);
      ConstantDetermined(c[n], Constants()[n], n + 1);
    }
  }

  lemma {:induction false} KeyStateRun(pi: Sbox, key: seq<Byte>, c: seq<Block>, u: seq<Block>, n: nat)
    requires |key| == 32 && KeyRun(pi, key, c, u) && c == Constants() && n <= 32
    ensures KeyState(pi, key, n) == (u[n + 1], u[n])
  {
    hide Constants, L, S, XorSeq;
    if n > 0 {
      KeyStateRun(pi, key, c, u, n - 1);
      assert u[n - 1 + 2] == XorSeq(L(S(pi, XorSeq(u[n - 1 + 1], c[n - 1]))), u[n - 1]);
    }
  }

  // ---- the rounds ----

  /** Nine rounds of key addition, substitution and L, and a last key addition. */
  lemma EncryptsExactly(pi: Sbox, ks: seq<Block>, st: seq<Block>)
    requires |ks| == 10 && |st| == 10
    requires forall i :: 0 <= i < 9 ==> st[i + 1] == L(S(pi, XorSeq(st[i], ks[i])))
    ensures EncryptSpec(pi, ks, st[0]) == XorSeq(st[9], ks[9])
  {
    hide Rounds, L, S, XorSeq;
    RoundsRun(pi, ks, st, 9);
  }

  lemma {:induction false} RoundsRun(pi: Sbox, ks: seq<Block>, st: seq<Block>, n: nat)
    requires |ks| == 10 && |st| == 10 && n <= 9
    requires forall i :: 0 <= i < 9 ==> st[i + 1] == L(S(pi, XorSeq(st[i], ks[i])))
    ensures Rounds(pi, ks, st[0], n) == st[n]
  {
    hide L, S, XorSeq;
    if n > 0 {
      RoundsRun(pi, ks, st, n - 1);
      assert st[n - 1 + 1] == L(S(pi, XorSeq(st[n - 1], ks[n - 1])));
    }
  }

  // ---- the linear map ----

  /** L is sixteen steps of the register: in any run of 32 bytes where each of the first sixteen is the
      sum over the sixteen that follow it, L takes the last sixteen to the first. */
  lemma LExactly(s: seq<Byte>)
    requires |s| == 32 && forall i :: 0 <= i < 16 ==> s[i] == Xor(s[i + 16], Feedback(s[i + 1..i + 16], 15))
    ensures L(s[16..]) == s[..16]
  {
    hide RTimes;
    RegisterRun(s, 16);
  }

  lemma {:induction false} RegisterRun(s: seq<Byte>, n: nat)
    requires |s| == 32 && n <= 16
    requires forall i :: 0 <= i < 16 ==> s[i] == Xor(s[i + 16], Feedback(s[i + 1..i + 16], 15))
    ensures RTimes(s[16..], n) == s[16 - n..32 - n]
  {
    hide Xor, Feedback, R;
    if n > 0 {
      RegisterRun(s, n - 1);
      var i := 16 - n;
      assert s[i] == Xor(s[i + 16], Feedback(s[i + 1..i + 16], 15));
      WindowParts(s, i);
      RIs(s[i + 1..i + 16], s[i + 16], s[i]);
    }
  }

  lemma WindowParts(s: seq<Byte>, i: nat)
    requires i + 17 <= |s|
    ensures s[i..i + 16] == [s[i]] + s[i + 1..i + 16] && s[i + 1..i + 17] == s[i + 1..i + 16] + [s[i + 16]]
  {
  }

  /** The examples of section 5.2 of RFC 7801: which way R shifts, where the sum enters, and the order of
      the coefficients. */
  lemma RExamples()
    ensures R(Zeros(14) + [1] + [0]) == [0x94] + (Zeros(14) + [1])
    ensures R([0x94] + Zeros(14) + [1]) == [0xA5] + ([0x94] + Zeros(14))
    ensures R([0xA5, 0x94] + Zeros(13) + [0]) == [0x64] + ([0xA5, 0x94] + Zeros(13))
    ensures R([0x64, 0xA5, 0x94] + Zeros(12) + [0]) == [0x0D] + ([0x64, 0xA5, 0x94] + Zeros(12))
  {
    hide Gf, Xor, Feedback, R;
    Products();
    LastOnly(Zeros(14) + [1]);
    FirstThree([0x94] + Zeros(14));
    FirstThree([0xA5, 0x94] + Zeros(13));
    FirstThree([0x64, 0xA5, 0x94] + Zeros(12));
    RIs(Zeros(14) + [1], 0, 0x94);
    RIs([0x94] + Zeros(14), 1, 0xA5);
    RIs([0xA5, 0x94] + Zeros(13), 0, 0x64);
    RIs([0x64, 0xA5, 0x94] + Zeros(12), 0, 0x0D);
  }

  lemma RIs(y: seq<Byte>, last: Byte, top: Byte)
    requires |y| == 15 && top == Xor(last, Feedback(y, 15))
    ensures R(y + [last]) == [top] + y
  {
    hide Xor, Feedback;
    assert (y + [last])[..15] == y;
  }

  /** The feedback over bytes that vanish from the fourth on. */
  lemma FirstThree(y: seq<Byte>)
    requires |y| == 15 && forall i :: 3 <= i < 15 ==> y[i] == 0
    ensures Feedback(y, 15) == Xor(Xor(Gf(y[0], 0x94), Gf(y[1], 0x20)), Gf(y[2], 0x85))
  {
    hide Gf, Xor;
    ZerosAdd(y, 3, 15);
    XorZero(Gf(y[0], 0x94));
    assert Feedback(y, 1) == Xor(Feedback(y, 0), Gf(y[0], LC[0]));
    assert Feedback(y, 2) == Xor(Feedback(y, 1), Gf(y[1], LC[1]));
  }

  lemma LastOnly(y: seq<Byte>)
    requires |y| == 15 && forall i :: 0 <= i < 14 ==> y[i] == 0
    ensures Feedback(y, 15) == Gf(y[14], 0x94)
  {
    hide Gf, Xor;
    ZerosAdd(y, 0, 14);
    XorZero(Gf(y[14], 0x94));
    assert Feedback(y, 15) == Xor(Feedback(y, 14), Gf(y[14], LC[14]));
  }

  lemma {:induction false} ZerosAdd(y: seq<Byte>, m: nat, k: nat)
    requires |y| == 15 && m <= k <= 15 && forall i :: m <= i < k ==> y[i] == 0
    ensures Feedback(y, k) == Feedback(y, m)
  {
    hide Gf, Xor;
    if m < k {
      ZerosAdd(y, m, k - 1);
      GfOfZero(LC[k - 1]);
      XorZero(Feedback(y, m));
    }
  }

  /** The product, its eight steps written out. */
  function Steps(a: Byte, b: Byte): Byte
  {
    var a1, b1 := Xtime(a), Shr(b);
    var a2, b2 := Xtime(a1), Shr(b1);
    var a3, b3 := Xtime(a2), Shr(b2);
    var a4, b4 := Xtime(a3), Shr(b3);
    var a5, b5 := Xtime(a4), Shr(b4);
    var a6, b6 := Xtime(a5), Shr(b5);
    var a7, b7 := Xtime(a6), Shr(b6);
    Xor(Pick(Odd(b), a), Xor(Pick(Odd(b1), a1), Xor(Pick(Odd(b2), a2), Xor(Pick(Odd(b3), a3),
      Xor(Pick(Odd(b4), a4), Xor(Pick(Odd(b5), a5), Xor(Pick(Odd(b6), a6), Xor(Pick(Odd(b7), a7), 0))))))))
  }

  lemma GfSteps(a: Byte, b: Byte)
    ensures Gf(a, b) == Steps(a, b)
  {
    hide Xtime, Shr, Odd, Pick, Xor;
    var a1, b1 := Xtime(a), Shr(b);
    var a2, b2 := Xtime(a1), Shr(b1);
    var a3, b3 := Xtime(a2), Shr(b2);
    var a4, b4 := Xtime(a3), Shr(b3);
    var a5, b5 := Xtime(a4), Shr(b4);
    var a6, b6 := Xtime(a5), Shr(b5);
    var a7, b7 := Xtime(a6), Shr(b6);
    GfUnfold(8, a, b);
    GfUnfold(7, a1, b1);
    GfUnfold(6, a2, b2);
    GfUnfold(5, a3, b3);
    GfUnfold(4, a4, b4);
    GfUnfold(3, a5, b5);
    GfUnfold(2, a6, b6);
    GfUnfold(1, a7, b7);
    assert GfBits(0, Xtime(a7), Shr(b7)) == 0;
  }

  /** The products met in the examples. */
  lemma Products()
    ensures Gf(1, 0x94) == 0x94 && Gf(0x94, 0x94) == 0xA4
    ensures Gf(0xA5, 0x94) == 0xCC && Gf(0x94, 0x20) == 0xA8
    ensures Gf(0x64, 0x94) == 0x2E && Gf(0xA5, 0x20) == 0x47 && Gf(0x94, 0x85) == 0x64
    ensures Gf(0, 0x20) == 0 && Gf(0, 0x85) == 0
    ensures Xor(0, 0x94) == 0x94 && Xor(Xor(0xA4, 0), 0) == 0xA4 && Xor(1, 0xA4) == 0xA5
    ensures Xor(0xCC, 0xA8) == 0x64 && Xor(Xor(0xCC, 0xA8), 0) == 0x64 && Xor(0, 0x64) == 0x64
    ensures Xor(0x2E, 0x47) == 0x69 && Xor(0x69, 0x64) == 0x0D && Xor(0, 0x0D) == 0x0D
  {
    hide GfBits, Gf;
    GfSteps(1, 0x94);
    GfSteps(0x94, 0x94);
    GfSteps(0xA5, 0x94);
    GfSteps(0x94, 0x20);
    GfSteps(0x64, 0x94);
    GfSteps(0xA5, 0x20);
    GfSteps(0x94, 0x85);
    GfOfZero(0x20);
    GfOfZero(0x85);
  }
}
