/** The cipher as section 5 of RFC 5830 describes it: subkeys in rising order three times and then in
    falling order, rotation as repeated doubling, words with their low byte first. */
module Gost28147Laws {
  import opened Gf256
  import opened Blocks
  import opened Gost28147

  /** The subkey of each round. */
  lemma SchedulesExactly(i: nat)
    requires i < 32
    ensures SEQ_ENCRYPT[i] == if i < 24 then i % 8 else 7 - i % 8
    ensures SEQ_DECRYPT[i] == if i < 8 then i % 8 else 7 - i % 8
  {
    Octets();
    var j := i % 8;
    UpAndDown(j);
    hide SEQ_ENCRYPT, SEQ_DECRYPT;
    if i < 8 {
      assert i == j;
    } else if i < 16 {
      assert i == 8 + j;
    } else if i < 24 {
      assert i == 16 + j;
    } else {
      assert i == 24 + j;
    }
  }

  lemma Octets()
    ensures var up, down := [0, 1, 2, 3, 4, 5, 6, 7], [7, 6, 5, 4, 3, 2, 1, 0];
            SEQ_ENCRYPT == up + up + up + down && SEQ_DECRYPT == up + down + down + down
  {
  }

  lemma UpAndDown(j: nat)
    requires j < 8
    ensures [0, 1, 2, 3, 4, 5, 6, 7][j] == j && [7, 6, 5, 4, 3, 2, 1, 0][j] == 7 - j
  {
  }

  // ---- rotation ----

  /** Doubling modulo 2^32 with the carry added at the low end. */
  function DoubleAround(y: bv32): bv32 { if y >= 0x8000_0000 then Add32(Add32(y, y), 1) else Add32(y, y) }

  function DoubleTimes(y: bv32, n: nat): bv32 { if n == 0 then y else DoubleAround(DoubleTimes(y, n - 1)) }

  function Rotate1(y: bv32): bv32 { (y << 1) | (y >> 31) }

  function Twice(y: bv32): bv32 { y << 1 }

  function Top(y: bv32): bv32 { y >> 31 }

  function Or32(a: bv32, b: bv32): bv32 { a | b }

  lemma AddSelf(y: bv32)
    ensures Add32(y, y) == Twice(y)
  {
  }

  lemma TopIs(y: bv32)
    ensures Top(y) == if y >= 0x8000_0000 then 1 else 0
  {
  }

  lemma OrOne(y: bv32)
    ensures Or32(Twice(y), 1) == Add32(Twice(y), 1) && Or32(Twice(y), 0) == Twice(y)
  {
  }

  lemma Rotate1Is(y: bv32)
    ensures Rotate1(y) == Or32(Twice(y), Top(y))
  {
  }

  lemma RotateDoubles(y: bv32)
    ensures DoubleAround(y) == Rotate1(y)
  {
    hide Add32, Twice, Top, Or32, Rotate1;
    AddSelf(y);
    TopIs(y);
    OrOne(y);
    Rotate1Is(y);
  }

  lemma ElevenRotations(y: bv32)
    ensures RotateLeft11(y)
         == Rotate1(Rotate1(Rotate1(Rotate1(Rotate1(Rotate1(Rotate1(Rotate1(Rotate1(Rotate1(Rotate1(y)))))))))))
  {
  }

  /** The rotation is eleven doublings with end-around carry. */
  lemma RotationExactly(y: bv32)
    ensures RotateLeft11(y) == DoubleTimes(y, 11)
  {
    hide Rotate1, RotateLeft11, DoubleAround;
    ElevenRotations(y);
    var y1 := Doubling(y, 0);
    var y2 := Doubling(y, 1);
    var y3 := Doubling(y, 2);
    var y4 := Doubling(y, 3);
    var y5 := Doubling(y, 4);
    var y6 := Doubling(y, 5);
    var y7 := Doubling(y, 6);
    var y8 := Doubling(y, 7);
    var y9 := Doubling(y, 8);
    var y10 := Doubling(y, 9);
    var y11 := Doubling(y, 10);
  }

  lemma Doubling(y: bv32, n: nat) returns (r: bv32)
    ensures r == DoubleTimes(y, n + 1) == Rotate1(DoubleTimes(y, n)) && DoubleTimes(y, 0) == y
  {
    hide Rotate1, DoubleAround;
    RotateDoubles(DoubleTimes(y, n));
    r := DoubleTimes(y, n + 1);
  }

  // ---- words ----

  function Down8(w: bv32): bv32 { w >> 8 }

  /** The word of four bytes, lowest first. */
  function Word(b0: Byte, b1: Byte, b2: Byte, b3: Byte): bv32
  {
    (b0 as bv32) | ((b1 as bv32) << 8) | ((b2 as bv32) << 16) | ((b3 as bv32) << 24)
  }

  lemma LoadIsWord(b: seq<Byte>)
    requires |b| == 4
    ensures Load32(b) == Word(b[0], b[1], b[2], b[3])
  {
  }

  lemma WordLowFirst(b0: Byte, b1: Byte, b2: Byte, b3: Byte)
    ensures Byte0(Word(b0, b1, b2, b3)) == b0 && Down8(Word(b0, b1, b2, b3)) == Word(b1, b2, b3, 0)
    ensures Word(0, 0, 0, 0) == 0
  {
  }

  /** The first byte of a word is its low byte, and dropping it moves the others down. */
  lemma LoadLowFirst(b: seq<Byte>)
    requires |b| == 4
    ensures Byte0(Load32(b)) == b[0] && Down8(Load32(b)) == Load32([b[1], b[2], b[3], 0])
    ensures Load32([0, 0, 0, 0]) == 0
  {
    hide Load32, Word, Byte0, Down8;
    LoadIsWord(b);
    LoadIsWord([b[1], b[2], b[3], 0]);
    LoadIsWord([0, 0, 0, 0]);
    WordLowFirst(b[0], b[1], b[2], b[3]);
  }

  // ---- the rounds ----

  /** The subkey index of round i. */
  function KeyIndex(rising: nat, i: nat): nat { if i < rising then i % 8 else 7 - i % 8 }

  /** One sequence of words runs through the rounds: each is the sum of the word two before it and the
      function of the word before it plus its subkey. */
  ghost predicate Run(rows: Rows, x: seq<bv32>, rising: nat, u: seq<bv32>)
    requires |x| == 8
  {
    |u| == 34 && forall i :: 0 <= i < 32 ==> RoundAt(rows, x, rising, u, i)
  }

  predicate RoundAt(rows: Rows, x: seq<bv32>, rising: nat, u: seq<bv32>, i: nat)
    requires |x| == 8 && |u| == 34 && i < 32
  {
    u[i + 2] == Xor32(DoubleTimes(SubstituteFrom(rows, Add32(u[i + 1], x[KeyIndex(rising, i)]), 0), 11), u[i])
  }

  /** Encryption runs the subkeys up three times, decryption once: the block enters as N1, N2 with N2
      first in the sequence, and its last two words leave in order. */
  lemma CryptExactly(rows: Rows, x: seq<bv32>, src: seq<Byte>, u: seq<bv32>, rising: nat)
    requires |x| == 8 && |src| == 8 && Run(rows, x, rising, u) && (rising == 24 || rising == 8)
    requires u[0] == Load32(src[4..8]) && u[1] == Load32(src[0..4])
    ensures rising == 24 ==> EncryptBlock(rows, x, src) == Store32(u[32]) + Store32(u[33])
    ensures rising == 8 ==> DecryptBlock(rows, x, src) == Store32(u[32]) + Store32(u[33])
  {
    hide RoundsOf, Load32, Store32, Run, ScheduleOk;
    SchedulesOk();
    if rising == 24 {
      OrderIs(SEQ_ENCRYPT, 24);
      RoundsRun(rows, x, SEQ_ENCRYPT, 24, u, 32);
    } else {
      OrderIs(SEQ_DECRYPT, 8);
      RoundsRun(rows, x, SEQ_DECRYPT, 8, u, 32);
    }
  }

  lemma OrderIs(order: seq<nat>, rising: nat)
    requires (order == SEQ_ENCRYPT && rising == 24) || (order == SEQ_DECRYPT && rising == 8)
    ensures |order| == 32 && forall i :: 0 <= i < 32 ==> order[i] == KeyIndex(rising, i)
  {
    forall i | 0 <= i < 32 ensures order[i] == KeyIndex(rising, i) { SchedulesExactly(i); }
  }

  lemma {:induction false} RoundsRun(rows: Rows, x: seq<bv32>, order: seq<nat>, rising: nat, u: seq<bv32>, i: nat)
    requires |x| == 8 && ScheduleOk(order) && Run(rows, x, rising, u) && i <= 32
    requires forall i :: 0 <= i < 32 ==> order[i] == KeyIndex(rising, i)
    ensures RoundsOf(rows, x, order, u[1], u[0], i) == (u[i + 1], u[i])
  {
    hide SubstituteFrom, DoubleTimes, RotateLeft11, Add32, Xor32, KeyIndex;
    if i > 0 {
      RoundsRun(rows, x, order, rising, u, i - 1);
      assert RoundAt(rows, x, rising, u, i - 1);
      RotationExactly(SubstituteFrom(rows, Add32(u[i], x[order[i - 1]]), 0));
    }
  }
}
