/** The GOST 28147-89 block cipher (RFC 5830, section 5): 32 Feistel rounds, and the proof that the
    reversed schedule undoes them. */
module Gost28147 {
  import opened Gf256
  import opened Blocks

  /** Eight rows of sixteen nibbles. */
  type Rows = r: seq<seq<bv4>> | |r| == 8 && forall i :: 0 <= i < 8 ==> |r[i]| == 16
    witness seq(8, _ => seq(16, _ => 0))

  function Xor32(a: bv32, b: bv32): bv32 { a ^ b }

  function Add32(a: bv32, b: bv32): bv32 { a + b }

  function RotateLeft11(y: bv32): bv32 { (y << 11) | (y >> 21) }

  /** x >> 4. */
  function NextNibble(x: bv32): bv32 { x >> 4 }

  function LowNibble(x: bv32): bv4 { (x & 0xF) as bv4 }

  /** hi << 4 | lo. */
  function JoinNibble(hi: bv32, lo: bv4): bv32 { (hi << 4) | (lo as bv32) }

  lemma Xor32Cancel(a: bv32, b: bv32)
    ensures Xor32(a, Xor32(a, b)) == b
  {
  }

  /** Row i of the tables substitutes nibble i: the nibbles from i on, lowest first. */
  function SubstituteFrom(rows: Rows, x: bv32, i: nat): bv32
    requires i <= 8
    decreases 8 - i
  {
    if i == 8 then 0
    else JoinNibble(SubstituteFrom(rows, NextNibble(x), i + 1), rows[i][Index4(LowNibble(x))])
  }

  /** Nibble k of a word, lowest first. */
  function NibbleAt(x: bv32, k: nat): bv4 { if k == 0 then LowNibble(x) else NibbleAt(NextNibble(x), k - 1) }

  function Index4(n: bv4): (i: nat)
    ensures i < 16
  {
    n as int
  }

  function Low28(x: bv32): bv32 { x & 0x0FFFFFFF }

  lemma JoinedNibbles(hi: bv32, lo: bv4)
    ensures LowNibble(JoinNibble(hi, lo)) == lo && NextNibble(JoinNibble(hi, lo)) == Low28(hi)
  {
  }

  lemma Low28Nibble(x: bv32, k: nat)
    requires k < 7
    ensures NibbleAt(Low28(x), k) == NibbleAt(x, k)
  {
    hide Low28, LowNibble, NextNibble, NibbleAt;
    Nibbles(x);
    Nibbles(Low28(x));
    Low28Nibbles(x);
  }

  lemma Nibbles(x: bv32)
    ensures
      var y := NextNibble(NextNibble(NextNibble(x)));
      && NibbleAt(x, 0) == LowNibble(x) && NibbleAt(x, 1) == LowNibble(NextNibble(x))
      && NibbleAt(x, 2) == LowNibble(NextNibble(NextNibble(x))) && NibbleAt(x, 3) == LowNibble(y)
      && NibbleAt(x, 4) == LowNibble(NextNibble(y)) && NibbleAt(x, 5) == LowNibble(NextNibble(NextNibble(y)))
      && NibbleAt(x, 6) == LowNibble(NextNibble(NextNibble(NextNibble(y))))
  {
    hide LowNibble, NextNibble, NibbleAt;
    var x1, x2 := NextNibble(x), NextNibble(NextNibble(x));
    var x3 := NextNibble(x2);
    var x4, x5 := NextNibble(x3), NextNibble(NextNibble(x3));
    NibbleStep(x, 0); NibbleStep(x, 1); NibbleStep(x, 2); NibbleStep(x, 3); NibbleStep(x, 4); NibbleStep(x, 5);
    NibbleStep(x1, 0); NibbleStep(x1, 1); NibbleStep(x1, 2); NibbleStep(x1, 3); NibbleStep(x1, 4);
    NibbleStep(x2, 0); NibbleStep(x2, 1); NibbleStep(x2, 2); NibbleStep(x2, 3);
    NibbleStep(x3, 0); NibbleStep(x3, 1); NibbleStep(x3, 2);
    NibbleStep(x4, 0); NibbleStep(x4, 1);
    NibbleStep(x5, 0);
  }

  lemma NibbleStep(x: bv32, k: nat)
    ensures NibbleAt(x, k + 1) == NibbleAt(NextNibble(x), k) && NibbleAt(x, 0) == LowNibble(x)
    ensures NibbleAt(NextNibble(x), 0) == LowNibble(NextNibble(x))
  {
    hide LowNibble, NextNibble;
  }

  lemma Low28Nibbles(x: bv32)
    ensures
      var z := Low28(x);
      var y, w := NextNibble(NextNibble(NextNibble(x))), NextNibble(NextNibble(NextNibble(z)));
      && LowNibble(z) == LowNibble(x) && LowNibble(NextNibble(z)) == LowNibble(NextNibble(x))
      && LowNibble(NextNibble(NextNibble(z))) == LowNibble(NextNibble(NextNibble(x))) && LowNibble(w) == LowNibble(y)
      && LowNibble(NextNibble(w)) == LowNibble(NextNibble(y))
      && LowNibble(NextNibble(NextNibble(w))) == LowNibble(NextNibble(NextNibble(y)))
      && LowNibble(NextNibble(NextNibble(NextNibble(w)))) == LowNibble(NextNibble(NextNibble(NextNibble(y))))
  {
  }

  /** t substitutes each of the eight nibbles by its own row. */
  lemma {:induction false} SubstitutesNibbles(rows: Rows, x: bv32, i: nat, k: nat)
    requires i + k < 8
    ensures NibbleAt(SubstituteFrom(rows, x, i), k) == rows[i + k][Index4(NibbleAt(x, k))]
    decreases k
  {
    hide LowNibble, NextNibble, JoinNibble, Low28;
    var hi, lo := SubstituteFrom(rows, NextNibble(x), i + 1), rows[i][Index4(LowNibble(x))];
    JoinedNibbles(hi, lo);
    if k > 0 {
      SubstitutesNibbles(rows, NextNibble(x), i + 1, k - 1);
      Low28Nibble(hi, k - 1);
    }
  }

  function F(rows: Rows, x: bv32): bv32 { RotateLeft11(SubstituteFrom(rows, x, 0)) }

  /** The subkey indices of the rounds. */
  const SEQ_ENCRYPT: seq<nat> := [0, 1, 2, 3, 4, 5, 6, 7, 0, 1, 2, 3, 4, 5, 6, 7,
                                  0, 1, 2, 3, 4, 5, 6, 7, 7, 6, 5, 4, 3, 2, 1, 0]

  const SEQ_DECRYPT: seq<nat> := [0, 1, 2, 3, 4, 5, 6, 7, 7, 6, 5, 4, 3, 2, 1, 0,
                                  7, 6, 5, 4, 3, 2, 1, 0, 7, 6, 5, 4, 3, 2, 1, 0]

  ghost predicate ScheduleOk(order: seq<nat>)
  {
    |order| == 32 && forall i :: 0 <= i < 32 ==> order[i] < 8
  }

  /** One schedule is the other read backwards. */
  lemma SchedulesReverse(i: nat)
    requires i < 32
    ensures SEQ_DECRYPT[i] == SEQ_ENCRYPT[31 - i] < 8
  {
  }

  /** The halves after i rounds. */
  function RoundsOf(rows: Rows, x: seq<bv32>, order: seq<nat>, n1: bv32, n2: bv32, i: nat): (bv32, bv32)
    requires |x| == 8 && ScheduleOk(order) && i <= 32
  {
    if i == 0 then (n1, n2)
    else
      var (a, b) := RoundsOf(rows, x, order, n1, n2, i - 1);
      (Xor32(F(rows, Add32(a, x[order[i - 1]])), b), a)
  }

  lemma SchedulesOk()
    ensures ScheduleOk(SEQ_ENCRYPT) && ScheduleOk(SEQ_DECRYPT)
  {
    forall i | 0 <= i < 32 ensures SEQ_ENCRYPT[i] < 8 && SEQ_DECRYPT[i] < 8 {
      SchedulesReverse(i);
      SchedulesReverse(31 - i);
    }
  }

  /** dec is enc read backwards. */
  ghost predicate Reverses(enc: seq<nat>, dec: seq<nat>)
  {
    ScheduleOk(enc) && ScheduleOk(dec) && forall i :: 0 <= i < 32 ==> dec[i] == enc[31 - i]
  }

  lemma SchedulesAgree()
    ensures Reverses(SEQ_ENCRYPT, SEQ_DECRYPT)
  {
    SchedulesOk();
    forall i | 0 <= i < 32 ensures SEQ_DECRYPT[i] == SEQ_ENCRYPT[31 - i] { SchedulesReverse(i); }
  }

  lemma SchedulesAgreeBack()
    ensures Reverses(SEQ_DECRYPT, SEQ_ENCRYPT)
  {
    SchedulesOk();
    forall i | 0 <= i < 32 ensures SEQ_ENCRYPT[i] == SEQ_DECRYPT[31 - i] { SchedulesReverse(31 - i); }
  }

  lemma ScheduleIndex(order: seq<nat>, i: nat)
    requires ScheduleOk(order) && i < 32
    ensures |order| == 32 && order[i] < 8
  {
  }

  lemma NoRounds(rows: Rows, x: seq<bv32>, order: seq<nat>, n1: bv32, n2: bv32)
    requires |x| == 8 && ScheduleOk(order)
    ensures RoundsOf(rows, x, order, n1, n2, 0) == (n1, n2)
  {
    hide F;
  }

  /** Running i rounds of the reversed schedule on the swapped output reaches the swapped halves
      after 32 - i forward rounds. */
  lemma {:induction false} RoundsUndone(rows: Rows, x: seq<bv32>, enc: seq<nat>, dec: seq<nat>,
                                          n1: bv32, n2: bv32, i: nat)
    requires |x| == 8 && i <= 32 && Reverses(enc, dec)
    ensures
      var (a, b) := RoundsOf(rows, x, enc, n1, n2, 32);
      var (c, d) := RoundsOf(rows, x, enc, n1, n2, 32 - i);
      RoundsOf(rows, x, dec, b, a, i) == (d, c)
  {
    hide F, Add32, Xor32;
    if i > 0 {
      RoundsUndone(rows, x, enc, dec, n1, n2, i - 1);
      var (c, d) := RoundsOf(rows, x, enc, n1, n2, 32 - i);
      Xor32Cancel(F(rows, Add32(c, x[enc[32 - i]])), d);
    }
  }

  // ---- blocks ----

  /** binary.LittleEndian.Uint32. */
  function Load32(b: seq<Byte>): bv32
    requires |b| == 4
  {
    (b[0] as bv32) | ((b[1] as bv32) << 8) | ((b[2] as bv32) << 16) | ((b[3] as bv32) << 24)
  }

  /** binary.LittleEndian.PutUint32. */
  function Store32(w: bv32): (b: seq<Byte>)
    ensures |b| == 4
  {
    [Byte0(w), Byte1(w), Byte2(w), Byte3(w)]
  }

  function Byte0(w: bv32): Byte { (w & 0xFF) as Byte }

  function Byte1(w: bv32): Byte { ((w >> 8) & 0xFF) as Byte }

  function Byte2(w: bv32): Byte { ((w >> 16) & 0xFF) as Byte }

  function Byte3(w: bv32): Byte { (w >> 24) as Byte }

  lemma LoadStore32(w: bv32)
    ensures Load32(Store32(w)) == w
  {
  }

  lemma StoreLoad32(b: seq<Byte>)
    requires |b| == 4
    ensures Store32(Load32(b)) == b
  {
    BytesOfLoad(b[0], b[1], b[2], b[3]);
  }

  lemma BytesOfLoad(b0: Byte, b1: Byte, b2: Byte, b3: Byte)
    ensures
      var w := (b0 as bv32) | ((b1 as bv32) << 8) | ((b2 as bv32) << 16) | ((b3 as bv32) << 24);
      Byte0(w) == b0 && Byte1(w) == b1 && Byte2(w) == b2 && Byte3(w) == b3
  {
  }

  /** One block through a schedule: the halves leave swapped. */
  function Crypt(rows: Rows, x: seq<bv32>, order: seq<nat>, src: seq<Byte>): (dst: seq<Byte>)
    requires |x| == 8 && ScheduleOk(order) && |src| == 8
    ensures |dst| == 8
  {
    var (a, b) := RoundsOf(rows, x, order, Load32(src[0..4]), Load32(src[4..8]), 32);
    Store32(b) + Store32(a)
  }

  function EncryptBlock(rows: Rows, x: seq<bv32>, src: seq<Byte>): (dst: seq<Byte>)
    requires |x| == 8 && |src| == 8
    ensures |dst| == 8
  {
    SchedulesOk();
    Crypt(rows, x, SEQ_ENCRYPT, src)
  }

  function DecryptBlock(rows: Rows, x: seq<bv32>, src: seq<Byte>): (dst: seq<Byte>)
    requires |x| == 8 && |src| == 8
    ensures |dst| == 8
  {
    SchedulesOk();
    Crypt(rows, x, SEQ_DECRYPT, src)
  }

  /** A schedule read backwards undoes the schedule. */
  lemma CryptUndone(rows: Rows, x: seq<bv32>, enc: seq<nat>, dec: seq<nat>, src: seq<Byte>)
    requires |x| == 8 && |src| == 8 && Reverses(enc, dec)
    ensures Crypt(rows, x, dec, Crypt(rows, x, enc, src)) == src
  {
    assert ScheduleOk(enc) && ScheduleOk(dec);
    hide RoundsOf, Load32, Store32, Reverses, ScheduleOk;
    var n1, n2 := Load32(src[0..4]), Load32(src[4..8]);
    var (a, b) := RoundsOf(rows, x, enc, n1, n2, 32);
    LoadHalves(b, a);
    RoundsUndone(rows, x, enc, dec, n1, n2, 32);
    NoRounds(rows, x, enc, n1, n2);
    StoreHalves(src);
  }

  lemma LoadHalves(a: bv32, b: bv32)
    ensures Load32((Store32(a) + Store32(b))[0..4]) == a && Load32((Store32(a) + Store32(b))[4..8]) == b
  {
    hide Load32, Store32;
    var d := Store32(a) + Store32(b);
    assert d[0..4] == Store32(a) && d[4..8] == Store32(b);
    LoadStore32(a);
    LoadStore32(b);
  }

  lemma StoreHalves(src: seq<Byte>)
    requires |src| == 8
    ensures Store32(Load32(src[0..4])) + Store32(Load32(src[4..8])) == src
  {
    hide Load32, Store32;
    StoreLoad32(src[0..4]);
    StoreLoad32(src[4..8]);
    assert src == src[0..4] + src[4..8];
  }

  /** For every S-box, key and block, in both orders. */
  lemma DecryptEncrypt(rows: Rows, x: seq<bv32>, src: seq<Byte>)
    requires |x| == 8 && |src| == 8
    ensures DecryptBlock(rows, x, EncryptBlock(rows, x, src)) == src
    ensures EncryptBlock(rows, x, DecryptBlock(rows, x, src)) == src
  {
    hide Crypt, Reverses, ScheduleOk;
    SchedulesAgree();
    SchedulesAgreeBack();
    CryptUndone(rows, x, SEQ_ENCRYPT, SEQ_DECRYPT, src);
    CryptUndone(rows, x, SEQ_DECRYPT, SEQ_ENCRYPT, src);
  }

  // ---- the object ----

  class Cipher {
    const x: seq<bv32>
    const sbox: Rows

    /** NewCipher: eight little-endian subkeys. */
    constructor (key: seq<Byte>, sbox: Rows)
      requires |key| == 32
      ensures |x| == 8 && this.sbox == sbox
      ensures forall i :: 0 <= i < 8 ==> x[i] == Load32(key[i * 4..i * 4 + 4])
    {
      hide Load32;
      this.sbox := sbox;
      var xs: seq<bv32> := [];
      for i := 0 to 8
        invariant |xs| == i && forall j :: 0 <= j < i ==> xs[j] == Load32(key[j * 4..j * 4 + 4])
      {
        xs := xs + [Load32(key[i * 4..i * 4 + 4])];
      }
      x := xs;
    }

    /** xcrypt. */
    method XCrypt(order: seq<nat>, a: bv32, b: bv32) returns (n1: bv32, n2: bv32)
      requires |x| == 8 && ScheduleOk(order)
      ensures (n1, n2) == RoundsOf(sbox, x, order, a, b, 32)
    {
      hide F, Add32, Xor32, ScheduleOk;
      n1, n2 := a, b;
      for i := 0 to 32
        invariant (n1, n2) == RoundsOf(sbox, x, order, a, b, i)
      {
        ScheduleIndex(order, i);
        n1, n2 := Xor32(F(sbox, Add32(n1, x[order[i]])), n2), n1;
      }
    }

    /** Encrypt from src at so into dst at d; the buffers may be one. */
    method Encrypt(dst: array<Byte>, d: nat, src: array<Byte>, so: nat)
      requires |x| == 8 && so + 8 <= src.Length && d + 8 <= dst.Length
      modifies dst
      ensures dst[d..d + 8] == EncryptBlock(sbox, x, old(src[so..so + 8]))
      ensures dst[..d] == old(dst[..d]) && dst[d + 8..] == old(dst[d + 8..])
    {
      hide RoundsOf, Load32, Store32, ScheduleOk;
      SchedulesOk();
      var s := src[so..so + 8];
      var n1, n2 := XCrypt(SEQ_ENCRYPT, Load32(s[0..4]), Load32(s[4..8]));
      Write(dst, d, Store32(n2) + Store32(n1));
    }

    /** Decrypt. */
    method Decrypt(dst: array<Byte>, d: nat, src: array<Byte>, so: nat)
      requires |x| == 8 && so + 8 <= src.Length && d + 8 <= dst.Length
      modifies dst
      ensures dst[d..d + 8] == DecryptBlock(sbox, x, old(src[so..so + 8]))
      ensures dst[..d] == old(dst[..d]) && dst[d + 8..] == old(dst[d + 8..])
    {
      hide RoundsOf, Load32, Store32, ScheduleOk;
      SchedulesOk();
      var s := src[so..so + 8];
      var n1, n2 := XCrypt(SEQ_DECRYPT, Load32(s[0..4]), Load32(s[4..8]));
      Write(dst, d, Store32(n2) + Store32(n1));
    }

    method Write(dst: array<Byte>, d: nat, b: seq<Byte>)
      requires |b| == 8 && d + 8 <= dst.Length
      modifies dst
      ensures dst[d..d + 8] == b
      ensures dst[..d] == old(dst[..d]) && dst[d + 8..] == old(dst[d + 8..])
    {
      forall i | 0 <= i < 8 { dst[d + i] := b[i]; }
    }
  }
}
