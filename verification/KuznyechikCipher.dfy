/** The Cipher object: key schedule, Encrypt and Decrypt. The table-driven and the constant-time
    instances implement one specification, so they agree on every key and block. */
module KuznyechikCipher {
  import opened Gf256
  import opened Blocks
  import opened Kuznyechik
  import opened KuznyechikTables
  import opened KuznyechikConstantTime

  /** The constants filled at package initialisation. */
  method BuildConstants() returns (c: seq<Block>)
    ensures c == Constants()
  {
    hide L, ToByte;
    c := [];
    for i := 0 to 32
      invariant |c| == i && forall k :: 0 <= k < i ==> c[k] == Constants()[k]
    {
      var blk := UnitBlock(15, ToByte(i + 1));
      LInPlace(blk);
      c := c + [blk[..]];
    }
  }

  class Cipher {
    const pi: Sbox
    const inv: Sbox
    const cnst: seq<Block>
    const constantTime: bool
    var ks: seq<Block>
    var enc: array2<Entry>
    var linv: array2<Entry>
    var lCol: array2<Entry>
    var lInvCol: array2<Entry>

    /** The tables this instance's path uses are built, and the constants are in place. */
    ghost predicate Ready()
      reads this, enc, linv, lCol, lInvCol
    {
      && cnst == Constants() && |ks| == 10
      && (!constantTime ==> IsTable(L, pi, enc) && IsTable(LInv, IdentitySbox(), linv))
      && (constantTime ==> IsColumns(L, lCol) && IsColumns(LInv, lInvCol))
    }

    /** Ready, with the round keys of some 32-byte key. */
    ghost predicate Valid(key: seq<Byte>)
      reads this, enc, linv, lCol, lInvCol
    {
      Ready() && |key| == 32 && ks == RoundKeys(pi, key)
    }

    /** NewCipher: the table-driven instance. The S-box must repeat no byte. */
    constructor NewCipher(pi: Sbox, key: seq<Byte>)
      requires |key| == 32
      requires forall i, j :: 0 <= i < j < 256 ==> pi[i] != pi[j]
      ensures !constantTime && this.pi == pi && Inverts(pi, inv)
      ensures Valid(key)
      ensures fresh(enc) && fresh(linv) && fresh(lCol) && fresh(lInvCol)
    {
      hide Inverts, IsTable;
      this.pi := pi;
      constantTime := false;
      var i := BuildInverse(pi);
      inv := i;
      var c := BuildConstants();
      cnst := c;
      ks := seq(10, _ => Zeros(BLOCK_SIZE));
      var e, l := BuildTables(pi);
      enc := e;
      linv := l;
      lCol := new Entry[0, 0];
      lInvCol := new Entry[0, 0];
      new;
      ExpandKey(key);
    }

    /** NewCipherCT: the constant-time instance never builds the fused tables. */
    constructor NewCipherCT(pi: Sbox, key: seq<Byte>)
      requires |key| == 32
      requires forall i, j :: 0 <= i < j < 256 ==> pi[i] != pi[j]
      ensures constantTime && this.pi == pi && Inverts(pi, inv)
      ensures Valid(key)
      ensures fresh(enc) && fresh(linv) && fresh(lCol) && fresh(lInvCol)
    {
      hide Inverts, IsColumns;
      this.pi := pi;
      constantTime := true;
      var i := BuildInverse(pi);
      inv := i;
      var c := BuildConstants();
      cnst := c;
      ks := seq(10, _ => Zeros(BLOCK_SIZE));
      var e, l := BuildColumns();
      lCol := e;
      lInvCol := l;
      enc := new Entry[0, 0];
      linv := new Entry[0, 0];
      new;
      ExpandKey(key);
    }

    /** The forward round half: S then L, on either path. */
    method Sl(blk: array<Byte>)
      requires Ready() && blk.Length == BLOCK_SIZE
      modifies blk
      ensures Ready() && blk[..] == L(S(pi, old(blk[..])))
    {
      hide L, LInv, S, IsTable, IsColumns, Constants, IdentitySbox;
      if constantTime {
        CtSLEncrypt(pi, blk, lCol);
      } else {
        SlEncrypt(pi, blk, enc);
      }
    }

    /** LInv on either path. */
    method Linv(blk: array<Byte>)
      requires Ready() && blk.Length == BLOCK_SIZE
      modifies blk
      ensures Ready() && blk[..] == LInv(old(blk[..]))
    {
      hide L, LInv, S, IsTable, IsColumns, Constants, IdentitySbox;
      if constantTime {
        CtLInvFast(blk, lInvCol);
      } else {
        LInvFast(blk, linv);
      }
    }

    /** The inverse S-box on either path. */
    method Sinv(blk: array<Byte>)
      requires Ready() && blk.Length == BLOCK_SIZE
      modifies blk
      ensures Ready() && blk[..] == S(inv, old(blk[..]))
    {
      hide L, LInv, S, IsTable, IsColumns, Constants, IdentitySbox;
      if constantTime {
        CtSInv(inv, blk);
      } else {
        SubstituteBytes(inv, blk);
      }
    }

    /** One Feistel step of the key schedule. */
    method FeistelStep(a: Block, b: Block, c: Block) returns (a': Block, b': Block)
      requires Ready()
      ensures (a', b') == (XorSeq(Round(pi, c, a), b), a)
    {
      hide L, LInv, S, IsTable, IsColumns, Constants, IdentitySbox, XorSeq;
      var krt := new Byte[16](i requires 0 <= i < 16 => a[i]);
      assert krt[..] == a;
      XorInto(krt, c);
      Sl(krt);
      XorInto(krt, b);
      b' := a;
      a' := krt[..];
    }

    /** expandKey: the same round keys on both paths; the keys are gathered, then stored. */
    method ExpandKey(key: seq<Byte>)
      requires Ready() && |key| == 32
      modifies `ks
      ensures Ready() && ks == RoundKeys(pi, key)
    {
      hide L, LInv, S, IsTable, IsColumns, Constants, IdentitySbox, XorSeq, KeyState, RoundKeys, Round;
      var kr0, kr1 := key[..16], key[16..];
      KeyHalves(pi, key);
      var rk := [kr0, kr1];
      for i := 0 to 4
        invariant Ready()
        invariant (kr0, kr1) == KeyState(pi, key, 8 * i)
        invariant rk == RoundKeys(pi, key)[..2 + 2 * i]
      {
        for j := 0 to 8
          invariant Ready()
          invariant (kr0, kr1) == KeyState(pi, key, 8 * i + j)
        {
          KeyStateStep(pi, key, 8 * i + j);
          kr0, kr1 := FeistelStep(kr0, kr1, cnst[8 * i + j]);
        }
        rk := rk + [kr0, kr1];
        RoundKeyPair(pi, key, i);
      }
      ks := rk;
    }

    /** The rounds of Encrypt on a local copy of the input block. */
    method EncryptRounds(x: Block) returns (blk: array<Byte>)
      requires Ready()
      ensures fresh(blk) && blk.Length == BLOCK_SIZE && blk[..] == EncryptSpec(pi, ks, x)
    {
      hide L, LInv, S, IsTable, IsColumns, Constants, IdentitySbox, XorSeq;
      blk := new Byte[16](i requires 0 <= i < 16 => x[i]);
      assert blk[..] == x;
      for i := 0 to 9
        invariant Ready() && blk[..] == Rounds(pi, ks, x, i)
      {
        XorInto(blk, ks[i]);
        Sl(blk);
      }
      XorInto(blk, ks[9]);
    }

    /** The rounds of Decrypt on a local copy of the input block. */
    method DecryptRounds(x: Block) returns (blk: array<Byte>)
      requires Ready()
      ensures fresh(blk) && blk.Length == BLOCK_SIZE && blk[..] == DecryptSpec(inv, ks, x)
    {
      hide L, LInv, S, IsTable, IsColumns, Constants, IdentitySbox, XorSeq;
      blk := new Byte[16](i requires 0 <= i < 16 => x[i]);
      assert blk[..] == x;
      var i := 9;
      while i >= 1
        invariant 0 <= i <= 9
        invariant Ready() && blk[..] == Unrounds(inv, ks, x, i)
      {
        XorInto(blk, ks[i]);
        Linv(blk);
        Sinv(blk);
        i := i - 1;
      }
      XorInto(blk, ks[0]);
    }

    /** Encrypt on the block of src from so into dst from d; the two may be one array. */
    method Encrypt(dst: array<Byte>, d: nat, src: array<Byte>, so: nat)
      requires Ready() && so + BLOCK_SIZE <= src.Length && d + BLOCK_SIZE <= dst.Length
      modifies dst
      ensures Ready()
      ensures dst[d..d + 16] == EncryptSpec(pi, ks, old(src[so..so + 16]))
      ensures dst[..d] == old(dst[..d]) && dst[d + 16..] == old(dst[d + 16..])
    {
      hide EncryptSpec, IsTable, IsColumns, Constants, IdentitySbox;
      var blk := EncryptRounds(src[so..so + 16]);
      CopyBlock(dst, d, blk);
    }

    /** Decrypt on the block of src from so into dst from d. */
    method Decrypt(dst: array<Byte>, d: nat, src: array<Byte>, so: nat)
      requires Ready() && so + BLOCK_SIZE <= src.Length && d + BLOCK_SIZE <= dst.Length
      modifies dst
      ensures Ready()
      ensures dst[d..d + 16] == DecryptSpec(inv, ks, old(src[so..so + 16]))
      ensures dst[..d] == old(dst[..d]) && dst[d + 16..] == old(dst[d + 16..])
    {
      hide DecryptSpec, IsTable, IsColumns, Constants, IdentitySbox;
      var blk := DecryptRounds(src[so..so + 16]);
      CopyBlock(dst, d, blk);
    }
  }

  lemma KeyStateStep(pi: Sbox, key: seq<Byte>, n: nat)
    requires |key| == 32 && n < 32
    ensures
      var (a, b) := KeyState(pi, key, n);
      KeyState(pi, key, n + 1) == (XorSeq(Round(pi, Constants()[n], a), b), a)
  {
    hide Round, Constants, XorSeq;
  }

  lemma KeyHalves(pi: Sbox, key: seq<Byte>)
    requires |key| == 32
    ensures KeyState(pi, key, 0) == (key[..16], key[16..])
    ensures RoundKeys(pi, key)[..2] == [key[..16], key[16..]]
  {
    hide Round, Constants, XorSeq;
    var r := RoundKeys(pi, key);
    assert r[..2] == [r[0], r[1]];
  }

  lemma RoundKeyPair(pi: Sbox, key: seq<Byte>, i: nat)
    requires |key| == 32 && i < 4
    ensures
      var (a, b) := KeyState(pi, key, 8 * i + 8);
      RoundKeys(pi, key)[..4 + 2 * i] == RoundKeys(pi, key)[..2 + 2 * i] + [a, b]
  {
    hide KeyState;
    var r := RoundKeys(pi, key);
    assert r[2 + 2 * i] == KeyState(pi, key, 8 * i + 8).0;
    assert r[3 + 2 * i] == KeyState(pi, key, 8 * i + 8).1;
    assert r[..4 + 2 * i] == r[..2 + 2 * i] + [r[2 + 2 * i], r[3 + 2 * i]];
  }

  method CopyBlock(dst: array<Byte>, d: nat, blk: array<Byte>)
    requires dst != blk && blk.Length == BLOCK_SIZE && d + BLOCK_SIZE <= dst.Length
    modifies dst
    ensures dst[d..d + 16] == blk[..]
    ensures dst[..d] == old(dst[..d]) && dst[d + 16..] == old(dst[d + 16..])
  {
    forall i | 0 <= i < 16 { dst[d + i] := blk[i]; }
  }

  /** What a caller sees: decrypting an encrypted block in place gives it back, for any two
      instances of one key, whichever path each takes. */
  method RoundTrip(key: seq<Byte>, e: Cipher, d: Cipher, buf: array<Byte>)
    requires e.Valid(key) && d.Valid(key) && e.pi == d.pi && Inverts(d.pi, d.inv)
    requires buf.Length == BLOCK_SIZE
    modifies buf
    ensures buf[..] == old(buf[..])
  {
    hide L, LInv, S, IsTable, IsColumns, Constants, IdentitySbox, EncryptSpec, DecryptSpec, Inverts;
    ghost var x := buf[..];
    assert buf[0..16] == x;
    e.Encrypt(buf, 0, buf, 0);
    ghost var y := buf[0..16];
    d.Decrypt(buf, 0, buf, 0);
    DecryptEncrypt(d.pi, d.inv, d.ks, x);
    assert buf[..] == buf[0..16];
  }
}
