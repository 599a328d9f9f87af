/** A 64-bit word as eight byte lanes: big-endian loads and stores, exclusive or, and the
    word-parallel byte comparison of the constant-time S-box. */
module WordLanes {
  import opened Gf256
  import opened Blocks

  /** Lane i of w in big-endian order: lane 0 is the most significant byte. */
  function Lane(w: bv64, i: nat): Byte
    requires i < 8
  {
    var s: bv64 := match i
      case 0 => w case 1 => w << 8 case 2 => w << 16 case 3 => w << 24
      case 4 => w << 32 case 5 => w << 40 case 6 => w << 48 case _ => w << 56;
    (s >> 56) as Byte
  }

  /** binary.BigEndian.PutUint64. */
  function Lanes(w: bv64): (r: seq<Byte>)
    ensures |r| == 8
  {
    [Lane(w, 0), Lane(w, 1), Lane(w, 2), Lane(w, 3), Lane(w, 4), Lane(w, 5), Lane(w, 6), Lane(w, 7)]
  }

  /** binary.BigEndian.Uint64. */
  function LoadBE(b: seq<Byte>): bv64
    requires |b| == 8
  {
    (b[7] as bv64) | ((b[6] as bv64) << 8) | ((b[5] as bv64) << 16) | ((b[4] as bv64) << 24) |
    ((b[3] as bv64) << 32) | ((b[2] as bv64) << 40) | ((b[1] as bv64) << 48) | ((b[0] as bv64) << 56)
  }

  lemma LanesOfLoad(b: seq<Byte>)
    requires |b| == 8
    ensures Lanes(LoadBE(b)) == b
  {
    LoadLane(b[0], b[1], b[2], b[3], b[4], b[5], b[6], b[7]);
  }

  lemma LoadLane(b0: Byte, b1: Byte, b2: Byte, b3: Byte, b4: Byte, b5: Byte, b6: Byte, b7: Byte)
    ensures
      var w := (b7 as bv64) | ((b6 as bv64) << 8) | ((b5 as bv64) << 16) | ((b4 as bv64) << 24) |
        ((b3 as bv64) << 32) | ((b2 as bv64) << 40) | ((b1 as bv64) << 48) | ((b0 as bv64) << 56);
      && Lane(w, 0) == b0 && Lane(w, 1) == b1 && Lane(w, 2) == b2 && Lane(w, 3) == b3
      && Lane(w, 4) == b4 && Lane(w, 5) == b5 && Lane(w, 6) == b6 && Lane(w, 7) == b7
  {
  }

  function Xor64(w: bv64, v: bv64): bv64 { w ^ v }

  function Or64(w: bv64, v: bv64): bv64 { w | v }

  function And64(w: bv64, v: bv64): bv64 { w & v }

  function OrByte(a: Byte, b: Byte): Byte { a | b }

  function AndByte(a: Byte, b: Byte): Byte { a & b }

  lemma LaneXorRaw(w: bv64, v: bv64, i: nat)
    requires i < 8
    ensures Lane(w ^ v, i) == Xor(Lane(w, i), Lane(v, i))
  {
    if i == 0 {} else if i == 1 {} else if i == 2 {} else if i == 3 {}
    else if i == 4 {} else if i == 5 {} else if i == 6 {} else {}
  }

  lemma LaneOrRaw(w: bv64, v: bv64, i: nat)
    requires i < 8
    ensures Lane(w | v, i) == Lane(w, i) | Lane(v, i)
  {
    if i == 0 {} else if i == 1 {} else if i == 2 {} else if i == 3 {}
    else if i == 4 {} else if i == 5 {} else if i == 6 {} else {}
  }

  lemma LaneXor(w: bv64, v: bv64, i: nat)
    requires i < 8
    ensures Lane(Xor64(w, v), i) == Xor(Lane(w, i), Lane(v, i))
  {
    hide Lane, Xor;
    LaneXorRaw(w, v, i);
  }

  lemma LaneOr(w: bv64, v: bv64, i: nat)
    requires i < 8
    ensures Lane(Or64(w, v), i) == OrByte(Lane(w, i), Lane(v, i))
  {
    hide Lane;
    LaneOrRaw(w, v, i);
  }

  /** Complement as an exclusive or. */
  function Not64(w: bv64): bv64 { Xor64(w, 0xFFFFFFFFFFFFFFFF) }

  lemma DeMorgan(w: bv64, v: bv64, a: Byte, b: Byte)
    ensures And64(w, v) == Not64(Or64(Not64(w), Not64(v)))
    ensures AndByte(a, b) == Xor(OrByte(Xor(a, 0xFF), Xor(b, 0xFF)), 0xFF)
  {
  }

  lemma LaneOfOnes(i: nat)
    requires i < 8
    ensures Lane(0xFFFFFFFFFFFFFFFF, i) == 0xFF
  {
  }

  lemma LaneAnd(w: bv64, v: bv64, i: nat)
    requires i < 8
    ensures Lane(And64(w, v), i) == AndByte(Lane(w, i), Lane(v, i))
  {
    hide Lane, And64, Or64, Xor64, AndByte, OrByte, Xor;
    var p, q := Not64(w), Not64(v);
    DeMorgan(w, v, Lane(w, i), Lane(v, i));
    var ones: bv64 := 0xFFFFFFFFFFFFFFFF;
    LaneOfOnes(i);
    LaneXor(w, ones, i);
    LaneXor(v, ones, i);
    LaneOr(p, q, i);
    LaneXor(Or64(p, q), ones, i);
  }

  lemma LanesXor(w: bv64, v: bv64)
    ensures Lanes(Xor64(w, v)) == XorSeq(Lanes(w), Lanes(v))
  {
    hide Xor, Lane, Xor64, XorSeq;
    var x := Xor64(w, v);
    LaneXor(w, v, 0); LaneXor(w, v, 1); LaneXor(w, v, 2); LaneXor(w, v, 3);
    LaneXor(w, v, 4); LaneXor(w, v, 5); LaneXor(w, v, 6); LaneXor(w, v, 7);
    EightXor(Lanes(w), Lanes(v), Lanes(x));
  }

  lemma EightXor(a: seq<Byte>, b: seq<Byte>, c: seq<Byte>)
    requires |a| == |b| == |c| == 8
    requires c[0] == Xor(a[0], b[0]) && c[1] == Xor(a[1], b[1]) && c[2] == Xor(a[2], b[2]) && c[3] == Xor(a[3], b[3])
    requires c[4] == Xor(a[4], b[4]) && c[5] == Xor(a[5], b[5]) && c[6] == Xor(a[6], b[6]) && c[7] == Xor(a[7], b[7])
    ensures c == XorSeq(a, b)
  {
    hide Xor;
  }

  lemma LanesConstant()
    ensures Lanes(0) == Zeros(8)
  {
  }

  // ---- SWAR ----

  const CT_BCAST01: bv64 := 0x0101010101010101
  const CT_LO7: bv64 := 0x7F7F7F7F7F7F7F7F
  const CT_HI1: bv64 := 0x8080808080808080

  /** b in every lane. */
  function Broadcast(b: Byte): bv64 { CT_BCAST01 * (b as bv64) }

  lemma BroadcastLane(b: Byte, i: nat)
    requires i < 8
    ensures Lane(Broadcast(b), i) == b
  {
  }

  /** 0xFF in the lanes of d that are zero, 0 in the others, by one word computation. */
  function ZeroLanes(d: bv64): bv64
  {
    var m0 := !(((d & CT_LO7) + CT_LO7) | d) & CT_HI1;
    var m1 := m0 >> 7;
    var m2 := m1 | (m1 << 1);
    var m3 := m2 | (m2 << 2);
    m3 | (m3 << 4)
  }

  /** No carry crosses a lane. */
  lemma ZeroLanesExact(d: bv64, i: nat)
    requires i < 8
    ensures Lane(ZeroLanes(d), i) == if Lane(d, i) == 0 then 0xFF else 0
  {
    if i == 0 {} else if i == 1 {} else if i == 2 {} else if i == 3 {}
    else if i == 4 {} else if i == 5 {} else if i == 6 {} else {}
  }

  /** One index of the scan: the lanes of w equal to b receive v. */
  function ScanWord(w: bv64, acc: bv64, b: Byte, v: Byte): bv64
  {
    Or64(acc, And64(Broadcast(v), ZeroLanes(Xor64(w, Broadcast(b)))))
  }

  lemma ScanLane(w: bv64, acc: bv64, b: Byte, v: Byte, i: nat)
    requires i < 8
    ensures Lane(ScanWord(w, acc, b, v), i) == if Lane(w, i) == b then OrByte(Lane(acc, i), v) else Lane(acc, i)
  {
    hide Lane, Broadcast, ZeroLanes, Xor64, Or64, And64, Xor, OrByte, AndByte;
    var d := Xor64(w, Broadcast(b));
    var m := And64(Broadcast(v), ZeroLanes(d));
    BroadcastLane(b, i);
    BroadcastLane(v, i);
    LaneXor(w, Broadcast(b), i);
    ZeroLanesExact(d, i);
    LaneAnd(Broadcast(v), ZeroLanes(d), i);
    LaneOr(acc, m, i);
    KeepMatching(Lane(w, i), b, Lane(acc, i), v);
  }

  lemma KeepMatching(x: Byte, b: Byte, a: Byte, v: Byte)
    ensures OrByte(a, AndByte(v, if Xor(x, b) == 0 then 0xFF else 0)) == if x == b then OrByte(a, v) else a
  {
  }
}
