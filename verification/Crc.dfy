/** The two checksums of lib/crc.c and the second CRC-32 of cli/mfg.c. */
module Crc {
  import opened Gf2

  // ----- machine words as coefficient lists, most significant bit first

  function Mask8(i: nat): (m: bv8)
    requires i < 8
    ensures m != 0 && m & (m - 1) == 0
    ensures m == 0x80 <==> i == 0
    ensures m == 0x01 <==> i == 7
  {
    match i
    case 0 => 0x80 case 1 => 0x40 case 2 => 0x20 case 3 => 0x10
    case 4 => 0x08 case 5 => 0x04 case 6 => 0x02 case _ => 0x01
  }

  function Mask32(i: nat): (m: bv32)
    requires i < 32
    ensures m != 0 && m & (m - 1) == 0
    ensures i == 0 <==> m == 0x8000_0000
    ensures m == 0x0000_0001 <==> i == 31
    ensures i < 8 <==> m & 0xff00_0000 != 0
    ensures i < 8 ==> m == (Mask8(i) as bv32) << 24
  {
    match i
    case 0 => 0x80000000 case 1 => 0x40000000 case 2 => 0x20000000 case 3 => 0x10000000
    case 4 => 0x08000000 case 5 => 0x04000000 case 6 => 0x02000000 case 7 => 0x01000000
    case 8 => 0x00800000 case 9 => 0x00400000 case 10 => 0x00200000 case 11 => 0x00100000
    case 12 => 0x00080000 case 13 => 0x00040000 case 14 => 0x00020000 case 15 => 0x00010000
    case 16 => 0x00008000 case 17 => 0x00004000 case 18 => 0x00002000 case 19 => 0x00001000
    case 20 => 0x00000800 case 21 => 0x00000400 case 22 => 0x00000200 case 23 => 0x00000100
    case 24 => 0x00000080 case 25 => 0x00000040 case 26 => 0x00000020 case 27 => 0x00000010
    case 28 => 0x00000008 case 29 => 0x00000004 case 30 => 0x00000002 case _ => 0x00000001
  }

  lemma MasksShift(i: nat)
    requires 0 < i < 32
    ensures i < 8 ==> Mask8(i) == Mask8(i - 1) >> 1
    ensures Mask32(i) == Mask32(i - 1) >> 1
  {
  }

  predicate Test8(b: bv8, m: bv8) {
    b & m != 0
  }

  predicate Test32(r: bv32, m: bv32) {
    r & m != 0
  }

  /** Addition of polynomials held in machine words. */
  function Add8(a: bv8, b: bv8): bv8 {
    a ^ b
  }

  function Add32(a: bv32, b: bv32): bv32 {
    a ^ b
  }

  lemma Test8Algebra(a: bv8, b: bv8, m: bv8)
    requires m != 0 && m & (m - 1) == 0
    ensures Test8(a ^ b, m) == (Test8(a, m) != Test8(b, m))
    ensures Test8(a << 1, m) == Test8(a, m >> 1)
  {
  }

  lemma Test32Xor(a: bv32, b: bv32, m: bv32)
    requires m != 0 && m & (m - 1) == 0
    ensures Test32(a ^ b, m) == (Test32(a, m) != Test32(b, m))
  {
  }

  lemma Test32Shift(a: bv32, m: bv32)
    ensures Test32(a << 1, m) == Test32(a, m >> 1)
  {
  }

  function Bits8(b: bv8): (s: Bits)
    ensures |s| == 8
  {
    seq(8, i requires 0 <= i < 8 => Test8(b, Mask8(i)))
  }

  function Bits32(r: bv32): (s: Bits)
    ensures |s| == 32
  {
    seq(32, i requires 0 <= i < 32 => Test32(r, Mask32(i)))
  }

  function MessageBits(msg: seq<bv8>): (s: Bits)
    ensures |s| == 8 * |msg|
  {
    if msg == [] then [] else Bits8(msg[0]) + MessageBits(msg[1..])
  }

  lemma Bits8Injective(a: bv8, b: bv8)
    requires Bits8(a) == Bits8(b)
    ensures a == b
  {
    var s, t := Bits8(a), Bits8(b);
    assert s[0] == t[0] && s[1] == t[1] && s[2] == t[2] && s[3] == t[3];
    assert s[4] == t[4] && s[5] == t[5] && s[6] == t[6] && s[7] == t[7];
  }

  lemma NoBitsIsZero(x: bv32)
    requires forall i :: 0 <= i < 32 ==> !Bits32(x)[i]
    ensures x == 0
  {
    NoHighBits(x);
    NoLowBits(x);
    hide *;
    HalvesZero(x);
  }

  lemma HalvesZero(x: bv32)
    requires x & 0xffff_0000 == 0 && x & 0xffff == 0
    ensures x == 0
  {
  }

  lemma NoHighBits(x: bv32)
    requires forall i :: 0 <= i < 32 ==> !Bits32(x)[i]
    ensures x & 0xffff_0000 == 0
  {
    var s := Bits32(x);
    assert !s[0] && !s[1] && !s[2] && !s[3] && !s[4] && !s[5] && !s[6] && !s[7];
    assert !s[8] && !s[9] && !s[10] && !s[11] && !s[12] && !s[13] && !s[14] && !s[15];
  }

  lemma NoLowBits(x: bv32)
    requires forall i :: 0 <= i < 32 ==> !Bits32(x)[i]
    ensures x & 0xffff == 0
  {
    var s := Bits32(x);
    assert !s[16] && !s[17] && !s[18] && !s[19] && !s[20] && !s[21] && !s[22] && !s[23];
    assert !s[24] && !s[25] && !s[26] && !s[27] && !s[28] && !s[29] && !s[30] && !s[31];
  }

  lemma Bits32Injective(a: bv32, b: bv32)
    requires Bits32(a) == Bits32(b)
    ensures a == b
  {
    Bits32Xor(a, b);
    NoBitsIsZero(a ^ b);
  }

  lemma {:induction false} MessageBitsConcat(a: seq<bv8>, b: seq<bv8>)
    ensures MessageBits(a + b) == MessageBits(a) + MessageBits(b)
    decreases |a|
  {
    if a == [] {
      assert a + b == b;
    } else {
      assert (a + b)[1..] == a[1..] + b;
      MessageBitsConcat(a[1..], b);
    }
  }

  lemma {:induction false} MessageBitsInjective(a: seq<bv8>, b: seq<bv8>)
    requires |a| == |b| && MessageBits(a) == MessageBits(b)
    ensures a == b
    decreases |a|
  {
    if a != [] {
      assert MessageBits(a)[..8] == Bits8(a[0]) && MessageBits(b)[..8] == Bits8(b[0]);
      assert MessageBits(a)[8..] == MessageBits(a[1..]) && MessageBits(b)[8..] == MessageBits(b[1..]);
      Bits8Injective(a[0], b[0]);
      MessageBitsInjective(a[1..], b[1..]);
      assert a == [a[0]] + a[1..] && b == [b[0]] + b[1..];
    }
  }

  lemma Bits8Xor(a: bv8, b: bv8)
    ensures Bits8(a ^ b) == Xor(Bits8(a), Bits8(b))
  {
    forall i | 0 <= i < 8 ensures Bits8(a ^ b)[i] == Xor(Bits8(a), Bits8(b))[i] {
      Test8Algebra(a, b, Mask8(i));
    }
  }

  lemma Bits32Xor(a: bv32, b: bv32)
    ensures Bits32(a ^ b) == Xor(Bits32(a), Bits32(b))
  {
    forall i | 0 <= i < 32 ensures Bits32(a ^ b)[i] == Xor(Bits32(a), Bits32(b))[i] {
      Test32Xor(a, b, Mask32(i));
    }
  }

  lemma Bits8Add(a: bv8, b: bv8)
    ensures Bits8(Add8(a, b)) == Xor(Bits8(a), Bits8(b))
  {
    hide Bits8, Xor;
    Bits8Xor(a, b);
  }

  lemma Bits32Add(a: bv32, b: bv32)
    ensures Bits32(Add32(a, b)) == Xor(Bits32(a), Bits32(b))
  {
    hide Bits32, Xor;
    Bits32Xor(a, b);
  }

  lemma ShiftAt8(r: bv8, i: nat)
    requires i < 7
    ensures Test8(r << 1, Mask8(i)) == Test8(r, Mask8(i + 1))
  {
    MasksShift(i + 1);
    Test8Algebra(r, 0, Mask8(i));
  }

  lemma ShiftAt32(r: bv32, i: nat)
    requires i < 31
    ensures Test32(r << 1, Mask32(i)) == Test32(r, Mask32(i + 1))
  {
    MasksShift(i + 1);
    Test32Shift(r, Mask32(i));
  }

  lemma Bits8Shift(r: bv8)
    ensures Bits8(r << 1) == Bits8(r)[1..] + [false]
  {
    assert Mask8(7) == 1 && !Test8(r << 1, 1);
    var bits, shifted := Bits8(r), Bits8(r << 1);
    forall i | 0 <= i < 7 ensures shifted[i] == bits[i + 1] {
      ShiftAt8(r, i);
    }
  }

  lemma Bits32Shift(r: bv32)
    ensures Bits32(r << 1) == Bits32(r)[1..] + [false]
  {
    assert Mask32(31) == 1 && !Test32(r << 1, 1);
    var bits, shifted := Bits32(r), Bits32(r << 1);
    forall i | 0 <= i < 31 ensures shifted[i] == bits[i + 1] {
      ShiftAt32(r, i);
    }
  }

  // ----- the generators and their bitwise registers

  const POLY8: bv8 := 0x07
  const POLY32: bv32 := 0x04c11db7

  /** x^8 + x^2 + x + 1, that is 0x107. */
  function Generator8(): (g: Bits)
    ensures |g| == 9 && Generator(g)
    ensures forall i :: 0 <= i <= 8 ==> (g[i] <==> 8 - i in {8, 2, 1, 0})
  {
    [true] + Bits8(POLY8)
  }

  /** x^32+x^26+x^23+x^22+x^16+x^12+x^11+x^10+x^8+x^7+x^5+x^4+x^2+x^1+1 (section 3.2.9 of IEEE 802.3). */
  function Generator32(): (g: Bits)
    ensures |g| == 33 && Generator(g)
    ensures forall i :: 0 <= i <= 32 ==>
              (g[i] <==> 32 - i in {32, 26, 23, 22, 16, 12, 11, 10, 8, 7, 5, 4, 2, 1, 0})
  {
    [true] + Bits32(POLY32)
  }

  function Clock8(r: bv8, bit: bool): bv8 {
    var x := if bit then r ^ 0x80 else r;
    if x & 0x80 != 0 then (x << 1) ^ POLY8 else x << 1
  }

  function Clock32(r: bv32, bit: bool): bv32 {
    var x := if bit then r ^ 0x8000_0000 else r;
    if x & 0x8000_0000 != 0 then (x << 1) ^ POLY32 else x << 1
  }

  function Idle8(r: bv8): bv8 {
    Clock8(r, false)
  }

  function Idle32(r: bv32): bv32 {
    Clock32(r, false)
  }

  function EightIdle32(r: bv32): bv32 {
    Idle32(Idle32(Idle32(Idle32(Idle32(Idle32(Idle32(Idle32(r))))))))
  }

  /** A byte in the leading position of a word. */
  function Head(b: bv8): bv32 {
    (b as bv32) << 24
  }

  function Residue8(i: bv8): bv8 {
    Idle8(Idle8(Idle8(Idle8(Idle8(Idle8(Idle8(Idle8(i))))))))
  }

  function Residue32(i: bv8): bv32 {
    EightIdle32(Head(i))
  }

  function Crc8LutRow0(i: bv8): (r: bv8)
    requires 0x00 <= i <= 0x1f
    ensures r == Residue8(i)
  {
    match i
    case 0x00 => 0x00 case 0x01 => 0x07 case 0x02 => 0x0e case 0x03 => 0x09
    case 0x04 => 0x1c case 0x05 => 0x1b case 0x06 => 0x12 case 0x07 => 0x15
    case 0x08 => 0x38 case 0x09 => 0x3f case 0x0a => 0x36 case 0x0b => 0x31
    case 0x0c => 0x24 case 0x0d => 0x23 case 0x0e => 0x2a case 0x0f => 0x2d
    case 0x10 => 0x70 case 0x11 => 0x77 case 0x12 => 0x7e case 0x13 => 0x79
    case 0x14 => 0x6c case 0x15 => 0x6b case 0x16 => 0x62 case 0x17 => 0x65
    case 0x18 => 0x48 case 0x19 => 0x4f case 0x1a => 0x46 case 0x1b => 0x41
    case 0x1c => 0x54 case 0x1d => 0x53 case 0x1e => 0x5a case _ => 0x5d
  }

  function Crc8LutRow1(i: bv8): (r: bv8)
    requires 0x20 <= i <= 0x3f
    ensures r == Residue8(i)
  {
    match i
    case 0x20 => 0xe0 case 0x21 => 0xe7 case 0x22 => 0xee case 0x23 => 0xe9
    case 0x24 => 0xfc case 0x25 => 0xfb case 0x26 => 0xf2 case 0x27 => 0xf5
    case 0x28 => 0xd8 case 0x29 => 0xdf case 0x2a => 0xd6 case 0x2b => 0xd1
    case 0x2c => 0xc4 case 0x2d => 0xc3 case 0x2e => 0xca case 0x2f => 0xcd
    case 0x30 => 0x90 case 0x31 => 0x97 case 0x32 => 0x9e case 0x33 => 0x99
    case 0x34 => 0x8c case 0x35 => 0x8b case 0x36 => 0x82 case 0x37 => 0x85
    case 0x38 => 0xa8 case 0x39 => 0xaf case 0x3a => 0xa6 case 0x3b => 0xa1
    case 0x3c => 0xb4 case 0x3d => 0xb3 case 0x3e => 0xba case _ => 0xbd
  }

  function Crc8LutRow2(i: bv8): (r: bv8)
    requires 0x40 <= i <= 0x5f
    ensures r == Residue8(i)
  {
    match i
    case 0x40 => 0xc7 case 0x41 => 0xc0 case 0x42 => 0xc9 case 0x43 => 0xce
    case 0x44 => 0xdb case 0x45 => 0xdc case 0x46 => 0xd5 case 0x47 => 0xd2
    case 0x48 => 0xff case 0x49 => 0xf8 case 0x4a => 0xf1 case 0x4b => 0xf6
    case 0x4c => 0xe3 case 0x4d => 0xe4 case 0x4e => 0xed case 0x4f => 0xea
    case 0x50 => 0xb7 case 0x51 => 0xb0 case 0x52 => 0xb9 case 0x53 => 0xbe
    case 0x54 => 0xab case 0x55 => 0xac case 0x56 => 0xa5 case 0x57 => 0xa2
    case 0x58 => 0x8f case 0x59 => 0x88 case 0x5a => 0x81 case 0x5b => 0x86
    case 0x5c => 0x93 case 0x5d => 0x94 case 0x5e => 0x9d case _ => 0x9a
  }

  function Crc8LutRow3(i: bv8): (r: bv8)
    requires 0x60 <= i <= 0x7f
    ensures r == Residue8(i)
  {
    match i
    case 0x60 => 0x27 case 0x61 => 0x20 case 0x62 => 0x29 case 0x63 => 0x2e
    case 0x64 => 0x3b case 0x65 => 0x3c case 0x66 => 0x35 case 0x67 => 0x32
    case 0x68 => 0x1f case 0x69 => 0x18 case 0x6a => 0x11 case 0x6b => 0x16
    case 0x6c => 0x03 case 0x6d => 0x04 case 0x6e => 0x0d case 0x6f => 0x0a
    case 0x70 => 0x57 case 0x71 => 0x50 case 0x72 => 0x59 case 0x73 => 0x5e
    case 0x74 => 0x4b case 0x75 => 0x4c case 0x76 => 0x45 case 0x77 => 0x42
    case 0x78 => 0x6f case 0x79 => 0x68 case 0x7a => 0x61 case 0x7b => 0x66
    case 0x7c => 0x73 case 0x7d => 0x74 case 0x7e => 0x7d case _ => 0x7a
  }

  function Crc8LutRow4(i: bv8): (r: bv8)
    requires 0x80 <= i <= 0x9f
    ensures r == Residue8(i)
  {
    match i
    case 0x80 => 0x89 case 0x81 => 0x8e case 0x82 => 0x87 case 0x83 => 0x80
    case 0x84 => 0x95 case 0x85 => 0x92 case 0x86 => 0x9b case 0x87 => 0x9c
    case 0x88 => 0xb1 case 0x89 => 0xb6 case 0x8a => 0xbf case 0x8b => 0xb8
    case 0x8c => 0xad case 0x8d => 0xaa case 0x8e => 0xa3 case 0x8f => 0xa4
    case 0x90 => 0xf9 case 0x91 => 0xfe case 0x92 => 0xf7 case 0x93 => 0xf0
    case 0x94 => 0xe5 case 0x95 => 0xe2 case 0x96 => 0xeb case 0x97 => 0xec
    case 0x98 => 0xc1 case 0x99 => 0xc6 case 0x9a => 0xcf case 0x9b => 0xc8
    case 0x9c => 0xdd case 0x9d => 0xda case 0x9e => 0xd3 case _ => 0xd4
  }

  function Crc8LutRow5(i: bv8): (r: bv8)
    requires 0xa0 <= i <= 0xbf
    ensures r == Residue8(i)
  {
    match i
    case 0xa0 => 0x69 case 0xa1 => 0x6e case 0xa2 => 0x67 case 0xa3 => 0x60
    case 0xa4 => 0x75 case 0xa5 => 0x72 case 0xa6 => 0x7b case 0xa7 => 0x7c
    case 0xa8 => 0x51 case 0xa9 => 0x56 case 0xaa => 0x5f case 0xab => 0x58
    case 0xac => 0x4d case 0xad => 0x4a case 0xae => 0x43 case 0xaf => 0x44
    case 0xb0 => 0x19 case 0xb1 => 0x1e case 0xb2 => 0x17 case 0xb3 => 0x10
    case 0xb4 => 0x05 case 0xb5 => 0x02 case 0xb6 => 0x0b case 0xb7 => 0x0c
    case 0xb8 => 0x21 case 0xb9 => 0x26 case 0xba => 0x2f case 0xbb => 0x28
    case 0xbc => 0x3d case 0xbd => 0x3a case 0xbe => 0x33 case _ => 0x34
  }

  function Crc8LutRow6(i: bv8): (r: bv8)
    requires 0xc0 <= i <= 0xdf
    ensures r == Residue8(i)
  {
    match i
    case 0xc0 => 0x4e case 0xc1 => 0x49 case 0xc2 => 0x40 case 0xc3 => 0x47
    case 0xc4 => 0x52 case 0xc5 => 0x55 case 0xc6 => 0x5c case 0xc7 => 0x5b
    case 0xc8 => 0x76 case 0xc9 => 0x71 case 0xca => 0x78 case 0xcb => 0x7f
    case 0xcc => 0x6a case 0xcd => 0x6d case 0xce => 0x64 case 0xcf => 0x63
    case 0xd0 => 0x3e case 0xd1 => 0x39 case 0xd2 => 0x30 case 0xd3 => 0x37
    case 0xd4 => 0x22 case 0xd5 => 0x25 case 0xd6 => 0x2c case 0xd7 => 0x2b
    case 0xd8 => 0x06 case 0xd9 => 0x01 case 0xda => 0x08 case 0xdb => 0x0f
    case 0xdc => 0x1a case 0xdd => 0x1d case 0xde => 0x14 case _ => 0x13
  }

  function Crc8LutRow7(i: bv8): (r: bv8)
    requires 0xe0 <= i <= 0xff
    ensures r == Residue8(i)
  {
    match i
    case 0xe0 => 0xae case 0xe1 => 0xa9 case 0xe2 => 0xa0 case 0xe3 => 0xa7
    case 0xe4 => 0xb2 case 0xe5 => 0xb5 case 0xe6 => 0xbc case 0xe7 => 0xbb
    case 0xe8 => 0x96 case 0xe9 => 0x91 case 0xea => 0x98 case 0xeb => 0x9f
    case 0xec => 0x8a case 0xed => 0x8d case 0xee => 0x84 case 0xef => 0x83
    case 0xf0 => 0xde case 0xf1 => 0xd9 case 0xf2 => 0xd0 case 0xf3 => 0xd7
    case 0xf4 => 0xc2 case 0xf5 => 0xc5 case 0xf6 => 0xcc case 0xf7 => 0xcb
    case 0xf8 => 0xe6 case 0xf9 => 0xe1 case 0xfa => 0xe8 case 0xfb => 0xef
    case 0xfc => 0xfa case 0xfd => 0xfd case 0xfe => 0xf4 case _ => 0xf3
  }

  /** The lookup table crc8_0107_lut: every entry is the remainder of its index times x^8. */
  function Crc8Lut(i: bv8): (r: bv8)
    ensures r == Residue8(i)
  {
    if i < 0x20 then Crc8LutRow0(i) else if i < 0x40 then Crc8LutRow1(i)
    else if i < 0x60 then Crc8LutRow2(i) else if i < 0x80 then Crc8LutRow3(i)
    else if i < 0xa0 then Crc8LutRow4(i) else if i < 0xc0 then Crc8LutRow5(i)
    else if i < 0xe0 then Crc8LutRow6(i) else Crc8LutRow7(i)
  }

  function Crc32LutRow0(i: bv8): (r: bv32)
    requires 0x00 <= i <= 0x1f
    ensures r == Residue32(i)
  {
    match i
    case 0x00 => 0x00000000 case 0x01 => 0x04c11db7 case 0x02 => 0x09823b6e case 0x03 => 0x0d4326d9
    case 0x04 => 0x130476dc case 0x05 => 0x17c56b6b case 0x06 => 0x1a864db2 case 0x07 => 0x1e475005
    case 0x08 => 0x2608edb8 case 0x09 => 0x22c9f00f case 0x0a => 0x2f8ad6d6 case 0x0b => 0x2b4bcb61
    case 0x0c => 0x350c9b64 case 0x0d => 0x31cd86d3 case 0x0e => 0x3c8ea00a case 0x0f => 0x384fbdbd
    case 0x10 => 0x4c11db70 case 0x11 => 0x48d0c6c7 case 0x12 => 0x4593e01e case 0x13 => 0x4152fda9
    case 0x14 => 0x5f15adac case 0x15 => 0x5bd4b01b case 0x16 => 0x569796c2 case 0x17 => 0x52568b75
    case 0x18 => 0x6a1936c8 case 0x19 => 0x6ed82b7f case 0x1a => 0x639b0da6 case 0x1b => 0x675a1011
    case 0x1c => 0x791d4014 case 0x1d => 0x7ddc5da3 case 0x1e => 0x709f7b7a case _ => 0x745e66cd
  }

  function Crc32LutRow1(i: bv8): (r: bv32)
    requires 0x20 <= i <= 0x3f
    ensures r == Residue32(i)
  {
    match i
    case 0x20 => 0x9823b6e0 case 0x21 => 0x9ce2ab57 case 0x22 => 0x91a18d8e case 0x23 => 0x95609039
    case 0x24 => 0x8b27c03c case 0x25 => 0x8fe6dd8b case 0x26 => 0x82a5fb52 case 0x27 => 0x8664e6e5
    case 0x28 => 0xbe2b5b58 case 0x29 => 0xbaea46ef case 0x2a => 0xb7a96036 case 0x2b => 0xb3687d81
    case 0x2c => 0xad2f2d84 case 0x2d => 0xa9ee3033 case 0x2e => 0xa4ad16ea case 0x2f => 0xa06c0b5d
    case 0x30 => 0xd4326d90 case 0x31 => 0xd0f37027 case 0x32 => 0xddb056fe case 0x33 => 0xd9714b49
    case 0x34 => 0xc7361b4c case 0x35 => 0xc3f706fb case 0x36 => 0xceb42022 case 0x37 => 0xca753d95
    case 0x38 => 0xf23a8028 case 0x39 => 0xf6fb9d9f case 0x3a => 0xfbb8bb46 case 0x3b => 0xff79a6f1
    case 0x3c => 0xe13ef6f4 case 0x3d => 0xe5ffeb43 case 0x3e => 0xe8bccd9a case _ => 0xec7dd02d
  }

  function Crc32LutRow2(i: bv8): (r: bv32)
    requires 0x40 <= i <= 0x5f
    ensures r == Residue32(i)
  {
    match i
    case 0x40 => 0x34867077 case 0x41 => 0x30476dc0 case 0x42 => 0x3d044b19 case 0x43 => 0x39c556ae
    case 0x44 => 0x278206ab case 0x45 => 0x23431b1c case 0x46 => 0x2e003dc5 case 0x47 => 0x2ac12072
    case 0x48 => 0x128e9dcf case 0x49 => 0x164f8078 case 0x4a => 0x1b0ca6a1 case 0x4b => 0x1fcdbb16
    case 0x4c => 0x018aeb13 case 0x4d => 0x054bf6a4 case 0x4e => 0x0808d07d case 0x4f => 0x0cc9cdca
    case 0x50 => 0x7897ab07 case 0x51 => 0x7c56b6b0 case 0x52 => 0x71159069 case 0x53 => 0x75d48dde
    case 0x54 => 0x6b93dddb case 0x55 => 0x6f52c06c case 0x56 => 0x6211e6b5 case 0x57 => 0x66d0fb02
    case 0x58 => 0x5e9f46bf case 0x59 => 0x5a5e5b08 case 0x5a => 0x571d7dd1 case 0x5b => 0x53dc6066
    case 0x5c => 0x4d9b3063 case 0x5d => 0x495a2dd4 case 0x5e => 0x44190b0d case _ => 0x40d816ba
  }

  function Crc32LutRow3(i: bv8): (r: bv32)
    requires 0x60 <= i <= 0x7f
    ensures r == Residue32(i)
  {
    match i
    case 0x60 => 0xaca5c697 case 0x61 => 0xa864db20 case 0x62 => 0xa527fdf9 case 0x63 => 0xa1e6e04e
    case 0x64 => 0xbfa1b04b case 0x65 => 0xbb60adfc case 0x66 => 0xb6238b25 case 0x67 => 0xb2e29692
    case 0x68 => 0x8aad2b2f case 0x69 => 0x8e6c3698 case 0x6a => 0x832f1041 case 0x6b => 0x87ee0df6
    case 0x6c => 0x99a95df3 case 0x6d => 0x9d684044 case 0x6e => 0x902b669d case 0x6f => 0x94ea7b2a
    case 0x70 => 0xe0b41de7 case 0x71 => 0xe4750050 case 0x72 => 0xe9362689 case 0x73 => 0xedf73b3e
    case 0x74 => 0xf3b06b3b case 0x75 => 0xf771768c case 0x76 => 0xfa325055 case 0x77 => 0xfef34de2
    case 0x78 => 0xc6bcf05f case 0x79 => 0xc27dede8 case 0x7a => 0xcf3ecb31 case 0x7b => 0xcbffd686
    case 0x7c => 0xd5b88683 case 0x7d => 0xd1799b34 case 0x7e => 0xdc3abded case _ => 0xd8fba05a
  }

  function Crc32LutRow4(i: bv8): (r: bv32)
    requires 0x80 <= i <= 0x9f
    ensures r == Residue32(i)
  {
    match i
    case 0x80 => 0x690ce0ee case 0x81 => 0x6dcdfd59 case 0x82 => 0x608edb80 case 0x83 => 0x644fc637
    case 0x84 => 0x7a089632 case 0x85 => 0x7ec98b85 case 0x86 => 0x738aad5c case 0x87 => 0x774bb0eb
    case 0x88 => 0x4f040d56 case 0x89 => 0x4bc510e1 case 0x8a => 0x46863638 case 0x8b => 0x42472b8f
    case 0x8c => 0x5c007b8a case 0x8d => 0x58c1663d case 0x8e => 0x558240e4 case 0x8f => 0x51435d53
    case 0x90 => 0x251d3b9e case 0x91 => 0x21dc2629 case 0x92 => 0x2c9f00f0 case 0x93 => 0x285e1d47
    case 0x94 => 0x36194d42 case 0x95 => 0x32d850f5 case 0x96 => 0x3f9b762c case 0x97 => 0x3b5a6b9b
    case 0x98 => 0x0315d626 case 0x99 => 0x07d4cb91 case 0x9a => 0x0a97ed48 case 0x9b => 0x0e56f0ff
    case 0x9c => 0x1011a0fa case 0x9d => 0x14d0bd4d case 0x9e => 0x19939b94 case _ => 0x1d528623
  }

  function Crc32LutRow5(i: bv8): (r: bv32)
    requires 0xa0 <= i <= 0xbf
    ensures r == Residue32(i)
  {
    match i
    case 0xa0 => 0xf12f560e case 0xa1 => 0xf5ee4bb9 case 0xa2 => 0xf8ad6d60 case 0xa3 => 0xfc6c70d7
    case 0xa4 => 0xe22b20d2 case 0xa5 => 0xe6ea3d65 case 0xa6 => 0xeba91bbc case 0xa7 => 0xef68060b
    case 0xa8 => 0xd727bbb6 case 0xa9 => 0xd3e6a601 case 0xaa => 0xdea580d8 case 0xab => 0xda649d6f
    case 0xac => 0xc423cd6a case 0xad => 0xc0e2d0dd case 0xae => 0xcda1f604 case 0xaf => 0xc960ebb3
    case 0xb0 => 0xbd3e8d7e case 0xb1 => 0xb9ff90c9 case 0xb2 => 0xb4bcb610 case 0xb3 => 0xb07daba7
    case 0xb4 => 0xae3afba2 case 0xb5 => 0xaafbe615 case 0xb6 => 0xa7b8c0cc case 0xb7 => 0xa379dd7b
    case 0xb8 => 0x9b3660c6 case 0xb9 => 0x9ff77d71 case 0xba => 0x92b45ba8 case 0xbb => 0x9675461f
    case 0xbc => 0x8832161a case 0xbd => 0x8cf30bad case 0xbe => 0x81b02d74 case _ => 0x857130c3
  }

  function Crc32LutRow6(i: bv8): (r: bv32)
    requires 0xc0 <= i <= 0xdf
    ensures r == Residue32(i)
  {
    match i
    case 0xc0 => 0x5d8a9099 case 0xc1 => 0x594b8d2e case 0xc2 => 0x5408abf7 case 0xc3 => 0x50c9b640
    case 0xc4 => 0x4e8ee645 case 0xc5 => 0x4a4ffbf2 case 0xc6 => 0x470cdd2b case 0xc7 => 0x43cdc09c
    case 0xc8 => 0x7b827d21 case 0xc9 => 0x7f436096 case 0xca => 0x7200464f case 0xcb => 0x76c15bf8
    case 0xcc => 0x68860bfd case 0xcd => 0x6c47164a case 0xce => 0x61043093 case 0xcf => 0x65c52d24
    case 0xd0 => 0x119b4be9 case 0xd1 => 0x155a565e case 0xd2 => 0x18197087 case 0xd3 => 0x1cd86d30
    case 0xd4 => 0x029f3d35 case 0xd5 => 0x065e2082 case 0xd6 => 0x0b1d065b case 0xd7 => 0x0fdc1bec
    case 0xd8 => 0x3793a651 case 0xd9 => 0x3352bbe6 case 0xda => 0x3e119d3f case 0xdb => 0x3ad08088
    case 0xdc => 0x2497d08d case 0xdd => 0x2056cd3a case 0xde => 0x2d15ebe3 case _ => 0x29d4f654
  }

  function Crc32LutRow7(i: bv8): (r: bv32)
    requires 0xe0 <= i <= 0xff
    ensures r == Residue32(i)
  {
    match i
    case 0xe0 => 0xc5a92679 case 0xe1 => 0xc1683bce case 0xe2 => 0xcc2b1d17 case 0xe3 => 0xc8ea00a0
    case 0xe4 => 0xd6ad50a5 case 0xe5 => 0xd26c4d12 case 0xe6 => 0xdf2f6bcb case 0xe7 => 0xdbee767c
    case 0xe8 => 0xe3a1cbc1 case 0xe9 => 0xe760d676 case 0xea => 0xea23f0af case 0xeb => 0xeee2ed18
    case 0xec => 0xf0a5bd1d case 0xed => 0xf464a0aa case 0xee => 0xf9278673 case 0xef => 0xfde69bc4
    case 0xf0 => 0x89b8fd09 case 0xf1 => 0x8d79e0be case 0xf2 => 0x803ac667 case 0xf3 => 0x84fbdbd0
    case 0xf4 => 0x9abc8bd5 case 0xf5 => 0x9e7d9662 case 0xf6 => 0x933eb0bb case 0xf7 => 0x97ffad0c
    case 0xf8 => 0xafb010b1 case 0xf9 => 0xab710d06 case 0xfa => 0xa6322bdf case 0xfb => 0xa2f33668
    case 0xfc => 0xbcb4666d case 0xfd => 0xb8757bda case 0xfe => 0xb5365d03 case _ => 0xb1f740b4
  }

  /** The lookup table crc32_lut: every entry is the remainder of its index times x^32. */
  function Crc32Lut(i: bv8): (r: bv32)
    ensures r == Residue32(i)
  {
    if i < 0x20 then Crc32LutRow0(i) else if i < 0x40 then Crc32LutRow1(i)
    else if i < 0x60 then Crc32LutRow2(i) else if i < 0x80 then Crc32LutRow3(i)
    else if i < 0xa0 then Crc32LutRow4(i) else if i < 0xc0 then Crc32LutRow5(i)
    else if i < 0xe0 then Crc32LutRow6(i) else Crc32LutRow7(i)
  }

  // ----- one byte through the table is eight clocks of the register

  /** One turn of the loop of crc8. */
  function Step8(r: bv8, b: bv8): bv8 {
    Crc8Lut(r ^ b)
  }

  /** One turn of the loop of crc32. */
  function Step32(r: bv32, b: bv8): bv32 {
    var byte := ((r >> 24) as bv8) ^ b;
    Crc32Lut(byte) ^ (r << 8)
  }

  lemma AddNothing8(r: bv8)
    ensures Add8(r, 0) == r
  {
  }

  lemma ClockIdle8(r: bv8)
    ensures Clock8(r, false) == if Test8(r, 0x80) then Add8(r << 1, POLY8) else r << 1
  {
  }

  lemma ClockOne8(r: bv8)
    ensures Clock8(r, true) == Clock8(r ^ 0x80, false)
  {
  }

  lemma FlipTop8(r: bv8, x: bv8)
    requires x == r ^ 0x80
    ensures x << 1 == r << 1 && Test8(x, 0x80) == !Test8(r, 0x80)
  {
  }

  /** A clock is a shift and, when a 1 falls out, an addition of the polynomial. */
  lemma Clock8Parts(r: bv8, bit: bool)
    ensures Clock8(r, bit) == Add8(r << 1, if Test8(r, 0x80) != bit then POLY8 else 0)
  {
    hide *;
    AddNothing8(r << 1);
    ClockIdle8(r);
    ClockOne8(r);
    FlipTop8(r, r ^ 0x80);
    ClockIdle8(r ^ 0x80);
  }

  lemma Bits8Known(r: bv8)
    ensures Bits8(r)[0] == Test8(r, 0x80) && Bits8(0) == Zeros(8)
    ensures Generator8()[1..] == Bits8(POLY8)
  {
  }

  lemma Clock8Refines(r: bv8, bit: bool)
    ensures Bits8(Clock8(r, bit)) == Clock(Bits8(r), bit, Generator8())
  {
    hide Clock8, Test8, Bits8, Generator8, Xor, Zeros, Add8;
    var top := Test8(r, 0x80) != bit;
    var taken := if top then POLY8 else 0;
    Clock8Parts(r, bit);
    Bits8Known(r);
    Bits8Shift(r);
    Bits8Add(r << 1, taken);
    assert Scale(top, Generator8())[1..] == Bits8(taken);
  }

  lemma AddNothing32(r: bv32)
    ensures Add32(r, 0) == r
  {
  }

  lemma ClockIdle32(r: bv32)
    ensures Clock32(r, false) == if Test32(r, 0x8000_0000) then Add32(r << 1, POLY32) else r << 1
  {
  }

  lemma ClockOne32(r: bv32)
    ensures Clock32(r, true) == Clock32(r ^ 0x8000_0000, false)
  {
  }

  lemma FlipTop32(r: bv32, x: bv32)
    requires x == r ^ 0x8000_0000
    ensures x << 1 == r << 1 && Test32(x, 0x8000_0000) == !Test32(r, 0x8000_0000)
  {
  }

  /** A clock is a shift and, when a 1 falls out, an addition of the polynomial. */
  lemma Clock32Parts(r: bv32, bit: bool)
    ensures Clock32(r, bit) == Add32(r << 1, if Test32(r, 0x8000_0000) != bit then POLY32 else 0)
  {
    hide *;
    AddNothing32(r << 1);
    ClockIdle32(r);
    ClockOne32(r);
    FlipTop32(r, r ^ 0x8000_0000);
    ClockIdle32(r ^ 0x8000_0000);
  }

  lemma Bits32Known(r: bv32)
    ensures Bits32(r)[0] == Test32(r, 0x8000_0000) && Bits32(0) == Zeros(32)
    ensures Generator32()[1..] == Bits32(POLY32)
  {
  }

  lemma Clock32Refines(r: bv32, bit: bool)
    ensures Bits32(Clock32(r, bit)) == Clock(Bits32(r), bit, Generator32())
  {
    hide Clock32, Test32, Bits32, Generator32, Xor, Zeros, Add32;
    var top := Test32(r, 0x8000_0000) != bit;
    var taken := if top then POLY32 else 0;
    Clock32Parts(r, bit);
    Bits32Known(r);
    Bits32Shift(r);
    Bits32Add(r << 1, taken);
    assert Scale(top, Generator32())[1..] == Bits32(taken);
  }

  lemma FeedNothing(reg: Bits, g: Bits)
    requires Generator(g) && |reg| == |g| - 1
    ensures Feed(reg, Zeros(0), g) == reg
  {
  }

  lemma IdleOnce8(r: bv8, n: nat)
    ensures Feed(Bits8(r), Zeros(n + 1), Generator8()) == Feed(Bits8(Idle8(r)), Zeros(n), Generator8())
  {
    var z := Zeros(n + 1);
    assert !z[0] && z[1..] == Zeros(n);
    Clock8Refines(r, false);
  }

  lemma IdleOnce32(r: bv32, n: nat)
    ensures Feed(Bits32(r), Zeros(n + 1), Generator32()) == Feed(Bits32(Idle32(r)), Zeros(n), Generator32())
  {
    var z := Zeros(n + 1);
    assert !z[0] && z[1..] == Zeros(n);
    Clock32Refines(r, false);
  }

  lemma IdleFourTimes8(r: bv8, n: nat)
    ensures Feed(Bits8(r), Zeros(n + 4), Generator8()) ==
            Feed(Bits8(Idle8(Idle8(Idle8(Idle8(r))))), Zeros(n), Generator8())
  {
    IdleOnce8(r, n + 3);
    IdleOnce8(Idle8(r), n + 2);
    IdleOnce8(Idle8(Idle8(r)), n + 1);
    IdleOnce8(Idle8(Idle8(Idle8(r))), n);
  }

  lemma ResidueDivides8(r: bv8)
    ensures Bits8(Residue8(r)) == Feed(Bits8(r), Zeros(8), Generator8())
  {
    hide Idle8, Bits8, Generator8, Feed;
    IdleFourTimes8(r, 4);
    IdleFourTimes8(Idle8(Idle8(Idle8(Idle8(r)))), 0);
    FeedNothing(Bits8(Residue8(r)), Generator8());
  }

  lemma IdleFourTimes32(r: bv32, n: nat)
    ensures Feed(Bits32(r), Zeros(n + 4), Generator32()) ==
            Feed(Bits32(Idle32(Idle32(Idle32(Idle32(r))))), Zeros(n), Generator32())
  {
    IdleOnce32(r, n + 3);
    IdleOnce32(Idle32(r), n + 2);
    IdleOnce32(Idle32(Idle32(r)), n + 1);
    IdleOnce32(Idle32(Idle32(Idle32(r))), n);
  }

  lemma ResidueDivides32(r: bv32)
    ensures Bits32(EightIdle32(r)) == Feed(Bits32(r), Zeros(8), Generator32())
  {
    hide Idle32, Bits32, Generator32, Feed;
    IdleFourTimes32(r, 4);
    IdleFourTimes32(Idle32(Idle32(Idle32(Idle32(r)))), 0);
    FeedNothing(Bits32(EightIdle32(r)), Generator32());
  }

  lemma HeadBits(b: bv8)
    ensures Bits32(Head(b)) == Bits8(b) + Zeros(24)
  {
    var s, t := Bits32(Head(b)), Bits8(b) + Zeros(24);
    forall i | 0 <= i < 32 ensures s[i] == t[i] {
      HeadTest(b, i);
    }
  }

  lemma HeadTest(b: bv8, i: nat)
    requires i < 32
    ensures Test32(Head(b), Mask32(i)) == (i < 8 && Test8(b, Mask8(i)))
  {
    if i < 8 {
      HeadMask(b, Mask8(i));
    } else {
      LowMask(b, Mask32(i));
    }
  }

  lemma HeadMask(b: bv8, m: bv8)
    ensures Test32((b as bv32) << 24, (m as bv32) << 24) == Test8(b, m)
  {
  }

  lemma LowMask(b: bv8, m: bv32)
    requires m & 0xff00_0000 == 0
    ensures !Test32((b as bv32) << 24, m)
  {
  }

  lemma LowBytesShift(r: bv32)
    ensures EightIdle32(r & 0x00ff_ffff) == r << 8
  {
  }

  lemma SplitTopByte(r: bv32, b: bv8)
    ensures Add32(Head(((r >> 24) as bv8) ^ b), r & 0x00ff_ffff) == Add32(r, Head(b))
  {
  }

  lemma StepParts(r: bv32, b: bv8)
    ensures Step32(r, b) == Add32(Residue32(((r >> 24) as bv8) ^ b), r << 8)
  {
    hide Residue32, Crc32Lut;
  }

  /** A step idles the leading byte through the table and the low bytes by
      shifting; together they held the register with the message byte added at its head. */
  lemma SplitStep(r: bv32, b: bv8) returns (high: bv32, low: bv32)
    ensures Step32(r, b) == Add32(EightIdle32(high), EightIdle32(low))
    ensures Add32(high, low) == Add32(r, Head(b))
  {
    hide Step32, EightIdle32, Add32, Head;
    high, low := Head(((r >> 24) as bv8) ^ b), r & 0x00ff_ffff;
    StepParts(r, b);
    LowBytesShift(r);
    SplitTopByte(r, b);
  }

  lemma Step8Parts(r: bv8, b: bv8)
    ensures Step8(r, b) == Residue8(Add8(r, b))
  {
    hide Residue8, Crc8Lut;
  }

  /** One byte through the table divides by the generator eight bits further. */
  lemma Step8Divides(r: bv8, b: bv8)
    ensures Bits8(Step8(r, b)) == Feed(Bits8(r), Bits8(b), Generator8())
  {
    hide *;
    Step8Parts(r, b);
    ResidueDivides8(Add8(r, b));
    Bits8Add(r, b);
    assert Bits8(b) + Zeros(0) == Bits8(b);
    FeedEarly(Bits8(r), Bits8(b), Generator8());
  }

  /** Eight idle clocks applied to two halves of a register and added. */
  lemma IdleSum(a: bv32, b: bv32)
    ensures Bits32(Add32(EightIdle32(a), EightIdle32(b))) ==
            Feed(Bits32(Add32(a, b)), Zeros(8), Generator32())
  {
    hide *;
    Bits32Add(EightIdle32(a), EightIdle32(b));
    ResidueDivides32(a);
    ResidueDivides32(b);
    XorSelf(Zeros(8), 8);
    FeedLinear(Bits32(a), Bits32(b), Zeros(8), Zeros(8), Generator32());
    Bits32Add(a, b);
  }

  lemma XorSelf(z: Bits, n: nat)
    requires z == Zeros(n)
    ensures Xor(z, z) == z
  {
  }

  lemma HeadByteDivides(r: bv32, b: bv8)
    ensures Feed(Bits32(Add32(r, Head(b))), Zeros(8), Generator32()) ==
            Feed(Bits32(r), Bits8(b), Generator32())
  {
    hide *;
    HeadBits(b);
    Bits32Add(r, Head(b));
    FeedEarly(Bits32(r), Bits8(b), Generator32());
  }

  lemma Step32Divides(r: bv32, b: bv8)
    ensures Bits32(Step32(r, b)) == Feed(Bits32(r), Bits8(b), Generator32())
  {
    hide *;
    var high, low := SplitStep(r, b);
    IdleSum(high, low);
    HeadByteDivides(r, b);
  }

  // ----- whole messages

  /** The register after the table loop has run over `msg`. */
  function Run8(r: bv8, msg: seq<bv8>): bv8
    decreases |msg|
  {
    if msg == [] then r else Run8(Step8(r, msg[0]), msg[1..])
  }

  function Run32(r: bv32, msg: seq<bv8>): bv32
    decreases |msg|
  {
    if msg == [] then r else Run32(Step32(r, msg[0]), msg[1..])
  }

  lemma {:induction false} Run8Append(r: bv8, a: seq<bv8>, b: seq<bv8>)
    ensures Run8(r, a + b) == Run8(Run8(r, a), b)
    decreases |a|
  {
    if a == [] {
      assert a + b == b;
    } else {
      assert (a + b)[1..] == a[1..] + b;
      Run8Append(Step8(r, a[0]), a[1..], b);
    }
  }

  lemma {:induction false} Run32Append(r: bv32, a: seq<bv8>, b: seq<bv8>)
    ensures Run32(r, a + b) == Run32(Run32(r, a), b)
    decreases |a|
  {
    if a == [] {
      assert a + b == b;
    } else {
      assert (a + b)[1..] == a[1..] + b;
      Run32Append(Step32(r, a[0]), a[1..], b);
    }
  }

  lemma Run8Next(r: bv8, msg: seq<bv8>, n: nat)
    requires n < |msg|
    ensures Run8(r, msg[..n + 1]) == Step8(Run8(r, msg[..n]), msg[n])
  {
    assert msg[..n + 1] == msg[..n] + [msg[n]];
    Run8Append(r, msg[..n], [msg[n]]);
  }

  lemma Run32Next(r: bv32, msg: seq<bv8>, n: nat)
    requires n < |msg|
    ensures Run32(r, msg[..n + 1]) == Step32(Run32(r, msg[..n]), msg[n])
  {
    assert msg[..n + 1] == msg[..n] + [msg[n]];
    Run32Append(r, msg[..n], [msg[n]]);
  }

  lemma {:induction false} Run8Feeds(r: bv8, msg: seq<bv8>)
    ensures Bits8(Run8(r, msg)) == Feed(Bits8(r), MessageBits(msg), Generator8())
    decreases |msg|
  {
    if msg != [] {
      Step8Divides(r, msg[0]);
      FeedConcat(Bits8(r), Bits8(msg[0]), MessageBits(msg[1..]), Generator8());
      Run8Feeds(Step8(r, msg[0]), msg[1..]);
    }
  }

  lemma {:induction false} Run32Feeds(r: bv32, msg: seq<bv8>)
    ensures Bits32(Run32(r, msg)) == Feed(Bits32(r), MessageBits(msg), Generator32())
    decreases |msg|
  {
    if msg != [] {
      Step32Divides(r, msg[0]);
      FeedConcat(Bits32(r), Bits8(msg[0]), MessageBits(msg[1..]), Generator32());
      Run32Feeds(Step32(r, msg[0]), msg[1..]);
    }
  }

  /** The table loop leaves the remainder of polynomial long division, for every
      message and every starting register, and no other remainder is possible. */
  lemma Run8IsRemainder(r: bv8, msg: seq<bv8>) returns (q: Bits)
    ensures DividesTo(Dividend(Bits8(r), MessageBits(msg)), Generator8(), q, Bits8(Run8(r, msg)))
    ensures forall q': Bits, s: bv8 ::
              DividesTo(Dividend(Bits8(r), MessageBits(msg)), Generator8(), q', Bits8(s)) ==> s == Run8(r, msg)
  {
    Run8Feeds(r, msg);
    q := FeedDivides(Bits8(r), MessageBits(msg), Generator8());
    forall q': Bits, s: bv8
      | DividesTo(Dividend(Bits8(r), MessageBits(msg)), Generator8(), q', Bits8(s))
      ensures s == Run8(r, msg)
    {
      FeedIsTheRemainder(Bits8(r), MessageBits(msg), Generator8(), q', Bits8(s));
      Bits8Injective(s, Run8(r, msg));
    }
  }

  lemma Run32IsRemainder(r: bv32, msg: seq<bv8>) returns (q: Bits)
    ensures DividesTo(Dividend(Bits32(r), MessageBits(msg)), Generator32(), q, Bits32(Run32(r, msg)))
    ensures forall q': Bits, s: bv32 ::
              DividesTo(Dividend(Bits32(r), MessageBits(msg)), Generator32(), q', Bits32(s)) ==> s == Run32(r, msg)
  {
    Run32Feeds(r, msg);
    q := FeedDivides(Bits32(r), MessageBits(msg), Generator32());
    forall q': Bits, s: bv32
      | DividesTo(Dividend(Bits32(r), MessageBits(msg)), Generator32(), q', Bits32(s))
      ensures s == Run32(r, msg)
    {
      FeedIsTheRemainder(Bits32(r), MessageBits(msg), Generator32(), q', Bits32(s));
      Bits32Injective(s, Run32(r, msg));
    }
  }

  // ----- the library's functions

  const CRC32_INIT_REMAINDER: bv32 := 0xFFFF_FFFF
  const CRC32_FINAL_XOR_VALUE: bv32 := 0xFFFF_FFFF

  /** Where the register starts. */
  function Start32(oldchksum: bv32, init: bool): bv32 {
    if init then CRC32_INIT_REMAINDER else oldchksum
  }

  function Finish32(r: bv32, last: bool): bv32 {
    if last then r ^ CRC32_FINAL_XOR_VALUE else r
  }

  function Crc32Of(msg: seq<bv8>, oldchksum: bv32, init: bool, last: bool): bv32 {
    Finish32(Run32(Start32(oldchksum, init), msg), last)
  }

  /** Dividing the message, followed by as many zeros as the register is wide and
      with `start` added onto its head, leaves the remainder `r`. */
  ghost predicate Leaves8(msg: seq<bv8>, start: Bits, r: bv8)
    requires |start| == 8
  {
    exists q :: DividesTo(Xor(MessageBits(msg) + Zeros(8), start + Zeros(8 * |msg|)), Generator8(), q, Bits8(r))
  }

  ghost predicate Leaves32(msg: seq<bv8>, start: Bits, r: bv32)
    requires |start| == 32
  {
    exists q :: DividesTo(Xor(MessageBits(msg) + Zeros(32), start + Zeros(8 * |msg|)), Generator32(), q, Bits32(r))
  }

  /** `sum` is that remainder, complemented if `last`. */
  ghost predicate Checks32(msg: seq<bv8>, start: Bits, last: bool, sum: bv32)
    requires |start| == 32
  {
    Leaves32(msg, start, if last then sum ^ 0xffff_ffff else sum)
  }

  lemma AllOnes()
    ensures Bits32(0xffff_ffff) == Ones(32) && Bits8(0) == Zeros(8)
  {
    forall i | 0 <= i < 32 ensures Bits32(0xffff_ffff)[i] {
      OneIsSet(Mask32(i));
    }
  }

  lemma OneIsSet(m: bv32)
    requires m != 0
    ensures Test32(0xffff_ffff, m)
  {
  }

  lemma Run8Leaves(r: bv8, msg: seq<bv8>)
    ensures Leaves8(msg, Bits8(r), Run8(r, msg))
  {
    var q := Run8IsRemainder(r, msg);
  }

  lemma Run32Leaves(r: bv32, msg: seq<bv8>)
    ensures Leaves32(msg, Bits32(r), Run32(r, msg))
  {
    var q := Run32IsRemainder(r, msg);
  }

  lemma Unfinish(r: bv32)
    ensures Finish32(r, false) == r && Finish32(r, true) ^ 0xffff_ffff == r
  {
  }

  /** What a checksum is: the remainder of the message with the register's start
      added onto its head, all ones or the given checksum, and complemented if it
      is the last. */
  lemma Crc32Divides(msg: seq<bv8>, oldchksum: bv32, init: bool, last: bool)
    ensures var sum := Crc32Of(msg, oldchksum, init, last);
            Checks32(msg, if init then Ones(32) else Bits32(oldchksum), last, sum)
  {
    assert Start32(oldchksum, init) == if init then 0xffff_ffff else oldchksum;
    hide Leaves32, Run32, Finish32, Start32, Bits32;
    AllOnes();
    var start := Start32(oldchksum, init);
    Run32Leaves(start, msg);
    Unfinish(Run32(start, msg));
  }

  /** Only one word can be it. */
  lemma OneChecksum(msg: seq<bv8>, start: Bits, last: bool, a: bv32, b: bv32)
    requires |start| == 32 && Checks32(msg, start, last, a) && Checks32(msg, start, last, b)
    ensures a == b
  {
    var x, y := Uncomplement(a, last), Uncomplement(b, last);
    Uncomplemented(msg, start, last, a);
    Uncomplemented(msg, start, last, b);
    SameComplement(a, b, last);
    hide *;
    OneRemainder(msg, start, x, y);
  }

  function Uncomplement(sum: bv32, last: bool): bv32 {
    if last then sum ^ 0xffff_ffff else sum
  }

  lemma Uncomplemented(msg: seq<bv8>, start: Bits, last: bool, sum: bv32)
    requires |start| == 32 && Checks32(msg, start, last, sum)
    ensures Leaves32(msg, start, Uncomplement(sum, last))
  {
    hide Leaves32;
  }

  lemma SameComplement(a: bv32, b: bv32, last: bool)
    ensures Uncomplement(a, last) == Uncomplement(b, last) ==> a == b
  {
  }

  lemma OneRemainder(msg: seq<bv8>, start: Bits, x: bv32, y: bv32)
    requires |start| == 32 && Leaves32(msg, start, x) && Leaves32(msg, start, y)
    ensures x == y
  {
    var d, g := Xor(MessageBits(msg) + Zeros(32), start + Zeros(8 * |msg|)), Generator32();
    var q :| DividesTo(d, g, q, Bits32(x));
    var q' :| DividesTo(d, g, q', Bits32(y));
    RemainderIsUnique(d, g, q, Bits32(x), q', Bits32(y));
    Bits32Injective(x, y);
  }

  method Crc8(msg: array<bv8>, byteCnt: nat, oldchksum: bv32, init: bool) returns (remainder: bv8)
    requires byteCnt <= msg.Length
    ensures remainder == Run8(if init then 0 else (oldchksum & 0xff) as bv8, msg[..byteCnt])
    ensures Leaves8(msg[..byteCnt], if init then Zeros(8) else Bits8((oldchksum & 0xff) as bv8), remainder)
  {
    hide Step8, Leaves8;
    var start := if init then 0 else (oldchksum & 0xff) as bv8;
    remainder := start;
    for offset := 0 to byteCnt
      invariant remainder == Run8(start, msg[..offset])
    {
      Run8Next(start, msg[..], offset);
      assert msg[..][..offset] == msg[..offset] && msg[..][..offset + 1] == msg[..offset + 1];
      remainder := Step8(remainder, msg[offset]);
    }
    AllOnes();
    Run8Leaves(start, msg[..byteCnt]);
  }

  method Crc32(msg: array<bv8>, byteCnt: nat, oldchksum: bv32, init: bool, last: bool) returns (sum: bv32)
    requires byteCnt <= msg.Length
    ensures sum == Crc32Of(msg[..byteCnt], oldchksum, init, last)
    ensures Checks32(msg[..byteCnt], if init then Ones(32) else Bits32(oldchksum), last, sum)
  {
    hide Step32, Finish32, Checks32;
    Crc32Divides(msg[..byteCnt], oldchksum, init, last);
    var start := if init then CRC32_INIT_REMAINDER else oldchksum;
    var remainder := start;
    for offset := 0 to byteCnt
      invariant remainder == Run32(start, msg[..offset])
    {
      Run32Next(start, msg[..], offset);
      assert msg[..][..offset] == msg[..offset] && msg[..][..offset + 1] == msg[..offset + 1];
      remainder := Step32(remainder, msg[offset]);
    }
    return Finish32(remainder, last);
  }

  function Crc32TabRow0(i: bv8): (r: bv32)
    requires 0x00 <= i <= 0x1f
    ensures r == Residue32(i)
  {
    match i
    case 0x00 => 0x00000000 case 0x01 => 0x04c11db7 case 0x02 => 0x09823b6e case 0x03 => 0x0d4326d9
    case 0x04 => 0x130476dc case 0x05 => 0x17c56b6b case 0x06 => 0x1a864db2 case 0x07 => 0x1e475005
    case 0x08 => 0x2608edb8 case 0x09 => 0x22c9f00f case 0x0a => 0x2f8ad6d6 case 0x0b => 0x2b4bcb61
    case 0x0c => 0x350c9b64 case 0x0d => 0x31cd86d3 case 0x0e => 0x3c8ea00a case 0x0f => 0x384fbdbd
    case 0x10 => 0x4c11db70 case 0x11 => 0x48d0c6c7 case 0x12 => 0x4593e01e case 0x13 => 0x4152fda9
    case 0x14 => 0x5f15adac case 0x15 => 0x5bd4b01b case 0x16 => 0x569796c2 case 0x17 => 0x52568b75
    case 0x18 => 0x6a1936c8 case 0x19 => 0x6ed82b7f case 0x1a => 0x639b0da6 case 0x1b => 0x675a1011
    case 0x1c => 0x791d4014 case 0x1d => 0x7ddc5da3 case 0x1e => 0x709f7b7a case _ => 0x745e66cd
  }

  function Crc32TabRow1(i: bv8): (r: bv32)
    requires 0x20 <= i <= 0x3f
    ensures r == Residue32(i)
  {
    match i
    case 0x20 => 0x9823b6e0 case 0x21 => 0x9ce2ab57 case 0x22 => 0x91a18d8e case 0x23 => 0x95609039
    case 0x24 => 0x8b27c03c case 0x25 => 0x8fe6dd8b case 0x26 => 0x82a5fb52 case 0x27 => 0x8664e6e5
    case 0x28 => 0xbe2b5b58 case 0x29 => 0xbaea46ef case 0x2a => 0xb7a96036 case 0x2b => 0xb3687d81
    case 0x2c => 0xad2f2d84 case 0x2d => 0xa9ee3033 case 0x2e => 0xa4ad16ea case 0x2f => 0xa06c0b5d
    case 0x30 => 0xd4326d90 case 0x31 => 0xd0f37027 case 0x32 => 0xddb056fe case 0x33 => 0xd9714b49
    case 0x34 => 0xc7361b4c case 0x35 => 0xc3f706fb case 0x36 => 0xceb42022 case 0x37 => 0xca753d95
    case 0x38 => 0xf23a8028 case 0x39 => 0xf6fb9d9f case 0x3a => 0xfbb8bb46 case 0x3b => 0xff79a6f1
    case 0x3c => 0xe13ef6f4 case 0x3d => 0xe5ffeb43 case 0x3e => 0xe8bccd9a case _ => 0xec7dd02d
  }

  function Crc32TabRow2(i: bv8): (r: bv32)
    requires 0x40 <= i <= 0x5f
    ensures r == Residue32(i)
  {
    match i
    case 0x40 => 0x34867077 case 0x41 => 0x30476dc0 case 0x42 => 0x3d044b19 case 0x43 => 0x39c556ae
    case 0x44 => 0x278206ab case 0x45 => 0x23431b1c case 0x46 => 0x2e003dc5 case 0x47 => 0x2ac12072
    case 0x48 => 0x128e9dcf case 0x49 => 0x164f8078 case 0x4a => 0x1b0ca6a1 case 0x4b => 0x1fcdbb16
    case 0x4c => 0x018aeb13 case 0x4d => 0x054bf6a4 case 0x4e => 0x0808d07d case 0x4f => 0x0cc9cdca
    case 0x50 => 0x7897ab07 case 0x51 => 0x7c56b6b0 case 0x52 => 0x71159069 case 0x53 => 0x75d48dde
    case 0x54 => 0x6b93dddb case 0x55 => 0x6f52c06c case 0x56 => 0x6211e6b5 case 0x57 => 0x66d0fb02
    case 0x58 => 0x5e9f46bf case 0x59 => 0x5a5e5b08 case 0x5a => 0x571d7dd1 case 0x5b => 0x53dc6066
    case 0x5c => 0x4d9b3063 case 0x5d => 0x495a2dd4 case 0x5e => 0x44190b0d case _ => 0x40d816ba
  }

  function Crc32TabRow3(i: bv8): (r: bv32)
    requires 0x60 <= i <= 0x7f
    ensures r == Residue32(i)
  {
    match i
    case 0x60 => 0xaca5c697 case 0x61 => 0xa864db20 case 0x62 => 0xa527fdf9 case 0x63 => 0xa1e6e04e
    case 0x64 => 0xbfa1b04b case 0x65 => 0xbb60adfc case 0x66 => 0xb6238b25 case 0x67 => 0xb2e29692
    case 0x68 => 0x8aad2b2f case 0x69 => 0x8e6c3698 case 0x6a => 0x832f1041 case 0x6b => 0x87ee0df6
    case 0x6c => 0x99a95df3 case 0x6d => 0x9d684044 case 0x6e => 0x902b669d case 0x6f => 0x94ea7b2a
    case 0x70 => 0xe0b41de7 case 0x71 => 0xe4750050 case 0x72 => 0xe9362689 case 0x73 => 0xedf73b3e
    case 0x74 => 0xf3b06b3b case 0x75 => 0xf771768c case 0x76 => 0xfa325055 case 0x77 => 0xfef34de2
    case 0x78 => 0xc6bcf05f case 0x79 => 0xc27dede8 case 0x7a => 0xcf3ecb31 case 0x7b => 0xcbffd686
    case 0x7c => 0xd5b88683 case 0x7d => 0xd1799b34 case 0x7e => 0xdc3abded case _ => 0xd8fba05a
  }

  function Crc32TabRow4(i: bv8): (r: bv32)
    requires 0x80 <= i <= 0x9f
    ensures r == Residue32(i)
  {
    match i
    case 0x80 => 0x690ce0ee case 0x81 => 0x6dcdfd59 case 0x82 => 0x608edb80 case 0x83 => 0x644fc637
    case 0x84 => 0x7a089632 case 0x85 => 0x7ec98b85 case 0x86 => 0x738aad5c case 0x87 => 0x774bb0eb
    case 0x88 => 0x4f040d56 case 0x89 => 0x4bc510e1 case 0x8a => 0x46863638 case 0x8b => 0x42472b8f
    case 0x8c => 0x5c007b8a case 0x8d => 0x58c1663d case 0x8e => 0x558240e4 case 0x8f => 0x51435d53
    case 0x90 => 0x251d3b9e case 0x91 => 0x21dc2629 case 0x92 => 0x2c9f00f0 case 0x93 => 0x285e1d47
    case 0x94 => 0x36194d42 case 0x95 => 0x32d850f5 case 0x96 => 0x3f9b762c case 0x97 => 0x3b5a6b9b
    case 0x98 => 0x0315d626 case 0x99 => 0x07d4cb91 case 0x9a => 0x0a97ed48 case 0x9b => 0x0e56f0ff
    case 0x9c => 0x1011a0fa case 0x9d => 0x14d0bd4d case 0x9e => 0x19939b94 case _ => 0x1d528623
  }

  function Crc32TabRow5(i: bv8): (r: bv32)
    requires 0xa0 <= i <= 0xbf
    ensures r == Residue32(i)
  {
    match i
    case 0xa0 => 0xf12f560e case 0xa1 => 0xf5ee4bb9 case 0xa2 => 0xf8ad6d60 case 0xa3 => 0xfc6c70d7
    case 0xa4 => 0xe22b20d2 case 0xa5 => 0xe6ea3d65 case 0xa6 => 0xeba91bbc case 0xa7 => 0xef68060b
    case 0xa8 => 0xd727bbb6 case 0xa9 => 0xd3e6a601 case 0xaa => 0xdea580d8 case 0xab => 0xda649d6f
    case 0xac => 0xc423cd6a case 0xad => 0xc0e2d0dd case 0xae => 0xcda1f604 case 0xaf => 0xc960ebb3
    case 0xb0 => 0xbd3e8d7e case 0xb1 => 0xb9ff90c9 case 0xb2 => 0xb4bcb610 case 0xb3 => 0xb07daba7
    case 0xb4 => 0xae3afba2 case 0xb5 => 0xaafbe615 case 0xb6 => 0xa7b8c0cc case 0xb7 => 0xa379dd7b
    case 0xb8 => 0x9b3660c6 case 0xb9 => 0x9ff77d71 case 0xba => 0x92b45ba8 case 0xbb => 0x9675461f
    case 0xbc => 0x8832161a case 0xbd => 0x8cf30bad case 0xbe => 0x81b02d74 case _ => 0x857130c3
  }

  function Crc32TabRow6(i: bv8): (r: bv32)
    requires 0xc0 <= i <= 0xdf
    ensures r == Residue32(i)
  {
    match i
    case 0xc0 => 0x5d8a9099 case 0xc1 => 0x594b8d2e case 0xc2 => 0x5408abf7 case 0xc3 => 0x50c9b640
    case 0xc4 => 0x4e8ee645 case 0xc5 => 0x4a4ffbf2 case 0xc6 => 0x470cdd2b case 0xc7 => 0x43cdc09c
    case 0xc8 => 0x7b827d21 case 0xc9 => 0x7f436096 case 0xca => 0x7200464f case 0xcb => 0x76c15bf8
    case 0xcc => 0x68860bfd case 0xcd => 0x6c47164a case 0xce => 0x61043093 case 0xcf => 0x65c52d24
    case 0xd0 => 0x119b4be9 case 0xd1 => 0x155a565e case 0xd2 => 0x18197087 case 0xd3 => 0x1cd86d30
    case 0xd4 => 0x029f3d35 case 0xd5 => 0x065e2082 case 0xd6 => 0x0b1d065b case 0xd7 => 0x0fdc1bec
    case 0xd8 => 0x3793a651 case 0xd9 => 0x3352bbe6 case 0xda => 0x3e119d3f case 0xdb => 0x3ad08088
    case 0xdc => 0x2497d08d case 0xdd => 0x2056cd3a case 0xde => 0x2d15ebe3 case _ => 0x29d4f654
  }

  function Crc32TabRow7(i: bv8): (r: bv32)
    requires 0xe0 <= i <= 0xff
    ensures r == Residue32(i)
  {
    match i
    case 0xe0 => 0xc5a92679 case 0xe1 => 0xc1683bce case 0xe2 => 0xcc2b1d17 case 0xe3 => 0xc8ea00a0
    case 0xe4 => 0xd6ad50a5 case 0xe5 => 0xd26c4d12 case 0xe6 => 0xdf2f6bcb case 0xe7 => 0xdbee767c
    case 0xe8 => 0xe3a1cbc1 case 0xe9 => 0xe760d676 case 0xea => 0xea23f0af case 0xeb => 0xeee2ed18
    case 0xec => 0xf0a5bd1d case 0xed => 0xf464a0aa case 0xee => 0xf9278673 case 0xef => 0xfde69bc4
    case 0xf0 => 0x89b8fd09 case 0xf1 => 0x8d79e0be case 0xf2 => 0x803ac667 case 0xf3 => 0x84fbdbd0
    case 0xf4 => 0x9abc8bd5 case 0xf5 => 0x9e7d9662 case 0xf6 => 0x933eb0bb case 0xf7 => 0x97ffad0c
    case 0xf8 => 0xafb010b1 case 0xf9 => 0xab710d06 case 0xfa => 0xa6322bdf case 0xfb => 0xa2f33668
    case 0xfc => 0xbcb4666d case 0xfd => 0xb8757bda case 0xfe => 0xb5365d03 case _ => 0xb1f740b4
  }

  /** The lookup table crc32_tab of the command line tool. */
  function Crc32Tab(i: bv8): (r: bv32)
    ensures r == Residue32(i)
  {
    if i < 0x20 then Crc32TabRow0(i) else if i < 0x40 then Crc32TabRow1(i)
    else if i < 0x60 then Crc32TabRow2(i) else if i < 0x80 then Crc32TabRow3(i)
    else if i < 0xa0 then Crc32TabRow4(i) else if i < 0xc0 then Crc32TabRow5(i)
    else if i < 0xe0 then Crc32TabRow6(i) else Crc32TabRow7(i)
  }

  /** One turn of the tool's loop. */
  function TabStep(crc: bv32, b: bv8): (next: bv32)
    ensures next == Step32(crc, b)
  {
    var byte := ((crc >> 24) as bv8) ^ b;
    Crc32Tab(byte) ^ (crc << 8)
  }

  /** The command line tool's own copy computes the library's one-shot checksum. */
  method ComputeCrc32(data: array<bv8>) returns (sum: bv32)
    ensures sum == Crc32Of(data[..], 0, true, true)
    ensures Checks32(data[..], Ones(32), true, sum)
  {
    hide Step32, TabStep, Finish32, Checks32;
    Crc32Divides(data[..], 0, true, true);
    var crc: bv32 := CRC32_INIT_REMAINDER;
    for i := 0 to data.Length
      invariant crc == Run32(CRC32_INIT_REMAINDER, data[..i])
    {
      Run32Next(CRC32_INIT_REMAINDER, data[..], i);
      assert data[..][..i] == data[..i] && data[..][..i + 1] == data[..i + 1];
      crc := TabStep(crc, data[i]);
    }
    assert data[..] == data[..data.Length];
    return Finish32(crc, true);
  }

  // ----- what the checksum promises

  /** A checksum may be computed in pieces, feeding each unfinished result to the next call. */
  lemma Crc32Incremental(a: seq<bv8>, b: seq<bv8>, oldchksum: bv32, init: bool, last: bool)
    ensures Crc32Of(a + b, oldchksum, init, last) ==
            Crc32Of(b, Crc32Of(a, oldchksum, init, false), false, last)
  {
    Run32Append(Start32(oldchksum, init), a, b);
  }

  lemma FinishInjective(x: bv32, y: bv32, last: bool)
    ensures Finish32(x, last) == Finish32(y, last) <==> x == y
  {
  }

  lemma EqualIffRunsEqual(a: seq<bv8>, b: seq<bv8>, oldchksum: bv32, init: bool, last: bool)
    ensures Crc32Of(a, oldchksum, init, last) == Crc32Of(b, oldchksum, init, last) <==>
            Run32(Start32(oldchksum, init), a) == Run32(Start32(oldchksum, init), b)
  {
    hide Run32, Finish32;
    FinishInjective(Run32(Start32(oldchksum, init), a), Run32(Start32(oldchksum, init), b), last);
  }

  lemma RunsEqualIffRemaindersEqual(r: bv32, a: seq<bv8>, b: seq<bv8>)
    ensures Run32(r, a) == Run32(r, b) <==>
            Feed(Bits32(r), MessageBits(a), Generator32()) == Feed(Bits32(r), MessageBits(b), Generator32())
  {
    hide *;
    Run32Feeds(r, a);
    Run32Feeds(r, b);
    if Bits32(Run32(r, a)) == Bits32(Run32(r, b)) {
      Bits32Injective(Run32(r, a), Run32(r, b));
    }
  }

  lemma EqualIffRemaindersEqual(a: seq<bv8>, b: seq<bv8>, oldchksum: bv32, init: bool, last: bool)
    ensures Crc32Of(a, oldchksum, init, last) == Crc32Of(b, oldchksum, init, last) <==>
            Feed(Bits32(Start32(oldchksum, init)), MessageBits(a), Generator32()) ==
            Feed(Bits32(Start32(oldchksum, init)), MessageBits(b), Generator32())
  {
    hide *;
    EqualIffRunsEqual(a, b, oldchksum, init, last);
    RunsEqualIffRemaindersEqual(Start32(oldchksum, init), a, b);
  }

  /** Any change confined to 32 consecutive bits changes the checksum. */
  lemma Crc32DetectsBursts(a: seq<bv8>, b: seq<bv8>, at: nat, len: nat, oldchksum: bv32, init: bool, last: bool)
    requires a != b && |a| == |b| && len <= 32
    requires DifferOnlyWithin(MessageBits(a), MessageBits(b), at, len)
    ensures Crc32Of(a, oldchksum, init, last) != Crc32Of(b, oldchksum, init, last)
  {
    EqualIffRemaindersEqual(a, b, oldchksum, init, last);
    var r := Bits32(Start32(oldchksum, init));
    if Feed(r, MessageBits(a), Generator32()) == Feed(r, MessageBits(b), Generator32()) {
      BurstChangesRegister(r, MessageBits(a), MessageBits(b), at, len, Generator32());
      MessageBitsInjective(a, b);
    }
  }

  /** Undetected changes are exactly the multiples of the generator polynomial. */
  lemma Crc32CollidesIffMultiple(a: seq<bv8>, b: seq<bv8>, oldchksum: bv32, init: bool, last: bool)
    requires |a| == |b|
    ensures Crc32Of(a, oldchksum, init, last) == Crc32Of(b, oldchksum, init, last) <==>
            exists q :: |q| == 8 * |a| &&
              Mul(q, Generator32()) == Xor(MessageBits(a), MessageBits(b)) + Zeros(32)
  {
    EqualIffRemaindersEqual(a, b, oldchksum, init, last);
    var r := Bits32(Start32(oldchksum, init));
    CollideIffMultiple(r, MessageBits(a), MessageBits(b), Generator32());
  }

  /** In bytes: any change inside four consecutive bytes. */
  lemma Crc32DetectsFourBytes(a: seq<bv8>, b: seq<bv8>, at: nat, len: nat, oldchksum: bv32, init: bool, last: bool)
    requires a != b && len <= 4 && DifferOnlyWithin(a, b, at, len)
    ensures Crc32Of(a, oldchksum, init, last) != Crc32Of(b, oldchksum, init, last)
  {
    hide *;
    BytesApart(a, b, at, len);
    Crc32DetectsBursts(a, b, 8 * at, 8 * len, oldchksum, init, last);
  }

  lemma BytesApart(a: seq<bv8>, b: seq<bv8>, at: nat, len: nat)
    requires DifferOnlyWithin(a, b, at, len)
    ensures |a| == |b| && DifferOnlyWithin(MessageBits(a), MessageBits(b), 8 * at, 8 * len)
  {
    SplitBits(a, at);
    SplitBits(b, at);
    SplitBits(a, at + len);
    SplitBits(b, at + len);
    hide MessageBits;
    assert 8 * (at + len) == 8 * at + 8 * len;
  }

  /** The bits of a message, cut between two bytes. */
  lemma SplitBits(a: seq<bv8>, n: nat)
    requires n <= |a|
    ensures MessageBits(a)[..8 * n] == MessageBits(a[..n])
    ensures MessageBits(a)[8 * n..] == MessageBits(a[n..])
  {
    assert a == a[..n] + a[n..];
    MessageBitsConcat(a[..n], a[n..]);
  }
}
