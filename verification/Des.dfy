/**
 The DES of reg/rtu_des.c.  Words are 32-bit vectors, bytes 8-bit vectors.  The substitution
 boxes are a parameter: nothing here depends on what they contain.
 */
module Des {

  /** The two halves X and Y of a block. */
  datatype Block = Block(x: bv32, y: bv32)

  /** SB1 to SB8 as functions of a masked index. */
  datatype Boxes = Boxes(
    sb1: bv32 -> bv32, sb2: bv32 -> bv32, sb3: bv32 -> bv32, sb4: bv32 -> bv32,
    sb5: bv32 -> bv32, sb6: bv32 -> bv32, sb7: bv32 -> bv32, sb8: bv32 -> bv32)

  // ---------------------------------------------------------------- DES_IP and DES_FP

  /** T = ((X >> 4) ^ Y) & 0x0F0F0F0F; Y ^= T; X ^= T << 4. */
  function Swap4(b: Block): Block {
    var t := ((b.x >> 4) ^ b.y) & 0x0F0F0F0F;
    Block(b.x ^ (t << 4), b.y ^ t)
  }

  function Swap16(b: Block): Block {
    var t := ((b.x >> 16) ^ b.y) & 0x0000FFFF;
    Block(b.x ^ (t << 16), b.y ^ t)
  }

  function Swap2(b: Block): Block {
    var t := ((b.y >> 2) ^ b.x) & 0x33333333;
    Block(b.x ^ t, b.y ^ (t << 2))
  }

  function Swap8(b: Block): Block {
    var t := ((b.y >> 8) ^ b.x) & 0x00FF00FF;
    Block(b.x ^ t, b.y ^ (t << 8))
  }

  /** The last three statements of DES_IP. */
  function Twist(b: Block): Block {
    var y := (b.y << 1) | (b.y >> 31);
    var t := (b.x ^ y) & 0xAAAAAAAA;
    var x := b.x ^ t;
    Block((x << 1) | (x >> 31), y ^ t)
  }

  /** The first three statements of DES_FP. */
  function Untwist(b: Block): Block {
    var x := (b.x << 31) | (b.x >> 1);
    var t := (x ^ b.y) & 0xAAAAAAAA;
    var y := b.y ^ t;
    Block(x ^ t, (y << 31) | (y >> 1))
  }

  function Ip(b: Block): Block {
    Twist(Swap8(Swap2(Swap16(Swap4(b)))))
  }

  function Fp(b: Block): Block {
    Swap4(Swap16(Swap2(Swap8(Untwist(b)))))
  }

  lemma Swap4Twice(b: Block) ensures Swap4(Swap4(b)) == b {}
  lemma Swap16Twice(b: Block) ensures Swap16(Swap16(b)) == b {}
  lemma Swap2Twice(b: Block) ensures Swap2(Swap2(b)) == b {}
  lemma Swap8Twice(b: Block) ensures Swap8(Swap8(b)) == b {}
  lemma UntwistTwist(b: Block) ensures Untwist(Twist(b)) == b {}
  lemma TwistUntwist(b: Block) ensures Twist(Untwist(b)) == b {}

  /** DES_FP inverts DES_IP, and the other way round. */
  lemma FpInvertsIp(b: Block)
    ensures Fp(Ip(b)) == b && Ip(Fp(b)) == b
  {
    hide Swap4, Swap16, Swap2, Swap8, Twist, Untwist;
    UntwistTwist(Swap8(Swap2(Swap16(Swap4(b)))));
    Swap8Twice(Swap2(Swap16(Swap4(b))));
    Swap2Twice(Swap16(Swap4(b)));
    Swap16Twice(Swap4(b));
    Swap4Twice(b);
    var u := Untwist(b);
    Swap4Twice(Swap16(Swap2(Swap8(u))));
    Swap16Twice(Swap2(Swap8(u)));
    Swap2Twice(Swap8(u));
    Swap8Twice(u);
    TwistUntwist(b);
  }

  // ---------------------------------------------------------------- bytes and words

  /** GET_UINT32_BE. */
  function Get(s: seq<bv8>, i: nat): bv32
    requires i + 4 <= |s|
  {
    ((s[i] as bv32) << 24) | ((s[i + 1] as bv32) << 16) | ((s[i + 2] as bv32) << 8) | (s[i + 3] as bv32)
  }

  /** PUT_UINT32_BE. */
  function Put(n: bv32): (s: seq<bv8>)
    ensures |s| == 4
  {
    [(n >> 24) as bv8, ((n >> 16) & 0xFF) as bv8, ((n >> 8) & 0xFF) as bv8, (n & 0xFF) as bv8]
  }

  lemma PutGet(s: seq<bv8>)
    requires |s| == 4
    ensures Put(Get(s, 0)) == s
  {
  }

  lemma GetPut(n: bv32)
    ensures Get(Put(n), 0) == n
  {
  }

  // ---------------------------------------------------------------- the tables of FIPS PUB 46-3

  /** Bit n of a 64-bit block, counted from 1 at the left. */
  function Nth(b: Block, n: bv8): bv32
    requires 1 <= n <= 64
  {
    (if n <= 32 then b.x >> (32 - n) else b.y >> (64 - n)) & 1
  }

  function Byte(b: Block, n0: bv8, n1: bv8, n2: bv8, n3: bv8, n4: bv8, n5: bv8, n6: bv8, n7: bv8): bv32
    requires 1 <= n0 <= 64 && 1 <= n1 <= 64 && 1 <= n2 <= 64 && 1 <= n3 <= 64
    requires 1 <= n4 <= 64 && 1 <= n5 <= 64 && 1 <= n6 <= 64 && 1 <= n7 <= 64
  {
    (Nth(b, n0) << 7) | (Nth(b, n1) << 6) | (Nth(b, n2) << 5) | (Nth(b, n3) << 4)
    | (Nth(b, n4) << 3) | (Nth(b, n5) << 2) | (Nth(b, n6) << 1) | Nth(b, n7)
  }

  function Nibble(b: Block, n0: bv8, n1: bv8, n2: bv8, n3: bv8): bv32
    requires 1 <= n0 <= 64 && 1 <= n1 <= 64 && 1 <= n2 <= 64 && 1 <= n3 <= 64
  {
    (Nth(b, n0) << 3) | (Nth(b, n1) << 2) | (Nth(b, n2) << 1) | Nth(b, n3)
  }

  /** The initial permutation IP. */
  function TableIp(b: Block): Block {
    Block(
      (Byte(b, 58, 50, 42, 34, 26, 18, 10, 2) << 24)
      | (Byte(b, 60, 52, 44, 36, 28, 20, 12, 4) << 16)
      | (Byte(b, 62, 54, 46, 38, 30, 22, 14, 6) << 8)
      | Byte(b, 64, 56, 48, 40, 32, 24, 16, 8),
      (Byte(b, 57, 49, 41, 33, 25, 17, 9, 1) << 24)
      | (Byte(b, 59, 51, 43, 35, 27, 19, 11, 3) << 16)
      | (Byte(b, 61, 53, 45, 37, 29, 21, 13, 5) << 8)
      | Byte(b, 63, 55, 47, 39, 31, 23, 15, 7))
  }

  /** Its inverse. */
  function TableFp(b: Block): Block {
    Block(
      (Byte(b, 40, 8, 48, 16, 56, 24, 64, 32) << 24)
      | (Byte(b, 39, 7, 47, 15, 55, 23, 63, 31) << 16)
      | (Byte(b, 38, 6, 46, 14, 54, 22, 62, 30) << 8)
      | Byte(b, 37, 5, 45, 13, 53, 21, 61, 29),
      (Byte(b, 36, 4, 44, 12, 52, 20, 60, 28) << 24)
      | (Byte(b, 35, 3, 43, 11, 51, 19, 59, 27) << 16)
      | (Byte(b, 34, 2, 42, 10, 50, 18, 58, 26) << 8)
      | Byte(b, 33, 1, 41, 9, 49, 17, 57, 25))
  }

  /** Permuted choice 1: the halves C and D in the low 28 bits. */
  function TablePc1(b: Block): Block {
    Block(
      (Byte(b, 57, 49, 41, 33, 25, 17, 9, 1) << 20)
      | (Byte(b, 58, 50, 42, 34, 26, 18, 10, 2) << 12)
      | (Byte(b, 59, 51, 43, 35, 27, 19, 11, 3) << 4)
      | Nibble(b, 60, 52, 44, 36),
      (Byte(b, 63, 55, 47, 39, 31, 23, 15, 7) << 20)
      | (Byte(b, 62, 54, 46, 38, 30, 22, 14, 6) << 12)
      | (Byte(b, 61, 53, 45, 37, 29, 21, 13, 5) << 4)
      | Nibble(b, 28, 20, 12, 4))
  }

  /** Bit n of the 56 bits C D, counted from 1 at the left. */
  function Nth56(c: Block, n: bv8): bv32
    requires 1 <= n <= 56
  {
    (if n <= 28 then c.x >> (28 - n) else c.y >> (56 - n)) & 1
  }

  function Six56(c: Block, n0: bv8, n1: bv8, n2: bv8, n3: bv8, n4: bv8, n5: bv8): bv32
    requires 1 <= n0 <= 56 && 1 <= n1 <= 56 && 1 <= n2 <= 56 && 1 <= n3 <= 56 && 1 <= n4 <= 56 && 1 <= n5 <= 56
  {
    (Nth56(c, n0) << 5) | (Nth56(c, n1) << 4) | (Nth56(c, n2) << 3) | (Nth56(c, n3) << 2) | (Nth56(c, n4) << 1) | Nth56(c, n5)
  }

  /** Permuted choice 2: the groups of six key bits for S2, S4, S6, S8, one a byte. */
  function TablePc2Even(c: Block): bv32 {
    (Six56(c, 3, 28, 15, 6, 21, 10) << 24) | (Six56(c, 16, 7, 27, 20, 13, 2) << 16)
    | (Six56(c, 30, 40, 51, 45, 33, 48) << 8) | Six56(c, 46, 42, 50, 36, 29, 32)
  }

  /** The groups for S1, S3, S5, S7. */
  function TablePc2Odd(c: Block): bv32 {
    (Six56(c, 14, 17, 11, 24, 1, 5) << 24) | (Six56(c, 23, 19, 12, 4, 26, 8) << 16)
    | (Six56(c, 41, 52, 31, 37, 47, 55) << 8) | Six56(c, 44, 49, 39, 56, 34, 53)
  }

  function Six(r: bv32, n0: bv8, n1: bv8, n2: bv8, n3: bv8, n4: bv8, n5: bv8): bv32
    requires 1 <= n0 <= 32 && 1 <= n1 <= 32 && 1 <= n2 <= 32 && 1 <= n3 <= 32 && 1 <= n4 <= 32 && 1 <= n5 <= 32
  {
    var b := Block(r, 0);
    (Nth(b, n0) << 5) | (Nth(b, n1) << 4) | (Nth(b, n2) << 3) | (Nth(b, n3) << 2) | (Nth(b, n4) << 1) | Nth(b, n5)
  }

  function Rol1(x: bv32): bv32 {
    (x << 1) | (x >> 31)
  }

  /** DES_IP is IP, with both halves turned left by one. */
  lemma IpIsTable(b: Block)
    ensures Ip(b) == Block(Rol1(TableIp(b).x), Rol1(TableIp(b).y))
  {
  }

  /** DES_FP is the inverse of IP on halves turned left by one. */
  lemma FpIsTable(b: Block)
    ensures Fp(Block(Rol1(b.x), Rol1(b.y))) == TableFp(b)
  {
  }

  // ---------------------------------------------------------------- _des_main_ks

  function Lhs(i: bv32): bv32 {
    if i == 0 then 0x00000000
    else if i == 1 then 0x00000001
    else if i == 2 then 0x00000100
    else if i == 3 then 0x00000101
    else if i == 4 then 0x00010000
    else if i == 5 then 0x00010001
    else if i == 6 then 0x00010100
    else if i == 7 then 0x00010101
    else if i == 8 then 0x01000000
    else if i == 9 then 0x01000001
    else if i == 10 then 0x01000100
    else if i == 11 then 0x01000101
    else if i == 12 then 0x01010000
    else if i == 13 then 0x01010001
    else if i == 14 then 0x01010100
    else 0x01010101
  }

  function Rhs(i: bv32): bv32 {
    if i == 0 then 0x00000000
    else if i == 1 then 0x01000000
    else if i == 2 then 0x00010000
    else if i == 3 then 0x01010000
    else if i == 4 then 0x00000100
    else if i == 5 then 0x01000100
    else if i == 6 then 0x00010100
    else if i == 7 then 0x01010100
    else if i == 8 then 0x00000001
    else if i == 9 then 0x01000001
    else if i == 10 then 0x00010001
    else if i == 11 then 0x01010001
    else if i == 12 then 0x00000101
    else if i == 13 then 0x01000101
    else if i == 14 then 0x00010101
    else 0x01010101
  }

  /** The two exchanges of key bits before the tables. */
  function MixKey(key: Block): Block {
    var t := ((key.y >> 4) ^ key.x) & 0x0F0F0F0F;
    var x, y := key.x ^ t, key.y ^ (t << 4);
    var u := (y ^ x) & 0x10101010;
    Block(x ^ u, y ^ u)
  }

  function Combine(a: bv32, b: bv32, c: bv32, d: bv32, e: bv32, f: bv32, g: bv32, h: bv32): bv32 {
    ((a << 3) | (b << 2) | (c << 1) | d | (e << 7) | (f << 6) | (g << 5) | (h << 4)) & 0x0FFFFFFF
  }

  /** The eight lookups of a half; lookup is LHs. */
  function GatherLeft(lookup: bv32 -> bv32, x: bv32): bv32 {
    Combine(lookup(x & 0xF), lookup((x >> 8) & 0xF), lookup((x >> 16) & 0xF), lookup((x >> 24) & 0xF),
            lookup((x >> 5) & 0xF), lookup((x >> 13) & 0xF), lookup((x >> 21) & 0xF), lookup((x >> 29) & 0xF))
  }

  /** The same for the other half; lookup is RHs. */
  function GatherRight(lookup: bv32 -> bv32, y: bv32): bv32 {
    Combine(lookup((y >> 1) & 0xF), lookup((y >> 9) & 0xF), lookup((y >> 17) & 0xF), lookup((y >> 25) & 0xF),
            lookup((y >> 4) & 0xF), lookup((y >> 12) & 0xF), lookup((y >> 20) & 0xF), lookup((y >> 28) & 0xF))
  }

  /** X and Y before the rounds of the key schedule. */
  function KeyHalves(key: Block): Block {
    var m := MixKey(key);
    Block(GatherLeft(Lhs, m.x), GatherRight(Rhs, m.y))
  }

  /** What LHs does: the four bits of its index go to the low ends of four bytes. */
  function SpreadLeft(i: bv32): bv32 {
    ((i & 8) << 21) | ((i & 4) << 14) | ((i & 2) << 7) | (i & 1)
  }

  /** RHs, in the opposite order. */
  function SpreadRight(i: bv32): bv32 {
    ((i & 1) << 24) | ((i & 2) << 15) | ((i & 4) << 6) | ((i & 8) >> 3)
  }

  lemma LhsSpreads(v: bv32)
    ensures Lhs(v & 0xF) == SpreadLeft(v & 0xF)
  {
  }

  lemma RhsSpreads(v: bv32)
    ensures Rhs(v & 0xF) == SpreadRight(v & 0xF)
  {
  }

  lemma GatherLeftSpreads(x: bv32)
    ensures GatherLeft(Lhs, x) == GatherLeft(SpreadLeft, x)
  {
    hide Lhs, SpreadLeft, Combine;
    LhsSpreads(x); LhsSpreads(x >> 8); LhsSpreads(x >> 16); LhsSpreads(x >> 24);
    LhsSpreads(x >> 5); LhsSpreads(x >> 13); LhsSpreads(x >> 21); LhsSpreads(x >> 29);
  }

  lemma GatherRightSpreads(y: bv32)
    ensures GatherRight(Rhs, y) == GatherRight(SpreadRight, y)
  {
    hide Rhs, SpreadRight, Combine;
    RhsSpreads(y >> 1); RhsSpreads(y >> 9); RhsSpreads(y >> 17); RhsSpreads(y >> 25);
    RhsSpreads(y >> 4); RhsSpreads(y >> 12); RhsSpreads(y >> 20); RhsSpreads(y >> 28);
  }

  lemma LeftIsPc1(key: Block)
    ensures GatherLeft(SpreadLeft, MixKey(key).x) == TablePc1(key).x
  {
  }

  lemma RightIsPc1(key: Block)
    ensures GatherRight(SpreadRight, MixKey(key).y) == TablePc1(key).y
  {
  }

  /** The scattering through LHs and RHs is permuted choice 1. */
  lemma KeyHalvesIsPc1(key: Block)
    ensures KeyHalves(key) == TablePc1(key)
  {
    hide Lhs, Rhs, GatherLeft, GatherRight, MixKey, SpreadLeft, SpreadRight, Byte, Nibble;
    var m := MixKey(key);
    GatherLeftSpreads(m.x);
    GatherRightSpreads(m.y);
    LeftIsPc1(key);
    RightIsPc1(key);
  }

  function Turn1(x: bv32): bv32 {
    ((x << 1) | (x >> 27)) & 0x0FFFFFFF
  }

  function Turn2(x: bv32): bv32 {
    ((x << 2) | (x >> 26)) & 0x0FFFFFFF
  }

  /** Round i of the key schedule turns both halves by one or two. */
  function TurnHalves(h: Block, i: nat): Block {
    if i < 2 || i == 8 || i == 15 then Block(Turn1(h.x), Turn1(h.y)) else Block(Turn2(h.x), Turn2(h.y))
  }

  /** X and Y after i rounds of the key schedule. */
  function Halves(c: Block, i: nat): Block {
    if i == 0 then c else TurnHalves(Halves(c, i - 1), i - 1)
  }

  /** A 28-bit half turned left by n. */
  function Turn(x: bv32, n: bv8): bv32
    requires n <= 28
  {
    ((x << n) | (x >> (28 - n))) & 0x0FFFFFFF
  }

  lemma TurnMore(x: bv32, n: bv8)
    requires x < 0x1000_0000 && n <= 26
    ensures Turn1(Turn(x, n)) == Turn(x, n + 1) && Turn2(Turn(x, n)) == Turn(x, n + 2)
  {
    hide Turn1, Turn2, Turn;
    TurnOneMore(x, n);
    TurnTwoMore(x, n);
  }

  lemma TurnOneMore(x: bv32, n: bv8)
    requires x < 0x1000_0000 && n <= 26
    ensures Turn1(Turn(x, n)) == Turn(x, n + 1)
  {
  }

  lemma TurnTwoMore(x: bv32, n: bv8)
    requires x < 0x1000_0000 && n <= 26
    ensures Turn2(Turn(x, n)) == Turn(x, n + 2)
  {
  }

  lemma TurnLast(x: bv32)
    requires x < 0x1000_0000
    ensures Turn1(Turn(x, 27)) == x && Turn(x, 0) == x
  {
  }

  predicate Turned(c: Block, i: nat, n: bv8)
    requires n <= 28
  {
    Halves(c, i) == Block(Turn(c.x, n), Turn(c.y, n))
  }

  lemma TurnedMore(c: Block, i: nat, n: bv8)
    requires c.x < 0x1000_0000 && c.y < 0x1000_0000 && n <= 26 && Turned(c, i, n)
    ensures Turned(c, i + 1, if i < 2 || i == 8 || i == 15 then n + 1 else n + 2)
  {
    hide Turn, Turn1, Turn2;
    TurnMore(c.x, n);
    TurnMore(c.y, n);
  }

  /** The sixteen turns bring both halves back where they started. */
  lemma FullCircle(c: Block)
    requires c.x < 0x1000_0000 && c.y < 0x1000_0000
    ensures Halves(c, 16) == c
  {
    hide Turn, Turn1, Turn2;
    TurnLast(c.x);
    TurnLast(c.y);
    TurnedMore(c, 0, 0); TurnedMore(c, 1, 1); TurnedMore(c, 2, 2); TurnedMore(c, 3, 4);
    TurnedMore(c, 4, 6); TurnedMore(c, 5, 8); TurnedMore(c, 6, 10); TurnedMore(c, 7, 12);
    TurnedMore(c, 8, 14); TurnedMore(c, 9, 15); TurnedMore(c, 10, 17); TurnedMore(c, 11, 19);
    TurnedMore(c, 12, 21); TurnedMore(c, 13, 23); TurnedMore(c, 14, 25);
  }

  /** The words of round i. */
  function EvenKey(c: Block): bv32 {
    ((c.x << 4) & 0x24000000) | ((c.x << 28) & 0x10000000)
    | ((c.x << 14) & 0x08000000) | ((c.x << 18) & 0x02080000)
    | ((c.x << 6) & 0x01000000) | ((c.x << 9) & 0x00200000)
    | ((c.x >> 1) & 0x00100000) | ((c.x << 10) & 0x00040000)
    | ((c.x << 2) & 0x00020000) | ((c.x >> 10) & 0x00010000)
    | ((c.y >> 13) & 0x00002000) | ((c.y >> 4) & 0x00001000)
    | ((c.y << 6) & 0x00000800) | ((c.y >> 1) & 0x00000400)
    | ((c.y >> 14) & 0x00000200) | (c.y & 0x00000100)
    | ((c.y >> 5) & 0x00000020) | ((c.y >> 10) & 0x00000010)
    | ((c.y >> 3) & 0x00000008) | ((c.y >> 18) & 0x00000004)
    | ((c.y >> 26) & 0x00000002) | ((c.y >> 24) & 0x00000001)
  }

  function OddKey(c: Block): bv32 {
    ((c.x << 15) & 0x20000000) | ((c.x << 17) & 0x10000000)
    | ((c.x << 10) & 0x08000000) | ((c.x << 22) & 0x04000000)
    | ((c.x >> 2) & 0x02000000) | ((c.x << 1) & 0x01000000)
    | ((c.x << 16) & 0x00200000) | ((c.x << 11) & 0x00100000)
    | ((c.x << 3) & 0x00080000) | ((c.x >> 6) & 0x00040000)
    | ((c.x << 15) & 0x00020000) | ((c.x >> 4) & 0x00010000)
    | ((c.y >> 2) & 0x00002000) | ((c.y << 8) & 0x00001000)
    | ((c.y >> 14) & 0x00000808) | ((c.y >> 9) & 0x00000400)
    | (c.y & 0x00000200) | ((c.y << 7) & 0x00000100)
    | ((c.y >> 7) & 0x00000020) | ((c.y >> 3) & 0x00000011)
    | ((c.y << 2) & 0x00000004) | ((c.y >> 21) & 0x00000002)
  }

  /** The two words of a round are permuted choice 2. */
  lemma KeysArePc2(c: Block)
    ensures EvenKey(c) == TablePc2Even(c) && OddKey(c) == TablePc2Odd(c)
  {
  }
}
