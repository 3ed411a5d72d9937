/**
 The MD5 block transform of sdccp/cc_md5.c and reg/rtu_md5.c.  The two differ only in what a
 step adds to its message word: the constant of the table, or the result of a detour through
 DES that always ends in that constant.
 */
module Md5Transform {
  import opened Common
  import Des
  import DesCipher
  import Md5

  datatype Regs = Regs(a: bv32, b: bv32, c: bv32, d: bv32)

  /** One of the macro calls: round, message word, shift, additive constant. */
  datatype Op = Op(round: nat, index: nat, shift: bv8, k: bv32)

  const ROUND1: seq<Op> := [
    Op(0, 0, 7, 3614090360), Op(0, 1, 12, 3905402710), Op(0, 2, 17, 606105819), Op(0, 3, 22, 3250441966),
    Op(0, 4, 7, 4118548399), Op(0, 5, 12, 1200080426), Op(0, 6, 17, 2821735955), Op(0, 7, 22, 4249261313),
    Op(0, 8, 7, 1770035416), Op(0, 9, 12, 2336552879), Op(0, 10, 17, 4294925233), Op(0, 11, 22, 2304563134),
    Op(0, 12, 7, 1804603682), Op(0, 13, 12, 4254626195), Op(0, 14, 17, 2792965006), Op(0, 15, 22, 1236535329)
  ]

  const ROUND2: seq<Op> := [
    Op(1, 1, 5, 4129170786), Op(1, 6, 9, 3225465664), Op(1, 11, 14, 643717713), Op(1, 0, 20, 3921069994),
    Op(1, 5, 5, 3593408605), Op(1, 10, 9, 38016083), Op(1, 15, 14, 3634488961), Op(1, 4, 20, 3889429448),
    Op(1, 9, 5, 568446438), Op(1, 14, 9, 3275163606), Op(1, 3, 14, 4107603335), Op(1, 8, 20, 1163531501),
    Op(1, 13, 5, 2850285829), Op(1, 2, 9, 4243563512), Op(1, 7, 14, 1735328473), Op(1, 12, 20, 2368359562)
  ]

  const ROUND3: seq<Op> := [
    Op(2, 5, 4, 4294588738), Op(2, 8, 11, 2272392833), Op(2, 11, 16, 1839030562), Op(2, 14, 23, 4259657740),
    Op(2, 1, 4, 2763975236), Op(2, 4, 11, 1272893353), Op(2, 7, 16, 4139469664), Op(2, 10, 23, 3200236656),
    Op(2, 13, 4, 681279174), Op(2, 0, 11, 3936430074), Op(2, 3, 16, 3572445317), Op(2, 6, 23, 76029189),
    Op(2, 9, 4, 3654602809), Op(2, 12, 11, 3873151461), Op(2, 15, 16, 530742520), Op(2, 2, 23, 3299628645)
  ]

  const ROUND4: seq<Op> := [
    Op(3, 0, 6, 4096336452), Op(3, 7, 10, 1126891415), Op(3, 14, 15, 2878612391), Op(3, 5, 21, 4237533241),
    Op(3, 12, 6, 1700485571), Op(3, 3, 10, 2399980690), Op(3, 10, 15, 4293915773), Op(3, 1, 21, 2240044497),
    Op(3, 8, 6, 1873313359), Op(3, 15, 10, 4264355552), Op(3, 6, 15, 2734768916), Op(3, 13, 21, 1309151649),
    Op(3, 4, 6, 4149444226), Op(3, 11, 10, 3174756917), Op(3, 2, 15, 718787259), Op(3, 9, 21, 3951481745)
  ]

  /** Macro call i of Transform. */
  function OpAt(i: nat): Op
    requires i < 64
  {
    if i < 16 then ROUND1[i] else if i < 32 then ROUND2[i - 16] else if i < 48 then ROUND3[i - 32] else ROUND4[i - 48]
  }

  /** F, G, H and I. */
  function Basic(round: nat, x: bv32, y: bv32, z: bv32): bv32 {
    match round
    case 0 => (x & y) | ((x ^ 0xFFFF_FFFF) & z)
    case 1 => (x & z) | (y & (z ^ 0xFFFF_FFFF))
    case 2 => x ^ y ^ z
    case _ => y ^ (x | (z ^ 0xFFFF_FFFF))
  }

  function RotateLeft(x: bv32, n: bv8): bv32
    requires n <= 32
  {
    (x << n) | (x >> (32 - n))
  }

  /** What a macro adds beside the message word: of round, constant and word. */
  type Additive = (nat, bv32, bv32) -> bv32

  /** (a) += basic + x + ac; rotate; (a) += (b). */
  function Turn(r: Regs, basic: bv32, x: bv32, ac: bv32, shift: bv8): bv32
    requires shift <= 32
  {
    RotateLeft(r.a + basic + x + ac, shift) + r.b
  }

  /** One macro call; the registers then trade places for the next one. */
  function Step(ac: Additive, op: Op, x: seq<bv32>, r: Regs): Regs
    requires |x| == 16 && Fits(op)
  {
    Regs(r.d, Turn(r, Basic(op.round, r.b, r.c, r.d), x[op.index], ac(op.round, op.k, x[op.index]), op.shift), r.b, r.c)
  }

  predicate Fits(op: Op) {
    op.index < 16 && op.shift <= 32
  }

  function Steps(ac: Additive, n: nat, x: seq<bv32>, r: Regs): Regs
    requires |x| == 16 && n <= 64
  {
    if n == 0 then r
    else
      OpIsRfc(n - 1);
      Step(ac, OpAt(n - 1), x, Steps(ac, n - 1, x, r))
  }

  /** buf[0] += a and so on. */
  function Plus(r: Regs, e: Regs): Regs {
    Regs(r.a + e.a, r.b + e.b, r.c + e.c, r.d + e.d)
  }

  /** Transform. */
  function Transform(ac: Additive, x: seq<bv32>, r: Regs): Regs
    requires |x| == 16
  {
    Plus(r, Steps(ac, 64, x, r))
  }

  // ---------------------------------------------------------------- the table against RFC 1321, section 3.4

  /** The message word of step i. */
  function Index(i: nat): nat {
    match i / 16
    case 0 => i % 16
    case 1 => (5 * i + 1) % 16
    case 2 => (3 * i + 5) % 16
    case _ => 7 * i % 16
  }

  /** The shift of step i. */
  function Shift(i: nat): bv8 {
    match i / 16
    case 0 => if i % 4 == 0 then 7 else if i % 4 == 1 then 12 else if i % 4 == 2 then 17 else 22
    case 1 => if i % 4 == 0 then 5 else if i % 4 == 1 then 9 else if i % 4 == 2 then 14 else 20
    case 2 => if i % 4 == 0 then 4 else if i % 4 == 1 then 11 else if i % 4 == 2 then 16 else 23
    case _ => if i % 4 == 0 then 6 else if i % 4 == 1 then 10 else if i % 4 == 2 then 15 else 21
  }

  predicate IsRfc(op: Op, i: nat) {
    op.round == i / 16 && op.index == Index(i) && op.shift == Shift(i)
  }

  lemma Round0(i: nat)
    requires 0 <= i < 16
    ensures IsRfc(OpAt(i), i) && Fits(OpAt(i))
  {
    assert i == 0 || i == 1 || i == 2 || i == 3 || i == 4 || i == 5 || i == 6 || i == 7
        || i == 8 || i == 9 || i == 10 || i == 11 || i == 12 || i == 13 || i == 14 || i == 15;
  }

  lemma Round1(i: nat)
    requires 16 <= i < 32
    ensures IsRfc(OpAt(i), i) && Fits(OpAt(i))
  {
    assert i == 16 || i == 17 || i == 18 || i == 19 || i == 20 || i == 21 || i == 22 || i == 23
        || i == 24 || i == 25 || i == 26 || i == 27 || i == 28 || i == 29 || i == 30 || i == 31;
  }

  lemma Round2(i: nat)
    requires 32 <= i < 48
    ensures IsRfc(OpAt(i), i) && Fits(OpAt(i))
  {
    assert i == 32 || i == 33 || i == 34 || i == 35 || i == 36 || i == 37 || i == 38 || i == 39
        || i == 40 || i == 41 || i == 42 || i == 43 || i == 44 || i == 45 || i == 46 || i == 47;
  }

  lemma Round3(i: nat)
    requires 48 <= i < 64
    ensures IsRfc(OpAt(i), i) && Fits(OpAt(i))
  {
    assert i == 48 || i == 49 || i == 50 || i == 51 || i == 52 || i == 53 || i == 54 || i == 55
        || i == 56 || i == 57 || i == 58 || i == 59 || i == 60 || i == 61 || i == 62 || i == 63;
  }

  /** Every step takes the message word and the shift that the RFC gives it. */
  lemma OpIsRfc(i: nat)
    requires i < 64
    ensures IsRfc(OpAt(i), i) && Fits(OpAt(i))
  {
    hide IsRfc;
    if i < 16 {
      Round0(i);
    } else if i < 32 {
      Round1(i);
    } else if i < 48 {
      Round2(i);
    } else {
      Round3(i);
    }
  }

  // ---------------------------------------------------------------- the functions, bit by bit

  /** F takes y where x is set and z elsewhere. */
  lemma FBits(x: bv32, y: bv32, z: bv32)
    ensures var f := Basic(0, x, y, z); f & x == y & x && f & !x == z & !x
  {
  }

  /** G takes x where z is set and y elsewhere. */
  lemma GBits(x: bv32, y: bv32, z: bv32)
    ensures var g := Basic(1, x, y, z); g & z == x & z && g & !z == y & !z
  {
  }

  /** H is the parity of all three. */
  lemma HBits(x: bv32, y: bv32, z: bv32)
    ensures Basic(2, x, y, z) ^ z == x ^ y
  {
  }

  /** I differs from y exactly where x is set or z is not. */
  lemma IBits(x: bv32, y: bv32, z: bv32)
    ensures Basic(3, x, y, z) ^ y == x | !z
  {
    Unlike(y, x | (z ^ 0xFFFF_FFFF));
    Complement(z);
  }

  lemma Unlike(y: bv32, d: bv32)
    ensures (y ^ d) ^ y == d
  {
  }

  lemma Complement(z: bv32)
    ensures z ^ 0xFFFF_FFFF == !z
  {
  }

  predicate Bit(x: bv32, i: bv8)
    requires i < 32
  {
    (x >> i) & 1 == 1
  }

  /** Turning by nothing leaves a word, turning by one moves every bit one up, the highest to the lowest,
      and turning further is turning by one again. */
  lemma TurnedByOne(x: bv32, n: bv8, i: bv8)
    requires n < 32 && i < 32
    ensures RotateLeft(x, 0) == x
    ensures Bit(RotateLeft(x, 1), if i < 31 then i + 1 else 0) == Bit(x, i)
    ensures RotateLeft(x, n + 1) == RotateLeft(RotateLeft(x, n), 1)
  {
    OneUp(x, i);
    OneMore(x, n);
  }

  lemma OneUp(x: bv32, i: bv8)
    requires i < 32
    ensures Bit(RotateLeft(x, 1), if i < 31 then i + 1 else 0) == Bit(x, i)
  {
  }

  function Up(x: bv32, n: bv8): bv32
    requires n <= 32
  {
    x << n
  }

  function Down(x: bv32, n: bv8): bv32
    requires n <= 32
  {
    x >> n
  }

  function Either(a: bv32, b: bv32): bv32 {
    a | b
  }

  lemma OneMore(x: bv32, n: bv8)
    requires n < 32
    ensures RotateLeft(x, n + 1) == RotateLeft(RotateLeft(x, n), 1)
  {
    hide Up, Down, Either, RotateLeft;
    var a, b := Up(x, n), Down(x, 32 - n);
    RotateIs(x, n);
    RotateIs(x, n + 1);
    RotateIs(RotateLeft(x, n), 1);
    OneOfEither(a, b);
    UpOneMore(x, n);
    DownToNothing(x, n);
    DownOneLess(x, n);
    EitherOrder(Up(a, 1), Up(b, 1), Down(a, 31));
  }

  lemma RotateIs(x: bv32, n: bv8)
    requires n <= 32
    ensures RotateLeft(x, n) == Either(Up(x, n), Down(x, 32 - n))
  {
  }

  lemma OneOfEither(a: bv32, b: bv32)
    ensures Up(Either(a, b), 1) == Either(Up(a, 1), Up(b, 1)) && Down(Either(a, b), 31) == Either(Down(a, 31), Down(b, 31))
  {
  }

  lemma UpOneMore(x: bv32, n: bv8)
    requires n < 32
    ensures Up(Up(x, n), 1) == Up(x, n + 1)
  {
  }

  lemma DownToNothing(x: bv32, n: bv8)
    requires n < 32
    ensures Down(Down(x, 32 - n), 31) == 0
  {
  }

  lemma DownOneLess(x: bv32, n: bv8)
    requires n < 32
    ensures Either(Up(Down(x, 32 - n), 1), Down(Up(x, n), 31)) == Down(x, 31 - n)
  {
  }

  lemma EitherOrder(a: bv32, b: bv32, c: bv32)
    ensures Either(Either(a, b), Either(c, 0)) == Either(a, Either(b, c))
  {
  }

  // ---------------------------------------------------------------- __md5_transform_enc1 to 4

  /** rtu_crc32 and rtu_ncrc32 of a seed, a buffer and a length. */
  type Checksum = (bv32, seq<bv8>, int) -> bv32

  /** (unsigned char)(x >> n). */
  function Part(x: bv32, n: bv8): bv8
    requires n <= 32
  {
    ((x >> n) & 0xFF) as bv8
  }

  /** What the DES detour computes: the checksum of the encrypted bytes if rtu_des_encrypt says
      that some are left over, and the constant otherwise. */
  function Detour(sb: Des.Boxes, crc: Checksum, k: bv32, x: bv32, inbuf: seq<bv8>, key: seq<bv8>): bv32
    requires |inbuf| == 8 && |key| == 8
  {
    var out := DesCipher.CryptAll(sb, DesCipher.EncryptionKeys(DesCipher.ToBlock(key)), inbuf);
    var len := DesCipher.Left(8);
    if len > 0 then crc(x, out, len) else k
  }

  function Key1(x: bv32): seq<bv8> {
    [Part(x, 0), 0x15, Part(x, 24), 0xAF, Part(x, 8), 0x5B, Part(x, 16), 0x2C]
  }

  function Key2(x: bv32): seq<bv8> {
    [0x35, Part(x, 16), 0x47, Part(x, 8), 0xCC, Part(x, 24), Part(x, 0), 0xAB]
  }

  function Input1(x: bv32): seq<bv8> {
    [Part(x, 0), Part(x, 24), Part(x, 8), Part(x, 16), Part(x, 12), Part(x, 20), Part(x, 4), Part(x, 22)]
  }

  function Enc1(sb: Des.Boxes, crc: Checksum, k: bv32, x: bv32): bv32 {
    Detour(sb, crc, k, x, Input1(x), Key1(x))
  }

  function Input2(x: bv32): seq<bv8> {
    [Part(x, 20), Part(x, 4), Part(x, 24), Part(x, 12), Part(x, 22), Part(x, 8), Part(x, 0), Part(x, 16)]
  }

  function Enc2(sb: Des.Boxes, crc: Checksum, k: bv32, x: bv32): bv32 {
    Detour(sb, crc, k, x, Input2(x), Key2(x))
  }

  function Input3(x: bv32): seq<bv8> {
    [Part(x, 0), Part(x, 16), Part(x, 12), Part(x, 20), Part(x, 24), Part(x, 8), Part(x, 4), Part(x, 22)]
  }

  function Enc3(sb: Des.Boxes, ncrc: Checksum, k: bv32, x: bv32): bv32 {
    Detour(sb, ncrc, k, x, Input3(x), Key1(x))
  }

  function Input4(x: bv32): seq<bv8> {
    [Part(x, 8), Part(x, 20), Part(x, 0), Part(x, 24), Part(x, 4), Part(x, 16), Part(x, 12), Part(x, 22)]
  }

  function Enc4(sb: Des.Boxes, ncrc: Checksum, k: bv32, x: bv32): bv32 {
    Detour(sb, ncrc, k, x, Input4(x), Key2(x))
  }

  /** What the macros of rtu_md5.c add: FF asks enc1, GG enc3, HH enc4, II enc2. */
  function Added(sb: Des.Boxes, crc: Checksum, ncrc: Checksum, round: nat, k: bv32, x: bv32): bv32 {
    match round
    case 0 => Enc1(sb, crc, k, x)
    case 1 => Enc3(sb, ncrc, k, x)
    case 2 => Enc4(sb, ncrc, k, x)
    case _ => Enc2(sb, crc, k, x)
  }

  function RtuAdditive(sb: Des.Boxes, crc: Checksum, ncrc: Checksum): Additive {
    (round: nat, k: bv32, x: bv32) => Added(sb, crc, ncrc, round, k, x)
  }

  /** What the macros of cc_md5.c add. */
  function CcAdditive(): Additive {
    (round: nat, k: bv32, x: bv32) => k
  }

  lemma DetourIsConstant(sb: Des.Boxes, crc: Checksum, k: bv32, x: bv32, inbuf: seq<bv8>, key: seq<bv8>)
    requires |inbuf| == 8 && |key| == 8
    ensures Detour(sb, crc, k, x, inbuf, key) == k
  {
    hide DesCipher.CryptAll, DesCipher.EncryptionKeys, DesCipher.ToBlock;
    assert DesCipher.Left(8) == 0;
  }

  /** rtu_des_encrypt on eight bytes leaves nothing over, so every detour ends in the constant. */
  lemma EncsAreConstant(sb: Des.Boxes, crc: Checksum, k: bv32, x: bv32)
    ensures Enc1(sb, crc, k, x) == Enc2(sb, crc, k, x) == Enc3(sb, crc, k, x) == Enc4(sb, crc, k, x) == k
  {
    hide Detour, Part;
    DetourIsConstant(sb, crc, k, x, Input1(x), Key1(x));
    DetourIsConstant(sb, crc, k, x, Input2(x), Key2(x));
    DetourIsConstant(sb, crc, k, x, Input3(x), Key1(x));
    DetourIsConstant(sb, crc, k, x, Input4(x), Key2(x));
  }

  lemma AddedIsConstant(sb: Des.Boxes, crc: Checksum, ncrc: Checksum, round: nat, k: bv32, x: bv32)
    ensures RtuAdditive(sb, crc, ncrc)(round, k, x) == k
  {
    hide Enc1, Enc2, Enc3, Enc4;
    EncsAreConstant(sb, crc, k, x);
    EncsAreConstant(sb, ncrc, k, x);
  }

  // ---------------------------------------------------------------- the two hash functions

  lemma StepAgrees(sb: Des.Boxes, crc: Checksum, ncrc: Checksum, op: Op, x: seq<bv32>, r: Regs)
    requires |x| == 16 && Fits(op)
    ensures Step(RtuAdditive(sb, crc, ncrc), op, x, r) == Step(CcAdditive(), op, x, r)
  {
    hide Added, RtuAdditive, Basic, Turn;
    AddedIsConstant(sb, crc, ncrc, op.round, op.k, x[op.index]);
  }

  lemma {:induction false} StepsAgree(sb: Des.Boxes, crc: Checksum, ncrc: Checksum, n: nat, x: seq<bv32>, r: Regs)
    requires |x| == 16 && n <= 64
    ensures Steps(RtuAdditive(sb, crc, ncrc), n, x, r) == Steps(CcAdditive(), n, x, r)
  {
    hide RtuAdditive, CcAdditive, Step, OpAt;
    if n > 0 {
      StepsAgree(sb, crc, ncrc, n - 1, x, r);
      OpIsRfc(n - 1);
      StepAgrees(sb, crc, ncrc, OpAt(n - 1), x, Steps(CcAdditive(), n - 1, x, r));
    }
  }

  /** The two block transforms are the same function. */
  lemma TransformsAgree(sb: Des.Boxes, crc: Checksum, ncrc: Checksum, x: seq<bv32>, r: Regs)
    requires |x| == 16
    ensures Transform(RtuAdditive(sb, crc, ncrc), x, r) == Transform(CcAdditive(), x, r)
  {
    hide RtuAdditive, CcAdditive, Steps, Plus;
    StepsAgree(sb, crc, ncrc, 64, x, r);
  }

  function ToVectors(w: seq<word>): (v: seq<bv32>)
    ensures |v| == |w|
  {
    seq(|w|, i requires 0 <= i < |w| => w[i] as bv32)
  }

  function ToRegs(b: Md5.Buf): Regs {
    Regs(b.a as bv32, b.b as bv32, b.c as bv32, b.d as bv32)
  }

  function Number(x: bv32): word {
    x as int
  }

  function ToBuf(r: Regs): Md5.Buf {
    Md5.Buf(Number(r.a), Number(r.b), Number(r.c), Number(r.d))
  }

  /** The transform as the streaming code sees it, on words. */
  function OnWords(ac: Additive): Md5.Transformer {
    (b: Md5.Buf, w: seq<word>) =>
      if |w| == 16 then ToBuf(Transform(ac, ToVectors(w), ToRegs(b))) else b
  }

  lemma OnWordsAgree(sb: Des.Boxes, crc: Checksum, ncrc: Checksum, b: Md5.Buf, w: seq<word>)
    ensures OnWords(RtuAdditive(sb, crc, ncrc))(b, w) == OnWords(CcAdditive())(b, w)
  {
    hide RtuAdditive, CcAdditive, Transform, ToVectors, ToRegs, ToBuf;
    if |w| == 16 {
      TransformsAgree(sb, crc, ncrc, ToVectors(w), ToRegs(b));
    }
  }

  lemma {:induction false} ChainsAgree(sb: Des.Boxes, crc: Checksum, ncrc: Checksum, s: seq<byte>, n: nat)
    requires 64 * n <= |s|
    ensures Md5.Chain(OnWords(RtuAdditive(sb, crc, ncrc)), s, n) == Md5.Chain(OnWords(CcAdditive()), s, n)
  {
    hide RtuAdditive, CcAdditive, OnWords, Md5.Words;
    if n > 0 {
      ChainsAgree(sb, crc, ncrc, s, n - 1);
      OnWordsAgree(sb, crc, ncrc, Md5.Chain(OnWords(CcAdditive()), s, n - 1), Md5.Words(s[64 * n - 64..64 * n]));
    }
  }

  /** rtu_MD5 and CC_MD5 give the same digest of every message, whatever the S-boxes hold and
      whatever the checksums compute. */
  lemma DigestsAgree(sb: Des.Boxes, crc: Checksum, ncrc: Checksum, m: seq<byte>)
    ensures Md5.Digest(OnWords(RtuAdditive(sb, crc, ncrc)), m) == Md5.Digest(OnWords(CcAdditive()), m)
  {
    hide RtuAdditive, CcAdditive, OnWords, Md5.Padded, Md5.Low, Md5.Chain;
    ChainsAgree(sb, crc, ncrc, Md5.Padded(m), |Md5.Padded(m)| / 64);
  }
}
