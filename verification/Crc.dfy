/** das_crc16 of das_util.c and ulRTCrc32 of board/rtcrc32.c. */
module Crc {
  import opened CrcTables

  // ---------------------------------------------------------------- das_crc16

  /** The CRC of MODBUS over Serial Line V1.02, section 6.2.2, from a register. */
  function CrcFrom(c: bv16, s: seq<bv8>): bv16 {
    if s == [] then c else CrcByte(CrcFrom(c, s[..|s| - 1]), s[|s| - 1])
  }

  function Crc16(s: seq<bv8>): bv16 {
    CrcFrom(0xFFFF, s)
  }

  lemma FeedLow(hi: bv8, lo: bv8, b: bv8)
    ensures Feed(Both(hi, lo), b) == Both(hi, Xor8(lo, b))
  {
  }

  lemma BothXor(hi: bv8, l: bv8, h: bv8)
    ensures Xor16(Wide(hi), Both(l, h)) == Both(l, Xor8(hi, h))
  {
  }

  /** One table step on the two registers is eight shifts of the bitwise register. */
  lemma TableStep(hi: bv8, lo: bv8, b: bv8)
    ensures CrcByte(Both(hi, lo), b) == Both(CrcLo(Xor8(lo, b)), Xor8(hi, CrcHi(Xor8(lo, b))))
  {
    hide CrcHi, CrcLo, ShiftBy8, Both, Feed, Xor8, Xor16, Wide;
    var i := Xor8(lo, b);
    FeedLow(hi, lo, b);
    ShiftBoth(hi, i);
    TablesAreShifts(i);
    BothXor(hi, CrcLo(i), CrcHi(i));
  }

  /** das_crc16: the two table registers compute the bitwise CRC of every buffer. */
  method DasCrc16(data: array<bv8>, len: nat) returns (crc: bv16)
    requires len <= data.Length
    ensures crc == Crc16(data[..len])
  {
    hide CrcHi, CrcLo, CrcByte, Both, Xor8;
    var hi: bv8, lo: bv8 := 0xFF, 0xFF;
    StartRegister();
    for i := 0 to len
      invariant Both(hi, lo) == Crc16(data[..i])
    {
      var index := Xor8(lo, data[i]);
      TableStep(hi, lo, data[i]);
      lo := Xor8(hi, CrcHi(index));
      hi := CrcLo(index);
      assert data[..i + 1][..i] == data[..i];
    }
    crc := Both(hi, lo);
  }

  lemma StartRegister()
    ensures Both(0xFF, 0xFF) == 0xFFFF
  {
  }

  /** What a sender puts behind a frame: the CRC, low byte first. */
  function Trailer(s: seq<bv8>): (t: seq<bv8>)
    ensures |t| == 2
  {
    [LowOf(Crc16(s)), HighOf(Crc16(s))]
  }

  function LowOf(c: bv16): bv8 {
    (c & 0xFF) as bv8
  }

  function HighOf(c: bv16): bv8 {
    (c >> 8) as bv8
  }

  /** After two bytes the register is zero exactly if they were its own two bytes. */
  lemma TwoBytes(c: bv16, a: bv8, b: bv8)
    ensures CrcByte(CrcByte(c, a), b) == 0 <==> a == LowOf(c) && b == HighOf(c)
  {
    hide ShiftBy8, Feed, LowOf, HighOf;
    var d := CrcByte(c, a);
    ShiftHighByte(Feed(d, b));
    ShiftHighByte(Feed(c, a));
    ZeroFeed(d, b);
    LowFeed(c, a);
    HighIs(c, b);
  }

  lemma ZeroFeed(d: bv16, b: bv8)
    ensures Feed(d, b) == 0 <==> d < 0x100 && d == b as bv16
  {
  }

  lemma LowFeed(c: bv16, a: bv8)
    ensures Feed(c, a) & 0xFF == 0 <==> a == LowOf(c)
    ensures Feed(c, a) >> 8 == c >> 8
  {
  }

  lemma HighIs(c: bv16, b: bv8)
    ensures c >> 8 == b as bv16 <==> b == HighOf(c)
    ensures c >> 8 < 0x100
  {
  }

  /** A frame has CRC zero exactly if it ends in the CRC of the rest. */
  lemma Residue(s: seq<bv8>)
    requires |s| >= 2
    ensures Crc16(s) == 0 <==> s[|s| - 2..] == Trailer(s[..|s| - 2])
  {
    hide CrcByte, LowOf, HighOf;
    var q, r := s[..|s| - 1], s[..|s| - 2];
    assert q[..|q| - 1] == r;
    assert Crc16(s) == CrcByte(Crc16(q), s[|s| - 1]) && Crc16(q) == CrcByte(Crc16(r), s[|s| - 2]);
    TwoBytes(Crc16(r), s[|s| - 2], s[|s| - 1]);
    assert s[|s| - 2..] == [s[|s| - 2], s[|s| - 1]];
  }

  lemma CrcMore(s: seq<bv8>, b: bv8)
    ensures Crc16(s + [b]) == CrcByte(Crc16(s), b)
  {
    assert (s + [b])[..|s|] == s;
  }

  /** The example of that section: the frame 02 07 has the CRC 0x1241. */
  lemma StandardExample()
    ensures Crc16([0x02, 0x07]) == 0x1241 && Trailer([0x02, 0x07]) == [0x41, 0x12]
  {
    hide Crc16;
    NoBytes();
    CrcMore([], 0x02);
    CrcMore([0x02], 0x07);
    assert [] + [0x02 as bv8] == [0x02];
    assert [0x02 as bv8] + [0x07] == [0x02, 0x07];
  }

  lemma NoBytes()
    ensures Crc16([]) == 0xFFFF
  {
  }

  // ---------------------------------------------------------------- ulRTCrc32

  /** The bitwise register of the reflected CRC-32. */
  function Register32(c: bv32, s: seq<bv8>): bv32 {
    if s == [] then c else Shift32By8(Feed32(Register32(c, s[..|s| - 1]), s[|s| - 1]))
  }

  function Feed32(c: bv32, b: bv8): bv32 {
    c ^ (b as bv32)
  }

  /** The table step: CRC32_TAB[(c ^ b) & 0xFF] ^ (c >> 8). */
  function Lookup32(c: bv32, b: bv8): bv32 {
    Xor32(Crc32Tab(Low32(Feed32(c, b))), Down(c))
  }

  function Not(c: bv32): bv32 {
    c ^ 0xFFFF_FFFF
  }

  /** What ulRTCrc32 returns for a running CRC. */
  function Crc32(c: bv32, s: seq<bv8>): bv32 {
    Not(Register32(Not(c), s))
  }

  lemma NotNot(c: bv32)
    ensures Not(Not(c)) == c
  {
  }

  lemma TableStep32(c: bv32, b: bv8)
    ensures Shift32By8(Feed32(c, b)) == Lookup32(c, b)
  {
    hide Crc32Tab, Shift32By8, Feed32, Low32, Down, Xor32, Wide32;
    var d := Feed32(c, b);
    Shift32Splits(d);
    Table32IsShifts(Low32(d));
    FedDown(c, b);
    XorSwaps(Down(c), Crc32Tab(Low32(d)));
  }

  lemma FedDown(c: bv32, b: bv8)
    ensures Down(Feed32(c, b)) == Down(c)
  {
  }

  lemma XorSwaps(a: bv32, b: bv32)
    ensures Xor32(a, b) == Xor32(b, a)
  {
  }

  /** ulRTCrc32. */
  method UlRTCrc32(ulCrc: bv32, data: array<bv8>, from: nat, len: nat) returns (crc: bv32)
    requires from + len <= data.Length
    ensures crc == Crc32(ulCrc, data[from..from + len])
  {
    hide Lookup32, Feed32, Shift32By8, Not;
    crc := Not(ulCrc);
    for i := 0 to len
      invariant crc == Register32(Not(ulCrc), data[from..from + i])
    {
      var b := data[from + i];
      TableStep32(crc, b);
      assert data[from..from + i + 1][..i] == data[from..from + i];
      crc := Lookup32(crc, b);
    }
    crc := Not(crc);
  }

  lemma {:induction false} RegisterChunks(c: bv32, s: seq<bv8>, t: seq<bv8>)
    ensures Register32(c, s + t) == Register32(Register32(c, s), t)
  {
    hide Shift32By8;
    if t == [] {
      assert s + t == s;
    } else {
      assert (s + t)[..|s + t| - 1] == s + t[..|t| - 1];
      RegisterChunks(c, s, t[..|t| - 1]);
    }
  }

  /** Feeding a buffer in two calls gives what one call gives. */
  lemma Chunks(c: bv32, s: seq<bv8>, t: seq<bv8>)
    ensures Crc32(Crc32(c, s), t) == Crc32(c, s + t)
  {
    hide Not, Register32;
    NotNot(Register32(Not(c), s));
    RegisterChunks(Not(c), s, t);
  }

  /** Any number of calls of ulRTCrc32 on consecutive parts. */
  method InParts(data: array<bv8>, lengths: seq<nat>, start: bv32) returns (crc: bv32, end: nat)
    requires Total(lengths) <= data.Length
    ensures end == Total(lengths) && crc == Crc32(start, data[..end])
  {
    hide Crc32;
    crc, end := start, 0;
    NothingFed(start);
    assert data[..0] == [];
    for i := 0 to |lengths|
      invariant end == Total(lengths[..i]) <= data.Length && crc == Crc32(start, data[..end])
    {
      assert lengths[..i + 1][..i] == lengths[..i];
      TotalGrows(lengths, i + 1);
      Chunks(start, data[..end], data[end..end + lengths[i]]);
      assert data[..end] + data[end..end + lengths[i]] == data[..end + lengths[i]];
      crc := UlRTCrc32(crc, data, end, lengths[i]);
      end := end + lengths[i];
    }
    assert lengths[..|lengths|] == lengths;
  }

  function Total(lengths: seq<nat>): nat {
    if lengths == [] then 0 else Total(lengths[..|lengths| - 1]) + lengths[|lengths| - 1]
  }

  lemma {:induction false} TotalGrows(lengths: seq<nat>, i: nat)
    requires i <= |lengths|
    ensures Total(lengths[..i]) <= Total(lengths)
    decreases |lengths| - i
  {
    if i < |lengths| {
      assert lengths[..i + 1][..i] == lengths[..i];
      TotalGrows(lengths, i + 1);
    } else {
      assert lengths[..i] == lengths;
    }
  }

  lemma NothingFed(c: bv32)
    ensures Crc32(c, []) == c
  {
    NotNot(c);
  }

  lemma RegisterStep(c: bv32, s: seq<bv8>, k: nat, d: bv32)
    requires k < |s| && Shift32By8(Feed32(Register32(c, s[..k]), s[k])) == d
    ensures Register32(c, s[..k + 1]) == d
  {
    assert s[..k + 1][..k] == s[..k];
  }

  /** The check value of CRC-32: that of the digits 1 to 9 is 0xCBF43926. */
  lemma CheckValue()
    ensures Crc32(0, [0x31, 0x32, 0x33, 0x34, 0x35, 0x36, 0x37, 0x38, 0x39]) == 0xCBF43926
  {
    hide Register32;
    var c: bv32 := 0xFFFF_FFFF;
    var s: seq<bv8> := [0x31, 0x32, 0x33, 0x34, 0x35, 0x36, 0x37, 0x38, 0x39];
    assert s[..0] == [] && s[..9] == s;
    NothingShifted(c);
    RegisterStep(c, s, 0, 0x7C231048);
    RegisterStep(c, s, 1, 0xB0ACBB32);
    RegisterStep(c, s, 2, 0x77B79C2D);
    RegisterStep(c, s, 3, 0x641C1F5C);
    RegisterStep(c, s, 4, 0x340AC5E3);
    RegisterStep(c, s, 5, 0xF68D2C9E);
    RegisterStep(c, s, 6, 0xAFFC9660);
    RegisterStep(c, s, 7, 0x651F2550);
    RegisterStep(c, s, 8, 0x340BC6D9);
  }

  lemma NothingShifted(c: bv32)
    ensures Register32(c, []) == c
  {
  }
}
