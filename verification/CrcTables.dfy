/**
 The CRC tables of das_util.c and board/rtcrc32.c against the bitwise registers they stand for.
 */
module CrcTables {

  /** One of sixteen values. */
  function Pick(c: bv8, v0: bv8, v1: bv8, v2: bv8, v3: bv8, v4: bv8, v5: bv8, v6: bv8, v7: bv8,
                v8: bv8, v9: bv8, vA: bv8, vB: bv8, vC: bv8, vD: bv8, vE: bv8, vF: bv8): bv8
  {
    if c == 0 then v0
    else if c == 1 then v1
    else if c == 2 then v2
    else if c == 3 then v3
    else if c == 4 then v4
    else if c == 5 then v5
    else if c == 6 then v6
    else if c == 7 then v7
    else if c == 8 then v8
    else if c == 9 then v9
    else if c == 10 then vA
    else if c == 11 then vB
    else if c == 12 then vC
    else if c == 13 then vD
    else if c == 14 then vE
    else vF
  }

  /** _aucCRCHi, in rows of sixteen. */
  function CrcHi(i: bv8): bv8 {
    var c := i & 0xF;
    match i >> 4
    case 0x0 => Pick(c, 0x00, 0xC1, 0x81, 0x40, 0x01, 0xC0, 0x80, 0x41, 0x01, 0xC0, 0x80, 0x41, 0x00, 0xC1, 0x81, 0x40)
    case 0x1 => Pick(c, 0x01, 0xC0, 0x80, 0x41, 0x00, 0xC1, 0x81, 0x40, 0x00, 0xC1, 0x81, 0x40, 0x01, 0xC0, 0x80, 0x41)
    case 0x2 => Pick(c, 0x01, 0xC0, 0x80, 0x41, 0x00, 0xC1, 0x81, 0x40, 0x00, 0xC1, 0x81, 0x40, 0x01, 0xC0, 0x80, 0x41)
    case 0x3 => Pick(c, 0x00, 0xC1, 0x81, 0x40, 0x01, 0xC0, 0x80, 0x41, 0x01, 0xC0, 0x80, 0x41, 0x00, 0xC1, 0x81, 0x40)
    case 0x4 => Pick(c, 0x01, 0xC0, 0x80, 0x41, 0x00, 0xC1, 0x81, 0x40, 0x00, 0xC1, 0x81, 0x40, 0x01, 0xC0, 0x80, 0x41)
    case 0x5 => Pick(c, 0x00, 0xC1, 0x81, 0x40, 0x01, 0xC0, 0x80, 0x41, 0x01, 0xC0, 0x80, 0x41, 0x00, 0xC1, 0x81, 0x40)
    case 0x6 => Pick(c, 0x00, 0xC1, 0x81, 0x40, 0x01, 0xC0, 0x80, 0x41, 0x01, 0xC0, 0x80, 0x41, 0x00, 0xC1, 0x81, 0x40)
    case 0x7 => Pick(c, 0x01, 0xC0, 0x80, 0x41, 0x00, 0xC1, 0x81, 0x40, 0x00, 0xC1, 0x81, 0x40, 0x01, 0xC0, 0x80, 0x41)
    case 0x8 => Pick(c, 0x01, 0xC0, 0x80, 0x41, 0x00, 0xC1, 0x81, 0x40, 0x00, 0xC1, 0x81, 0x40, 0x01, 0xC0, 0x80, 0x41)
    case 0x9 => Pick(c, 0x00, 0xC1, 0x81, 0x40, 0x01, 0xC0, 0x80, 0x41, 0x01, 0xC0, 0x80, 0x41, 0x00, 0xC1, 0x81, 0x40)
    case 0xA => Pick(c, 0x00, 0xC1, 0x81, 0x40, 0x01, 0xC0, 0x80, 0x41, 0x01, 0xC0, 0x80, 0x41, 0x00, 0xC1, 0x81, 0x40)
    case 0xB => Pick(c, 0x01, 0xC0, 0x80, 0x41, 0x00, 0xC1, 0x81, 0x40, 0x00, 0xC1, 0x81, 0x40, 0x01, 0xC0, 0x80, 0x41)
    case 0xC => Pick(c, 0x00, 0xC1, 0x81, 0x40, 0x01, 0xC0, 0x80, 0x41, 0x01, 0xC0, 0x80, 0x41, 0x00, 0xC1, 0x81, 0x40)
    case 0xD => Pick(c, 0x01, 0xC0, 0x80, 0x41, 0x00, 0xC1, 0x81, 0x40, 0x00, 0xC1, 0x81, 0x40, 0x01, 0xC0, 0x80, 0x41)
    case 0xE => Pick(c, 0x01, 0xC0, 0x80, 0x41, 0x00, 0xC1, 0x81, 0x40, 0x00, 0xC1, 0x81, 0x40, 0x01, 0xC0, 0x80, 0x41)
    case _ => Pick(c, 0x00, 0xC1, 0x81, 0x40, 0x01, 0xC0, 0x80, 0x41, 0x01, 0xC0, 0x80, 0x41, 0x00, 0xC1, 0x81, 0x40)
  }

  /** _aucCRCLo. */
  function CrcLo(i: bv8): bv8 {
    var c := i & 0xF;
    match i >> 4
    case 0x0 => Pick(c, 0x00, 0xC0, 0xC1, 0x01, 0xC3, 0x03, 0x02, 0xC2, 0xC6, 0x06, 0x07, 0xC7, 0x05, 0xC5, 0xC4, 0x04)
    case 0x1 => Pick(c, 0xCC, 0x0C, 0x0D, 0xCD, 0x0F, 0xCF, 0xCE, 0x0E, 0x0A, 0xCA, 0xCB, 0x0B, 0xC9, 0x09, 0x08, 0xC8)
    case 0x2 => Pick(c, 0xD8, 0x18, 0x19, 0xD9, 0x1B, 0xDB, 0xDA, 0x1A, 0x1E, 0xDE, 0xDF, 0x1F, 0xDD, 0x1D, 0x1C, 0xDC)
    case 0x3 => Pick(c, 0x14, 0xD4, 0xD5, 0x15, 0xD7, 0x17, 0x16, 0xD6, 0xD2, 0x12, 0x13, 0xD3, 0x11, 0xD1, 0xD0, 0x10)
    case 0x4 => Pick(c, 0xF0, 0x30, 0x31, 0xF1, 0x33, 0xF3, 0xF2, 0x32, 0x36, 0xF6, 0xF7, 0x37, 0xF5, 0x35, 0x34, 0xF4)
    case 0x5 => Pick(c, 0x3C, 0xFC, 0xFD, 0x3D, 0xFF, 0x3F, 0x3E, 0xFE, 0xFA, 0x3A, 0x3B, 0xFB, 0x39, 0xF9, 0xF8, 0x38)
    case 0x6 => Pick(c, 0x28, 0xE8, 0xE9, 0x29, 0xEB, 0x2B, 0x2A, 0xEA, 0xEE, 0x2E, 0x2F, 0xEF, 0x2D, 0xED, 0xEC, 0x2C)
    case 0x7 => Pick(c, 0xE4, 0x24, 0x25, 0xE5, 0x27, 0xE7, 0xE6, 0x26, 0x22, 0xE2, 0xE3, 0x23, 0xE1, 0x21, 0x20, 0xE0)
    case 0x8 => Pick(c, 0xA0, 0x60, 0x61, 0xA1, 0x63, 0xA3, 0xA2, 0x62, 0x66, 0xA6, 0xA7, 0x67, 0xA5, 0x65, 0x64, 0xA4)
    case 0x9 => Pick(c, 0x6C, 0xAC, 0xAD, 0x6D, 0xAF, 0x6F, 0x6E, 0xAE, 0xAA, 0x6A, 0x6B, 0xAB, 0x69, 0xA9, 0xA8, 0x68)
    case 0xA => Pick(c, 0x78, 0xB8, 0xB9, 0x79, 0xBB, 0x7B, 0x7A, 0xBA, 0xBE, 0x7E, 0x7F, 0xBF, 0x7D, 0xBD, 0xBC, 0x7C)
    case 0xB => Pick(c, 0xB4, 0x74, 0x75, 0xB5, 0x77, 0xB7, 0xB6, 0x76, 0x72, 0xB2, 0xB3, 0x73, 0xB1, 0x71, 0x70, 0xB0)
    case 0xC => Pick(c, 0x50, 0x90, 0x91, 0x51, 0x93, 0x53, 0x52, 0x92, 0x96, 0x56, 0x57, 0x97, 0x55, 0x95, 0x94, 0x54)
    case 0xD => Pick(c, 0x9C, 0x5C, 0x5D, 0x9D, 0x5F, 0x9F, 0x9E, 0x5E, 0x5A, 0x9A, 0x9B, 0x5B, 0x99, 0x59, 0x58, 0x98)
    case 0xE => Pick(c, 0x88, 0x48, 0x49, 0x89, 0x4B, 0x8B, 0x8A, 0x4A, 0x4E, 0x8E, 0x8F, 0x4F, 0x8D, 0x4D, 0x4C, 0x8C)
    case _ => Pick(c, 0x44, 0x84, 0x85, 0x45, 0x87, 0x47, 0x46, 0x86, 0x82, 0x42, 0x43, 0x83, 0x41, 0x81, 0x80, 0x40)
  }

  function PickWord(c: bv8, v0: bv32, v1: bv32, v2: bv32, v3: bv32, v4: bv32, v5: bv32, v6: bv32, v7: bv32,
                    v8: bv32, v9: bv32, vA: bv32, vB: bv32, vC: bv32, vD: bv32, vE: bv32, vF: bv32): bv32
  {
    if c == 0 then v0
    else if c == 1 then v1
    else if c == 2 then v2
    else if c == 3 then v3
    else if c == 4 then v4
    else if c == 5 then v5
    else if c == 6 then v6
    else if c == 7 then v7
    else if c == 8 then v8
    else if c == 9 then v9
    else if c == 10 then vA
    else if c == 11 then vB
    else if c == 12 then vC
    else if c == 13 then vD
    else if c == 14 then vE
    else vF
  }

  /** CRC32_TAB. */
  function Crc32Tab(i: bv8): bv32 {
    var c := i & 0xF;
    match i >> 4
    case 0x0 => PickWord(c, 0x00000000, 0x77073096, 0xEE0E612C, 0x990951BA, 0x076DC419, 0x706AF48F, 0xE963A535, 0x9E6495A3,
      0x0EDB8832, 0x79DCB8A4, 0xE0D5E91E, 0x97D2D988, 0x09B64C2B, 0x7EB17CBD, 0xE7B82D07, 0x90BF1D91)
    case 0x1 => PickWord(c, 0x1DB71064, 0x6AB020F2, 0xF3B97148, 0x84BE41DE, 0x1ADAD47D, 0x6DDDE4EB, 0xF4D4B551, 0x83D385C7,
      0x136C9856, 0x646BA8C0, 0xFD62F97A, 0x8A65C9EC, 0x14015C4F, 0x63066CD9, 0xFA0F3D63, 0x8D080DF5)
    case 0x2 => PickWord(c, 0x3B6E20C8, 0x4C69105E, 0xD56041E4, 0xA2677172, 0x3C03E4D1, 0x4B04D447, 0xD20D85FD, 0xA50AB56B,
      0x35B5A8FA, 0x42B2986C, 0xDBBBC9D6, 0xACBCF940, 0x32D86CE3, 0x45DF5C75, 0xDCD60DCF, 0xABD13D59)
    case 0x3 => PickWord(c, 0x26D930AC, 0x51DE003A, 0xC8D75180, 0xBFD06116, 0x21B4F4B5, 0x56B3C423, 0xCFBA9599, 0xB8BDA50F,
      0x2802B89E, 0x5F058808, 0xC60CD9B2, 0xB10BE924, 0x2F6F7C87, 0x58684C11, 0xC1611DAB, 0xB6662D3D)
    case 0x4 => PickWord(c, 0x76DC4190, 0x01DB7106, 0x98D220BC, 0xEFD5102A, 0x71B18589, 0x06B6B51F, 0x9FBFE4A5, 0xE8B8D433,
      0x7807C9A2, 0x0F00F934, 0x9609A88E, 0xE10E9818, 0x7F6A0DBB, 0x086D3D2D, 0x91646C97, 0xE6635C01)
    case 0x5 => PickWord(c, 0x6B6B51F4, 0x1C6C6162, 0x856530D8, 0xF262004E, 0x6C0695ED, 0x1B01A57B, 0x8208F4C1, 0xF50FC457,
      0x65B0D9C6, 0x12B7E950, 0x8BBEB8EA, 0xFCB9887C, 0x62DD1DDF, 0x15DA2D49, 0x8CD37CF3, 0xFBD44C65)
    case 0x6 => PickWord(c, 0x4DB26158, 0x3AB551CE, 0xA3BC0074, 0xD4BB30E2, 0x4ADFA541, 0x3DD895D7, 0xA4D1C46D, 0xD3D6F4FB,
      0x4369E96A, 0x346ED9FC, 0xAD678846, 0xDA60B8D0, 0x44042D73, 0x33031DE5, 0xAA0A4C5F, 0xDD0D7CC9)
    case 0x7 => PickWord(c, 0x5005713C, 0x270241AA, 0xBE0B1010, 0xC90C2086, 0x5768B525, 0x206F85B3, 0xB966D409, 0xCE61E49F,
      0x5EDEF90E, 0x29D9C998, 0xB0D09822, 0xC7D7A8B4, 0x59B33D17, 0x2EB40D81, 0xB7BD5C3B, 0xC0BA6CAD)
    case 0x8 => PickWord(c, 0xEDB88320, 0x9ABFB3B6, 0x03B6E20C, 0x74B1D29A, 0xEAD54739, 0x9DD277AF, 0x04DB2615, 0x73DC1683,
      0xE3630B12, 0x94643B84, 0x0D6D6A3E, 0x7A6A5AA8, 0xE40ECF0B, 0x9309FF9D, 0x0A00AE27, 0x7D079EB1)
    case 0x9 => PickWord(c, 0xF00F9344, 0x8708A3D2, 0x1E01F268, 0x6906C2FE, 0xF762575D, 0x806567CB, 0x196C3671, 0x6E6B06E7,
      0xFED41B76, 0x89D32BE0, 0x10DA7A5A, 0x67DD4ACC, 0xF9B9DF6F, 0x8EBEEFF9, 0x17B7BE43, 0x60B08ED5)
    case 0xA => PickWord(c, 0xD6D6A3E8, 0xA1D1937E, 0x38D8C2C4, 0x4FDFF252, 0xD1BB67F1, 0xA6BC5767, 0x3FB506DD, 0x48B2364B,
      0xD80D2BDA, 0xAF0A1B4C, 0x36034AF6, 0x41047A60, 0xDF60EFC3, 0xA867DF55, 0x316E8EEF, 0x4669BE79)
    case 0xB => PickWord(c, 0xCB61B38C, 0xBC66831A, 0x256FD2A0, 0x5268E236, 0xCC0C7795, 0xBB0B4703, 0x220216B9, 0x5505262F,
      0xC5BA3BBE, 0xB2BD0B28, 0x2BB45A92, 0x5CB36A04, 0xC2D7FFA7, 0xB5D0CF31, 0x2CD99E8B, 0x5BDEAE1D)
    case 0xC => PickWord(c, 0x9B64C2B0, 0xEC63F226, 0x756AA39C, 0x026D930A, 0x9C0906A9, 0xEB0E363F, 0x72076785, 0x05005713,
      0x95BF4A82, 0xE2B87A14, 0x7BB12BAE, 0x0CB61B38, 0x92D28E9B, 0xE5D5BE0D, 0x7CDCEFB7, 0x0BDBDF21)
    case 0xD => PickWord(c, 0x86D3D2D4, 0xF1D4E242, 0x68DDB3F8, 0x1FDA836E, 0x81BE16CD, 0xF6B9265B, 0x6FB077E1, 0x18B74777,
      0x88085AE6, 0xFF0F6A70, 0x66063BCA, 0x11010B5C, 0x8F659EFF, 0xF862AE69, 0x616BFFD3, 0x166CCF45)
    case 0xE => PickWord(c, 0xA00AE278, 0xD70DD2EE, 0x4E048354, 0x3903B3C2, 0xA7672661, 0xD06016F7, 0x4969474D, 0x3E6E77DB,
      0xAED16A4A, 0xD9D65ADC, 0x40DF0B66, 0x37D83BF0, 0xA9BCAE53, 0xDEBB9EC5, 0x47B2CF7F, 0x30B5FFE9)
    case _ => PickWord(c, 0xBDBDF21C, 0xCABAC28A, 0x53B39330, 0x24B4A3A6, 0xBAD03605, 0xCDD70693, 0x54DE5729, 0x23D967BF,
      0xB3667A2E, 0xC4614AB8, 0x5D681B02, 0x2A6F2B94, 0xB40BBE37, 0xC30C8EA1, 0x5A05DF1B, 0x2D02EF8D)
  }

  // ---------------------------------------------------------------- MODBUS over Serial Line V1.02, section 6.2.2

  /** One shift to the right; a bit that falls out xors 0xA001 in. */
  function Shift(c: bv16): bv16 {
    if c & 1 == 1 then (c >> 1) ^ 0xA001 else c >> 1
  }

  function ShiftBy8(c: bv16): bv16 {
    Shift(Shift(Shift(Shift(Shift(Shift(Shift(Shift(c))))))))
  }

  /** The register after one byte. */
  function CrcByte(c: bv16, b: bv8): bv16 {
    ShiftBy8(Feed(c, b))
  }

  function Feed(c: bv16, b: bv8): bv16 {
    c ^ (b as bv16)
  }

  lemma HiQuarter0(i: bv8)
    requires i >> 6 == 0
    ensures CrcHi(i) as bv16 == ShiftBy8(i as bv16) & 0xFF
  {
  }

  lemma HiQuarter1(i: bv8)
    requires i >> 6 == 1
    ensures CrcHi(i) as bv16 == ShiftBy8(i as bv16) & 0xFF
  {
  }

  lemma HiQuarter2(i: bv8)
    requires i >> 6 == 2
    ensures CrcHi(i) as bv16 == ShiftBy8(i as bv16) & 0xFF
  {
  }

  lemma HiQuarter3(i: bv8)
    requires i >> 6 == 3
    ensures CrcHi(i) as bv16 == ShiftBy8(i as bv16) & 0xFF
  {
  }

  /** The two tables hold the two bytes of eight shifts. */
  lemma HiIsShifts(i: bv8)
    ensures CrcHi(i) as bv16 == ShiftBy8(i as bv16) & 0xFF
  {
    hide CrcHi, ShiftBy8;
    match i >> 6
    case 0 => HiQuarter0(i);
    case 1 => HiQuarter1(i);
    case 2 => HiQuarter2(i);
    case _ => HiQuarter3(i);
  }

  lemma Zero()
    ensures CrcLo(0) == 0 && ShiftBy8(0) == 0 && Crc32Tab(0) == 0 && Shift32By8(0) == 0
  {
  }

  lemma LoRow0(i: bv8)
    requires i >> 4 == 0 && i != 0
    ensures CrcLo(i) as bv16 == ShiftBy8(i as bv16) >> 8
  {
  }

  lemma LoQuarter0(i: bv8)
    requires i >> 6 == 0 && i >> 4 != 0
    ensures CrcLo(i) as bv16 == ShiftBy8(i as bv16) >> 8
  {
  }

  lemma LoQuarter1(i: bv8)
    requires i >> 6 == 1
    ensures CrcLo(i) as bv16 == ShiftBy8(i as bv16) >> 8
  {
  }

  lemma LoQuarter2(i: bv8)
    requires i >> 6 == 2
    ensures CrcLo(i) as bv16 == ShiftBy8(i as bv16) >> 8
  {
  }

  lemma LoQuarter3(i: bv8)
    requires i >> 6 == 3
    ensures CrcLo(i) as bv16 == ShiftBy8(i as bv16) >> 8
  {
  }

  lemma LoIsShifts(i: bv8)
    ensures CrcLo(i) as bv16 == ShiftBy8(i as bv16) >> 8
  {
    hide CrcLo, ShiftBy8;
    match i >> 6
    case 0 => if i == 0 { Zero(); } else if i >> 4 == 0 { LoRow0(i); } else { LoQuarter0(i); }
    case 1 => LoQuarter1(i);
    case 2 => LoQuarter2(i);
    case _ => LoQuarter3(i);
  }

  /** ucCRCHi << 8 | ucCRCLo. */
  function Both(hi: bv8, lo: bv8): bv16 {
    ((hi as bv16) << 8) | (lo as bv16)
  }

  function Xor16(a: bv16, b: bv16): bv16 {
    a ^ b
  }

  function Xor8(a: bv8, b: bv8): bv8 {
    a ^ b
  }

  function Wide(b: bv8): bv16 {
    b as bv16
  }

  lemma ShiftBothOdd(a: bv16, b: bv16)
    requires a & 1 == 1 && b & 1 == 1
    ensures Shift(a ^ b) == Shift(a) ^ Shift(b)
  {
    assert (a ^ b) & 1 == 0;
  }

  lemma ShiftOneOdd(a: bv16, b: bv16)
    requires a & 1 == 1 && b & 1 != 1
    ensures Shift(a ^ b) == Shift(a) ^ Shift(b)
  {
    assert (a ^ b) & 1 == 1;
  }

  lemma ShiftNoneOdd(a: bv16, b: bv16)
    requires a & 1 != 1 && b & 1 != 1
    ensures Shift(a ^ b) == Shift(a) ^ Shift(b)
  {
    assert (a ^ b) & 1 != 1;
  }

  lemma XorSwaps(a: bv16, b: bv16)
    ensures a ^ b == b ^ a
  {
  }

  lemma ShiftXor(a: bv16, b: bv16)
    ensures Shift(Xor16(a, b)) == Xor16(Shift(a), Shift(b))
  {
    hide Shift;
    if a & 1 == 1 && b & 1 == 1 {
      ShiftBothOdd(a, b);
    } else if a & 1 == 1 {
      ShiftOneOdd(a, b);
    } else if b & 1 == 1 {
      ShiftOneOdd(b, a);
      XorSwaps(a, b);
      XorSwaps(Shift(a), Shift(b));
    } else {
      ShiftNoneOdd(a, b);
    }
  }

  /** Shifting is linear. */
  lemma ShiftBy8Xor(a: bv16, b: bv16)
    ensures ShiftBy8(Xor16(a, b)) == Xor16(ShiftBy8(a), ShiftBy8(b))
  {
    hide Shift, Xor16;
    var a1, b1 := Shift(a), Shift(b);
    var a2, b2 := Shift(a1), Shift(b1);
    var a3, b3 := Shift(a2), Shift(b2);
    var a4, b4 := Shift(a3), Shift(b3);
    var a5, b5 := Shift(a4), Shift(b4);
    var a6, b6 := Shift(a5), Shift(b5);
    var a7, b7 := Shift(a6), Shift(b6);
    ShiftXor(a, b);
    ShiftXor(a1, b1);
    ShiftXor(a2, b2);
    ShiftXor(a3, b3);
    ShiftXor(a4, b4);
    ShiftXor(a5, b5);
    ShiftXor(a6, b6);
    ShiftXor(a7, b7);
  }

  function High(hi: bv8): bv16 {
    (hi as bv16) << 8
  }

  lemma BothIsXor(hi: bv8, lo: bv8)
    ensures Both(hi, lo) == Xor16(High(hi), Wide(lo))
  {
  }

  lemma HighComesDown(hi: bv8)
    ensures ShiftBy8(High(hi)) == Wide(hi)
  {
  }

  /** Eight shifts take the high byte down and the low byte through the table. */
  lemma ShiftBoth(hi: bv8, lo: bv8)
    ensures ShiftBy8(Both(hi, lo)) == Xor16(Wide(hi), ShiftBy8(Wide(lo)))
  {
    hide ShiftBy8, Both, Xor16, Wide, High;
    BothIsXor(hi, lo);
    ShiftBy8Xor(High(hi), Wide(lo));
    HighComesDown(hi);
  }

  /** The two tables hold the two bytes of eight shifts, low byte first. */
  lemma TablesAreShifts(i: bv8)
    ensures ShiftBy8(Wide(i)) == Both(CrcLo(i), CrcHi(i))
  {
    hide CrcLo, CrcHi, ShiftBy8;
    HiIsShifts(i);
    LoIsShifts(i);
    TwoHalves(ShiftBy8(i as bv16), CrcLo(i), CrcHi(i));
  }

  lemma TwoHalves(t: bv16, l: bv8, h: bv8)
    requires h as bv16 == t & 0xFF && l as bv16 == t >> 8
    ensures t == Both(l, h)
  {
  }

  /** Eight shifts leave the high byte empty only if the low byte was. */
  lemma ShiftHighByte(c: bv16)
    ensures ShiftBy8(c) < 0x100 <==> c & 0xFF == 0
    ensures c & 0xFF == 0 ==> ShiftBy8(c) == c >> 8
    ensures ShiftBy8(c) == 0 <==> c == 0
  {
  }

  // ---------------------------------------------------------------- the reflected CRC-32

  function Shift32(c: bv32): bv32 {
    if c & 1 == 1 then (c >> 1) ^ 0xEDB88320 else c >> 1
  }

  function Shift32By8(c: bv32): bv32 {
    Shift32(Shift32(Shift32(Shift32(Shift32(Shift32(Shift32(Shift32(c))))))))
  }

  lemma Row0(i: bv8)
    requires i >> 4 == 0 && i != 0
    ensures Crc32Tab(i) == Shift32By8(i as bv32)
  {
    hide Crc32Tab, Shift32By8;
    if i >> 3 == 0 { Row0Low(i); } else { Row0High(i); }
  }

  lemma Row0Low(i: bv8)
    requires i >> 3 == 0 && i != 0
    ensures Crc32Tab(i) == Shift32By8(i as bv32)
  {
  }

  lemma Row0High(i: bv8)
    requires i >> 3 == 1
    ensures Crc32Tab(i) == Shift32By8(i as bv32)
  {
  }

  lemma Row1(i: bv8)
    requires i >> 4 == 1
    ensures Crc32Tab(i) == Shift32By8(i as bv32)
  {
  }

  lemma Row2(i: bv8)
    requires i >> 4 == 2
    ensures Crc32Tab(i) == Shift32By8(i as bv32)
  {
  }

  lemma Row3(i: bv8)
    requires i >> 4 == 3
    ensures Crc32Tab(i) == Shift32By8(i as bv32)
  {
  }

  lemma Row4(i: bv8)
    requires i >> 4 == 4
    ensures Crc32Tab(i) == Shift32By8(i as bv32)
  {
  }

  lemma Row5(i: bv8)
    requires i >> 4 == 5
    ensures Crc32Tab(i) == Shift32By8(i as bv32)
  {
  }

  lemma Row6(i: bv8)
    requires i >> 4 == 6
    ensures Crc32Tab(i) == Shift32By8(i as bv32)
  {
  }

  lemma Row7(i: bv8)
    requires i >> 4 == 7
    ensures Crc32Tab(i) == Shift32By8(i as bv32)
  {
  }

  lemma Row8(i: bv8)
    requires i >> 4 == 8
    ensures Crc32Tab(i) == Shift32By8(i as bv32)
  {
  }

  lemma Row9(i: bv8)
    requires i >> 4 == 9
    ensures Crc32Tab(i) == Shift32By8(i as bv32)
  {
  }

  lemma Row10(i: bv8)
    requires i >> 4 == 10
    ensures Crc32Tab(i) == Shift32By8(i as bv32)
  {
  }

  lemma Row11(i: bv8)
    requires i >> 4 == 11
    ensures Crc32Tab(i) == Shift32By8(i as bv32)
  {
  }

  lemma Row12(i: bv8)
    requires i >> 4 == 12
    ensures Crc32Tab(i) == Shift32By8(i as bv32)
  {
  }

  lemma Row13(i: bv8)
    requires i >> 4 == 13
    ensures Crc32Tab(i) == Shift32By8(i as bv32)
  {
  }

  lemma Row14(i: bv8)
    requires i >> 4 == 14
    ensures Crc32Tab(i) == Shift32By8(i as bv32)
  {
  }

  lemma Row15(i: bv8)
    requires i >> 4 == 15
    ensures Crc32Tab(i) == Shift32By8(i as bv32)
  {
  }

  /** CRC32_TAB holds eight shifts of its index. */
  lemma Table32IsShifts(i: bv8)
    ensures Crc32Tab(i) == Shift32By8(Wide32(i))
  {
    hide Crc32Tab, Shift32By8;
    match i >> 4
    case 0 => if i == 0 { Zero(); } else { Row0(i); }
    case 1 => Row1(i);
    case 2 => Row2(i);
    case 3 => Row3(i);
    case 4 => Row4(i);
    case 5 => Row5(i);
    case 6 => Row6(i);
    case 7 => Row7(i);
    case 8 => Row8(i);
    case 9 => Row9(i);
    case 10 => Row10(i);
    case 11 => Row11(i);
    case 12 => Row12(i);
    case 13 => Row13(i);
    case 14 => Row14(i);
    case _ => Row15(i);
  }

  function Wide32(b: bv8): bv32 {
    b as bv32
  }

  function Low32(c: bv32): bv8 {
    (c & 0xFF) as bv8
  }

  function Down(c: bv32): bv32 {
    c >> 8
  }

  lemma Shift32Xor(a: bv32, b: bv32)
    ensures Shift32(Xor32(a, b)) == Xor32(Shift32(a), Shift32(b))
  {
    hide Shift32;
    Shift32Linear(a, b);
  }

  lemma Shift32Linear(a: bv32, b: bv32)
    ensures Shift32(a ^ b) == Shift32(a) ^ Shift32(b)
  {
    hide Shift32;
    if a & 1 == 1 && b & 1 == 1 {
      BothOdd(a, b);
    } else if a & 1 == 1 {
      OneOdd(a, b);
    } else if b & 1 == 1 {
      OneOdd(b, a);
      assert a ^ b == b ^ a;
      XorSwaps32(Shift32(a), Shift32(b));
    } else {
      NoneOdd(a, b);
    }
  }

  lemma XorSwaps32(a: bv32, b: bv32)
    ensures a ^ b == b ^ a
  {
  }

  lemma BothOdd(a: bv32, b: bv32)
    requires a & 1 == 1 && b & 1 == 1
    ensures Shift32(a ^ b) == Shift32(a) ^ Shift32(b)
  {
    assert (a ^ b) & 1 == 0;
  }

  lemma OneOdd(a: bv32, b: bv32)
    requires a & 1 == 1 && b & 1 != 1
    ensures Shift32(a ^ b) == Shift32(a) ^ Shift32(b)
  {
    assert (a ^ b) & 1 == 1;
  }

  lemma NoneOdd(a: bv32, b: bv32)
    requires a & 1 != 1 && b & 1 != 1
    ensures Shift32(a ^ b) == Shift32(a) ^ Shift32(b)
  {
    assert (a ^ b) & 1 != 1;
  }

  function Xor32(a: bv32, b: bv32): bv32 {
    a ^ b
  }

  lemma Shift32By8Xor(a: bv32, b: bv32)
    ensures Shift32By8(Xor32(a, b)) == Xor32(Shift32By8(a), Shift32By8(b))
  {
    hide Shift32, Xor32;
    Shift32Xor(a, b);
    var a1, b1 := Shift32(a), Shift32(b);
    Shift32Xor(a1, b1);
    var a2, b2 := Shift32(a1), Shift32(b1);
    Shift32Xor(a2, b2);
    var a3, b3 := Shift32(a2), Shift32(b2);
    Shift32Xor(a3, b3);
    var a4, b4 := Shift32(a3), Shift32(b3);
    Shift32Xor(a4, b4);
    var a5, b5 := Shift32(a4), Shift32(b4);
    Shift32Xor(a5, b5);
    var a6, b6 := Shift32(a5), Shift32(b5);
    Shift32Xor(a6, b6);
    Shift32Xor(Shift32(a6), Shift32(b6));
  }

  /** Eight shifts take the upper bytes down and the low byte through the table. */
  lemma Shift32Splits(c: bv32)
    ensures Shift32By8(c) == Xor32(Down(c), Shift32By8(Wide32(Low32(c))))
  {
    hide Shift32By8, Xor32, Down, Wide32, Low32, Upper;
    Shift32By8Xor(Upper(c), Wide32(Low32(c)));
    UpperBytes(c);
  }

  function Upper(c: bv32): bv32 {
    c & 0xFFFF_FF00
  }

  lemma UpperBytes(c: bv32)
    ensures Shift32By8(Upper(c)) == Down(c)
    ensures Xor32(Upper(c), Wide32(Low32(c))) == c
  {
  }
}
