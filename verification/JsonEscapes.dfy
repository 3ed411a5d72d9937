/**
 What the escapes of a string literal stand for, against the definitions of the encodings themselves:
 the byte patterns of UTF-8 (section 4 of RFC 3629), the surrogate pairs of UTF-16 (section 2.1 of
 RFC 2781) and the letters of section 7 of RFC 8259.
 */
module JsonEscapes {
  import opened JsonText

  // ---------------------------------------------------------------- hexadecimal digits

  const LOWER := "0123456789abcdef"
  const UPPER := "0123456789ABCDEF"

  /** c is the digit of value v, in either case. */
  predicate Spells(c: char, v: nat)
    requires v < 16
  {
    c == LOWER[v] || c == UPPER[v]
  }

  /** d is the number v in four digits, the highest first. */
  predicate SpellsUnit(d: string, v: nat)
    requires v < 0x1_0000
  {
    && |d| == 4
    && Spells(d[0], v / 4096)
    && Spells(d[1], v / 256 % 16)
    && Spells(d[2], v / 16 % 16)
    && Spells(d[3], v % 16)
  }

  lemma DigitSpells(c: char, v: nat)
    requires v < 16
    ensures HexDigit(c) == v <==> Spells(c, v)
  {
    LowerDigits(c, v);
    UpperDigits(c, v);
  }

  lemma LowerDigits(c: char, v: nat)
    requires v < 16
    ensures c == LOWER[v] <==> c as int == (if v < 10 then 48 + v else 87 + v)
  {
    assert LOWER[v] as int == if v < 10 then 48 + v else 87 + v;
  }

  lemma UpperDigits(c: char, v: nat)
    requires v < 16
    ensures c == UPPER[v] <==> c as int == (if v < 10 then 48 + v else 55 + v)
  {
    assert UPPER[v] as int == if v < 10 then 48 + v else 55 + v;
  }

  /** parse_hex4 gives a number other than 0 exactly if its four digits stand there; whatever else
      stands there counts as 0. */
  lemma UnitRead(t: string, v: nat)
    requires 0 < v < 0x1_0000
    ensures Hex4(t) == v <==> |t| >= 4 && SpellsUnit(t[..4], v)
  {
    hide HexDigit, Spells, Hex4, SpellsUnit;
    if |t| >= 4 {
      Hex4Is(t);
      DigitRange(t[0]);
      DigitRange(t[1]);
      DigitRange(t[2]);
      DigitRange(t[3]);
      FourDigits(HexDigit(t[0]), HexDigit(t[1]), HexDigit(t[2]), HexDigit(t[3]), v);
      SpellsIs(t, v);
    } else {
      assert Hex4(t) == 0;
    }
  }

  lemma Hex4Is(t: string)
    requires |t| >= 4
    ensures Hex4(t) == if HexDigit(t[0]) >= 0 && HexDigit(t[1]) >= 0 && HexDigit(t[2]) >= 0 && HexDigit(t[3]) >= 0
                       then 0x1000 * HexDigit(t[0]) + 0x100 * HexDigit(t[1]) + 0x10 * HexDigit(t[2]) + HexDigit(t[3])
                       else 0
  {
    hide HexDigit;
  }

  lemma SpellsIs(t: string, v: nat)
    requires |t| >= 4 && v < 0x1_0000
    ensures SpellsUnit(t[..4], v) <==>
              && HexDigit(t[0]) == v / 4096 && HexDigit(t[1]) == v / 256 % 16
              && HexDigit(t[2]) == v / 16 % 16 && HexDigit(t[3]) == v % 16
  {
    hide HexDigit, Spells;
    var d := t[..4];
    assert d[0] == t[0] && d[1] == t[1] && d[2] == t[2] && d[3] == t[3];
    DigitSpells(t[0], v / 4096);
    DigitSpells(t[1], v / 256 % 16);
    DigitSpells(t[2], v / 16 % 16);
    DigitSpells(t[3], v % 16);
  }

  lemma FourDigits(a: int, b: int, c: int, d: int, v: int)
    requires a < 16 && b < 16 && c < 16 && d < 16 && 0 < v < 0x1_0000
    ensures (a >= 0 && b >= 0 && c >= 0 && d >= 0 && 0x1000 * a + 0x100 * b + 0x10 * c + d == v)
            <==> (a == v / 4096 && b == v / 256 % 16 && c == v / 16 % 16 && d == v % 16)
  {
    Shifts(v);
    if a >= 0 && b >= 0 && c >= 0 && d >= 0 && 0x1000 * a + 0x100 * b + 0x10 * c + d == v {
      LastDigit(v, 0x100 * a + 0x10 * b + c, d);
      LastDigit(v / 16, 0x10 * a + b, c);
      LastDigit(v / 256, a, b);
    }
  }

  lemma Shifts(v: nat)
    ensures v / 256 == v / 16 / 16 && v / 4096 == v / 256 / 16
    ensures v == 16 * (v / 16) + v % 16 && v / 16 == 16 * (v / 256) + v / 16 % 16 && v / 256 == 16 * (v / 4096) + v / 256 % 16
  {
  }

  lemma LastDigit(v: nat, q: nat, r: nat)
    requires v == 16 * q + r && r < 16
    ensures v / 16 == q && v % 16 == r
  {
  }

  lemma DigitRange(c: char)
    ensures -1 <= HexDigit(c) < 16
  {
  }

  // ---------------------------------------------------------------- UTF-8

  predicate Between(c: char, low: int, high: int) {
    low <= c as int <= high
  }

  predicate Continues(c: char) {
    Between(c, 0x80, 0xBF)
  }

  /** The byte sequences of RFC 3629: no overlong form, no surrogate, nothing above 0x10FFFF. */
  predicate Utf8Char(b: string) {
    match |b|
    case 1 => Between(b[0], 0, 0x7F)
    case 2 => Between(b[0], 0xC2, 0xDF) && Continues(b[1])
    case 3 =>
      && Continues(b[2])
      && (|| (Between(b[0], 0xE0, 0xE0) && Between(b[1], 0xA0, 0xBF))
          || (Between(b[0], 0xE1, 0xEC) && Continues(b[1]))
          || (Between(b[0], 0xED, 0xED) && Between(b[1], 0x80, 0x9F))
          || (Between(b[0], 0xEE, 0xEF) && Continues(b[1])))
    case 4 =>
      && Continues(b[2])
      && Continues(b[3])
      && (|| (Between(b[0], 0xF0, 0xF0) && Between(b[1], 0x90, 0xBF))
          || (Between(b[0], 0xF1, 0xF3) && Continues(b[1]))
          || (Between(b[0], 0xF4, 0xF4) && Between(b[1], 0x80, 0x8F)))
    case _ => false
  }

  /** The bits behind the marks of the bytes, the first byte's highest. */
  function Decode(b: string): int
    requires Utf8Char(b)
  {
    match |b|
    case 1 => b[0] as int
    case 2 => (b[0] as int - 0xC0) * 64 + (b[1] as int - 0x80)
    case 3 => ((b[0] as int - 0xE0) * 64 + (b[1] as int - 0x80)) * 64 + (b[2] as int - 0x80)
    case _ => (((b[0] as int - 0xF0) * 64 + (b[1] as int - 0x80)) * 64 + (b[2] as int - 0x80)) * 64 + (b[3] as int - 0x80)
  }

  predicate Surrogate(uc: int) {
    0xD800 <= uc <= 0xDFFF
  }

  /** Code points that are not halves of a surrogate pair. */
  predicate Scalar(uc: int) {
    0 <= uc <= 0x10_FFFF && !Surrogate(uc)
  }

  /** The bytes written for a code point are UTF-8 and decode to it. */
  lemma Utf8Decodes(uc: nat)
    requires Scalar(uc)
    ensures Utf8Char(Utf8(uc)) && Decode(Utf8(uc)) == uc
  {
    if uc < 0x80 {
    } else if uc < 0x800 {
    } else if uc < 0x1_0000 {
      ThreeBytes(uc);
    } else {
      FourBytes(uc);
    }
  }

  lemma ThreeBytes(uc: nat)
    requires 0x800 <= uc < 0x1_0000 && !Surrogate(uc)
    ensures Utf8Char(Utf8(uc)) && Decode(Utf8(uc)) == uc
  {
    var high, mid, low := uc / 4096, uc / 64 % 64, uc % 64;
    Base64(uc);
  }

  lemma Base64(uc: nat)
    ensures uc / 4096 == uc / 64 / 64
    ensures uc / 262144 == uc / 4096 / 64
    ensures uc == 64 * (uc / 64) + uc % 64
  {
  }

  lemma FourBytes(uc: nat)
    requires 0x1_0000 <= uc <= 0x10_FFFF
    ensures Utf8Char(Utf8(uc)) && Decode(Utf8(uc)) == uc
  {
    Base64(uc);
    Base64(uc / 64);
  }

  /** And they are the only UTF-8 bytes that do. */
  lemma Utf8Only(b: string)
    requires Utf8Char(b)
    ensures Scalar(Decode(b)) && b == Utf8(Decode(b))
  {
    if |b| == 1 {
    } else if |b| == 2 {
      Base64(Decode(b));
    } else if |b| == 3 {
      OnlyThree(b);
    } else {
      OnlyFour(b);
    }
  }

  lemma OnlyThree(b: string)
    requires Utf8Char(b) && |b| == 3
    ensures Scalar(Decode(b)) && b == Utf8(Decode(b))
  {
    var x, y, z := b[0] as int - 0xE0, b[1] as int - 0x80, b[2] as int - 0x80;
    var uc := (x * 64 + y) * 64 + z;
    assert uc / 64 == x * 64 + y && uc % 64 == z;
    assert uc / 4096 == x;
  }

  lemma OnlyFour(b: string)
    requires Utf8Char(b) && |b| == 4
    ensures Scalar(Decode(b)) && b == Utf8(Decode(b))
  {
    var w, x, y, z := b[0] as int - 0xF0, b[1] as int - 0x80, b[2] as int - 0x80, b[3] as int - 0x80;
    var uc := ((w * 64 + x) * 64 + y) * 64 + z;
    assert uc / 64 == (w * 64 + x) * 64 + y && uc % 64 == z;
    assert uc / 4096 == w * 64 + x;
    assert uc / 262144 == w;
  }

  // ---------------------------------------------------------------- escapes

  /** The high and low half of a code point above 0xFFFF, by RFC 2781. */
  function HighHalf(uc: int): int
    requires 0x1_0000 <= uc <= 0x10_FFFF
  {
    0xD800 + (uc - 0x1_0000) / 1024
  }

  function LowHalf(uc: int): int
    requires 0x1_0000 <= uc <= 0x10_FFFF
  {
    0xDC00 + (uc - 0x1_0000) % 1024
  }

  /** d is the escape of a code point: one unit, or a surrogate pair. */
  predicate Escapes(d: string, uc: nat)
    requires Scalar(uc)
  {
    if uc < 0x1_0000 then |d| == 6 && d[..2] == "\\u" && SpellsUnit(d[2..], uc)
    else
      && |d| == 12
      && d[..2] == "\\u" && SpellsUnit(d[2..6], HighHalf(uc))
      && d[6..8] == "\\u" && SpellsUnit(d[8..], LowHalf(uc))
  }

  /** The escape of any code point but 0, however its digits are written and whatever follows it, is
      read as the UTF-8 bytes of that code point: they decode to it, and no other bytes do. */
  lemma CodePointRead(uc: nat, d: string, rest: string)
    requires Scalar(uc) && uc > 0 && Escapes(d, uc)
    ensures var b := Utf8(uc);
            && Utf8Char(b) && Decode(b) == uc
            && (forall b' :: Utf8Char(b') && Decode(b') == uc ==> b' == b)
            && ReadChars(d + rest) == Put(b, ReadChars(rest))
  {
    hide Utf8, ReadChars, Utf8Char, Decode, SpellsUnit;
    Utf8Decodes(uc);
    forall b' | Utf8Char(b') && Decode(b') == uc ensures b' == Utf8(uc) {
      Utf8Only(b');
    }
    if uc < 0x1_0000 {
      UnitEscapeRead(uc, d, rest);
    } else {
      PairEscapeRead(uc, d, rest);
    }
  }

  lemma UnitEscapeRead(uc: nat, d: string, rest: string)
    requires Scalar(uc) && 0 < uc < 0x1_0000 && Escapes(d, uc)
    ensures ReadChars(d + rest) == Put(Utf8(uc), ReadChars(rest))
  {
    hide Utf8, ReadChars, SpellsUnit, Hex4;
    var t := d[2..] + rest;
    UnitRead(t, uc);
    assert t[..4] == d[2..];
    assert t[4..] == rest;
    EscapeStep(d + rest, t);
  }

  /** An escape whose digits are all there. */
  lemma EscapeStep(s: string, t: string)
    requires s == "\\u" + t && |t| >= Unicode(t).1
    ensures ReadChars(s) == Put(Unicode(t).0, ReadChars(t[Unicode(t).1..]))
  {
    hide Unicode;
    assert s[2..] == t;
    assert s[2 + Unicode(t).1..] == t[Unicode(t).1..];
  }

  lemma PairEscapeRead(uc: nat, d: string, rest: string)
    requires 0x1_0000 <= uc <= 0x10_FFFF && Escapes(d, uc)
    ensures ReadChars(d + rest) == Put(Utf8(uc), ReadChars(rest))
  {
    hide Utf8, ReadChars, SpellsUnit, Hex4, Unicode;
    var t := d[2..] + rest;
    UnitRead(t, HighHalf(uc));
    UnitRead(t[6..], LowHalf(uc));
    assert t[..4] == d[2..6];
    assert t[6..][..4] == d[8..];
    assert t[4] == d[6..8][0] && t[5] == d[6..8][1];
    PairIs(t, uc);
    assert t[10..] == rest;
    assert d + rest == "\\u" + t;
    EscapeStep(d + rest, t);
  }

  lemma PairIs(t: string, uc: nat)
    requires 0x1_0000 <= uc <= 0x10_FFFF
    requires |t| > 5 && t[4] == '\\' && t[5] == 'u' && Hex4(t) == HighHalf(uc) && Hex4(t[6..]) == LowHalf(uc)
    ensures Unicode(t) == (Utf8(uc), 10)
  {
    hide Utf8, Hex4;
    var v := uc - 0x1_0000;
    assert HighHalf(uc) % 0x400 == v / 1024 && LowHalf(uc) % 0x400 == v % 1024;
  }

  /** Digits that are not all hexadecimal, four zeros, and half of a surrogate pair alone stand for nothing:
      the code drops them. */
  lemma UnpairedRead(d: string, rest: string)
    requires |d| == 6 && d[..2] == "\\u"
    requires forall v: nat | 0 < v < 0x1_0000 && !Surrogate(v) :: !SpellsUnit(d[2..], v)
    requires (forall v: nat | 0xD800 <= v < 0xDC00 :: !SpellsUnit(d[2..], v)) || !("\\u" <= rest)
    ensures ReadChars(d + rest) == ReadChars(rest)
  {
    hide SpellsUnit, ReadChars, Hex4;
    var t := d[2..] + rest;
    assert t[..4] == d[2..];
    assert t[4..] == rest;
    assert d + rest == "\\u" + t;
    if Hex4(t) > 0 {
      UnitRead(t, Hex4(t));
    }
    assert |t| > 5 && t[4] == '\\' && t[5] == 'u' ==> "\\u" <= rest;
    EscapeStep(d + rest, t);
    PutNothing(ReadChars(rest));
  }

  lemma PutNothing(r: Parse<string>)
    ensures Put([], r) == r
  {
    if r.Ok? {
      assert [] + r.value == r.value;
    }
  }

  // ---------------------------------------------------------------- escapes by one letter

  /** The letters of RFC 8259 for control characters, and what they stand for. */
  const LETTERS := "bfnrt"
  const CONTROLS: seq<int> := [0x08, 0x0C, 0x0A, 0x0D, 0x09]

  /** A backslash and one of the letters stand for its control character, a backslash and anything else
      but u for that byte. */
  lemma ShortRead(c: char, rest: string)
    requires c != 'u'
    ensures var m := Unescape(c);
            && ReadChars(['\\', c] + rest) == Put([m], ReadChars(rest))
            && (forall i | 0 <= i < 5 :: c == LETTERS[i] ==> m as int == CONTROLS[i])
            && (c !in LETTERS ==> m == c)
  {
    assert (['\\', c] + rest)[2..] == rest;
    hide ReadChars;
    assert LETTERS[0] == 'b' && LETTERS[1] == 'f' && LETTERS[2] == 'n' && LETTERS[3] == 'r' && LETTERS[4] == 't';
  }

  /** What is printed for a byte: the two that a literal cannot hold behind a backslash, the control
      characters by letter or by number, every other byte as it is. */
  lemma EscapeSpells(c: char)
    requires c != '\0'
    ensures var e := Escape(c);
            && (c == '\"' || c == '\\' ==> e == ['\\', c])
            && (forall i | 0 <= i < 5 :: c as int == CONTROLS[i] ==> e == ['\\', LETTERS[i]])
            && (c < ' ' && c as int !in CONTROLS ==> |e| == 6 && e[..2] == "\\u" && SpellsUnit(e[2..], c as int))
            && (c >= ' ' && c != '\"' && c != '\\' ==> e == [c])
  {
    assert CONTROLS == [8, 12, 10, 13, 9];
    assert LETTERS[0] == 'b' && LETTERS[1] == 'f' && LETTERS[2] == 'n' && LETTERS[3] == 'r' && LETTERS[4] == 't';
    if c < ' ' && c as int !in CONTROLS {
      ControlSpells(c);
    }
  }

  lemma ControlSpells(c: char)
    requires '\0' < c < ' ' && c as int !in CONTROLS
    ensures var e := Escape(c);
            |e| == 6 && e[..2] == "\\u" && SpellsUnit(e[2..], c as int)
  {
    var v := c as int;
    assert c != '\U{8}' && c != '\U{C}' && c != '\n' && c != '\r' && c != '\t' by {
      assert CONTROLS[0] == 8 && CONTROLS[1] == 12 && CONTROLS[2] == 10 && CONTROLS[3] == 13 && CONTROLS[4] == 9;
    }
    var e := Escape(c);
    assert e == "\\u00" + [HEX[v / 16], HEX[v % 16]];
    assert e[2..] == "00" + [HEX[v / 16], HEX[v % 16]];
    assert LOWER[0] == '0';
  }
}
