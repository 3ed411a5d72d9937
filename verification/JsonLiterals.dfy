/**
 The string literals that parse_string of drivers/cjson/cJSON.c takes, as a grammar: a literal is a
 sequence of pieces, and parse_string takes a text exactly if it begins with the text of a literal
 that fits, giving the literal's value.
 */
module JsonLiterals {
  import opened JsonEscapes
  import JsonRoundTrip
  import opened JsonText

  /** Part of a string literal: a byte that stands for itself, a backslash and a letter, a \u unit,
      or a \u unit that is a high surrogate with the unit behind it. */
  datatype Piece = Plain(c: char) | Short(c: char) | Unit(hex: string) | Pair(high: string, low: string)

  function PieceText(p: Piece): string {
    match p
    case Plain(c) => [c]
    case Short(c) => ['\\', c]
    case Unit(hex) => "\\u" + hex
    case Pair(high, low) => "\\u" + high + "\\u" + low
  }

  predicate HighSurrogate(uc: nat) {
    0xD800 <= uc < 0xDC00
  }

  predicate LowSurrogate(uc: nat) {
    0xDC00 <= uc < 0xE000
  }

  /** A unit of 0 and one that is half of a pair stand for nothing. */
  function PieceValue(p: Piece): string {
    match p
    case Plain(c) => [c]
    case Short(c) => [Unescape(c)]
    case Unit(hex) =>
      var uc := Hex4(hex);
      if uc == 0 || HighSurrogate(uc) || LowSurrogate(uc) then [] else Utf8(uc)
    case Pair(high, low) =>
      var uc, uc2 := Hex4(high), Hex4(low);
      if HighSurrogate(uc) && LowSurrogate(uc2) then Utf8(0x1_0000 + (uc - 0xD800) * 0x400 + (uc2 - 0xDC00)) else []
  }

  /** p can stand before the text `behind`: a high surrogate takes the unit behind it along. */
  predicate PieceFits(p: Piece, behind: string) {
    match p
    case Plain(c) => c != '\"' && c != '\\'
    case Short(c) => c != 'u'
    case Unit(hex) => |hex| == 4 && (HighSurrogate(Hex4(hex)) ==> !("\\u" <= behind))
    case Pair(high, low) => |high| == 4 && |low| == 4 && HighSurrogate(Hex4(high))
  }

  function PiecesText(ps: seq<Piece>): string {
    if ps == [] then [] else PieceText(ps[0]) + PiecesText(ps[1..])
  }

  predicate PiecesFit(ps: seq<Piece>, behind: string) {
    ps == [] || (PieceFits(ps[0], PiecesText(ps[1..]) + behind) && PiecesFit(ps[1..], behind))
  }

  function PiecesValue(ps: seq<Piece>): string {
    if ps == [] then [] else PieceValue(ps[0]) + PiecesValue(ps[1..])
  }

  /** A literal may be ended by its quote or by the end of the text. */
  datatype Literal = Literal(pieces: seq<Piece>, closed: bool)

  function Close(closed: bool): string {
    if closed then "\"" else ""
  }

  function LiteralText(l: Literal): string {
    "\"" + PiecesText(l.pieces) + Close(l.closed)
  }

  /** The measuring loop must find an end too: it steps over two bytes at each backslash. */
  predicate LiteralFits(l: Literal, rest: string) {
    && (l.closed || rest == [])
    && PiecesFit(l.pieces, Close(l.closed) + rest)
    && ScanLength(PiecesText(l.pieces) + (Close(l.closed) + rest)) >= 0
  }

  function LiteralValue(l: Literal): string {
    PiecesValue(l.pieces)
  }

  lemma Hex4Of(t: string)
    requires |t| >= 4
    ensures Hex4(t[..4]) == Hex4(t)
  {
    var d := t[..4];
    assert d[0] == t[0] && d[1] == t[1] && d[2] == t[2] && d[3] == t[3];
    hide HexDigit;
  }

  /** One piece is read as its value. */
  lemma PieceRead(p: Piece, behind: string)
    requires PieceFits(p, behind)
    ensures ReadChars(PieceText(p) + behind) == Put(PieceValue(p), ReadChars(behind))
  {
    hide ReadChars, Hex4, Utf8, Put;
    match p
    case Plain(c) => JsonRoundTrip.ReadPlain(c, behind);
    case Short(c) => JsonRoundTrip.ReadPair(c, behind);
    case Unit(hex) => UnitStep(hex, behind);
    case Pair(high, low) => PairStep(high, low, behind);
  }

  lemma UnitStep(hex: string, behind: string)
    requires PieceFits(Unit(hex), behind)
    ensures ReadChars(PieceText(Unit(hex)) + behind) == Put(PieceValue(Unit(hex)), ReadChars(behind))
  {
    hide ReadChars, Hex4, Utf8;
    var t := hex + behind;
    assert t[..4] == hex && t[4..] == behind;
    Hex4Of(t);
    assert |t| > 5 && t[4] == '\\' && t[5] == 'u' ==> "\\u" <= behind;
    assert PieceText(Unit(hex)) + behind == "\\u" + t;
    EscapeStep("\\u" + t, t);
  }

  lemma PairStep(high: string, low: string, behind: string)
    requires PieceFits(Pair(high, low), behind)
    ensures ReadChars(PieceText(Pair(high, low)) + behind) == Put(PieceValue(Pair(high, low)), ReadChars(behind))
  {
    hide ReadChars, Hex4, Utf8, Unicode;
    var t := high + "\\u" + low + behind;
    assert t[..4] == high && t[10..] == behind;
    assert t[6..][..4] == low;
    Hex4Of(t);
    Hex4Of(t[6..]);
    assert PieceText(Pair(high, low)) + behind == "\\u" + t;
    PairUnicode(t);
    EscapeStep("\\u" + t, t);
  }

  lemma PairUnicode(t: string)
    requires |t| > 5 && t[4] == '\\' && t[5] == 'u' && HighSurrogate(Hex4(t))
    ensures var low := Hex4(t[6..]);
            Unicode(t) == (if LowSurrogate(low) then Utf8(0x1_0000 + (Hex4(t) - 0xD800) * 0x400 + (low - 0xDC00)) else [], 10)
  {
    hide Hex4, Utf8;
    Halves(Hex4(t), 0xD800);
    Halves(Hex4(t[6..]), 0xDC00);
  }

  lemma Halves(uc: nat, base: nat)
    requires base == 0xD800 || base == 0xDC00
    ensures base <= uc < base + 0x400 ==> uc % 0x400 == uc - base
  {
  }

  /** The first piece of what is left to read. */
  lemma PieceFound(t: string) returns (p: Piece, behind: string)
    requires t != [] && t[0] != '\"' && ReadChars(t).Ok?
    ensures t == PieceText(p) + behind && PieceFits(p, behind) && |behind| < |t| && ReadChars(behind).Ok?
  {
    hide Hex4, Utf8;
    if t[0] != '\\' {
      p, behind := Plain(t[0]), t[1..];
    } else if t[1] != 'u' {
      p, behind := Short(t[1]), t[2..];
    } else {
      p, behind := UnitFound(t, t[2..]);
    }
  }

  lemma UnitFound(s: string, t: string) returns (p: Piece, behind: string)
    requires s == "\\u" + t && ReadChars(s).Ok?
    ensures s == PieceText(p) + behind && PieceFits(p, behind) && |behind| < |s| && ReadChars(behind).Ok?
  {
    hide Hex4, Utf8, ReadChars;
    UnicodeEnds(s, t);
    behind := t[Unicode(t).1..];
    EscapeStep(s, t);
    Hex4Of(t);
    if Unicode(t).1 == 10 {
      p := Pair(t[..4], t[6..10]);
    } else {
      p := Unit(t[..4]);
      assert "\\u" <= behind ==> behind[0] == '\\' && behind[1] == 'u';
    }
  }

  lemma UnicodeEnds(s: string, t: string)
    requires s == "\\u" + t && ReadChars(s).Ok?
    ensures |t| >= Unicode(t).1 >= 4
  {
    hide Hex4, Utf8;
    assert s[2..] == t;
  }

  lemma {:induction false} PiecesRead(ps: seq<Piece>, closed: bool, rest: string)
    requires PiecesFit(ps, Close(closed) + rest) && (closed || rest == [])
    ensures ReadChars(PiecesText(ps) + (Close(closed) + rest)) == Ok(PiecesValue(ps), rest)
  {
    var end := Close(closed) + rest;
    if ps == [] {
      assert PiecesText(ps) + end == end;
      assert closed ==> end[1..] == rest;
    } else {
      hide ReadChars, PieceFits, PieceText, PieceValue;
      PiecesRead(ps[1..], closed, rest);
      PieceRead(ps[0], PiecesText(ps[1..]) + end);
      Regroup(PieceText(ps[0]), PiecesText(ps[1..]), end);
    }
  }

  lemma {:induction false} PiecesFound(t: string) returns (ps: seq<Piece>, closed: bool)
    requires ReadChars(t).Ok?
    ensures var rest := ReadChars(t).rest;
            && (closed || rest == [])
            && t == PiecesText(ps) + (Close(closed) + rest)
            && PiecesFit(ps, Close(closed) + rest)
            && ReadChars(t).value == PiecesValue(ps)
    decreases |t|
  {
    if t == [] || t[0] == '\"' {
      ps, closed := [], t != [];
      EndFound(t);
    } else {
      hide ReadChars, PieceFits, PieceText, PieceValue;
      var p, behind := PieceFound(t);
      var ps', closed' := PiecesFound(behind);
      ps, closed := [p] + ps', closed';
      PieceRead(p, behind);
      assert ps[1..] == ps';
      Regroup(PieceText(p), PiecesText(ps'), Close(closed) + ReadChars(t).rest);
    }
  }

  lemma EndFound(t: string)
    requires t == [] || t[0] == '\"'
    ensures ReadChars(t).Ok? && ReadChars(t).value == []
    ensures t == PiecesText([]) + (Close(t != []) + ReadChars(t).rest)
    ensures t == [] ==> ReadChars(t).rest == []
  {
  }

  /** parse_string takes exactly the literals of the grammar, and gives their value. */
  lemma LiteralRead(l: Literal, rest: string)
    requires LiteralFits(l, rest)
    ensures ParseString(LiteralText(l) + rest) == Ok(LiteralValue(l), rest)
  {
    hide ReadChars, ScanLength, PiecesText, PiecesFit, PiecesValue;
    var t := LiteralText(l) + rest;
    PiecesRead(l.pieces, l.closed, rest);
    assert t[0] == '\"';
    assert t[1..] == PiecesText(l.pieces) + (Close(l.closed) + rest);
  }

  lemma LiteralFound(t: string) returns (l: Literal)
    requires ParseString(t).Ok?
    ensures LiteralFits(l, ParseString(t).rest)
    ensures t == LiteralText(l) + ParseString(t).rest && ParseString(t).value == LiteralValue(l)
  {
    hide ReadChars, ScanLength, PiecesText, PiecesFit, PiecesValue;
    var ps, closed := PiecesFound(t[1..]);
    l := Literal(ps, closed);
  }

  // ---------------------------------------------------------------- the measuring loop

  /** The units of p hold no quote and no backslash: all of them do when they are hexadecimal. */
  predicate Tame(p: Piece) {
    match p
    case Unit(hex) => TameUnit(hex)
    case Pair(high, low) => TameUnit(high) && TameUnit(low)
    case _ => true
  }

  predicate TameUnit(hex: string) {
    forall i | 0 <= i < |hex| :: hex[i] != '\"' && hex[i] != '\\'
  }

  lemma {:induction false} ScanUnit(hex: string, behind: string)
    requires TameUnit(hex)
    ensures ScanLength(behind) >= 0 ==> ScanLength(hex + behind) >= 0
  {
    if hex == [] {
      assert hex + behind == behind;
    } else {
      ScanUnit(hex[1..], behind);
      assert (hex + behind)[1..] == hex[1..] + behind;
    }
  }

  lemma ScanEscape(c: char, behind: string)
    ensures ScanLength(behind) >= 0 ==> ScanLength(['\\', c] + behind) >= 0
  {
    assert (['\\', c] + behind)[2..] == behind;
  }

  lemma ScanPiece(p: Piece, behind: string)
    requires PieceFits(p, behind) && Tame(p) && ScanLength(behind) >= 0
    ensures ScanLength(PieceText(p) + behind) >= 0
  {
    hide ScanLength, Hex4;
    match p
    case Plain(c) => JsonRoundTrip.ReadPlain(c, behind);
    case Short(c) => ScanEscape(c, behind);
    case Unit(hex) =>
      ScanUnit(hex, behind);
      ScanEscape('u', hex + behind);
      Regroup("\\u", hex, behind);
    case Pair(high, low) =>
      ScanUnit(low, behind);
      ScanEscape('u', low + behind);
      Regroup("\\u", low, behind);
      ScanUnit(high, "\\u" + low + behind);
      ScanEscape('u', high + ("\\u" + low + behind));
      assert PieceText(p) + behind == "\\u" + (high + ("\\u" + low + behind));
  }

  /** So a literal of such pieces fits wherever it is closed, and at the end of the text. */
  lemma {:induction false} TameFits(ps: seq<Piece>, closed: bool, rest: string)
    requires PiecesFit(ps, Close(closed) + rest) && (closed || rest == [])
    requires forall i | 0 <= i < |ps| :: Tame(ps[i])
    ensures LiteralFits(Literal(ps, closed), rest)
  {
    var end := Close(closed) + rest;
    if ps == [] {
      assert PiecesText(ps) + end == end;
    } else {
      hide ScanLength, PieceFits, PieceText, Tame;
      TameFits(ps[1..], closed, rest);
      assert Tame(ps[0]);
      ScanPiece(ps[0], PiecesText(ps[1..]) + end);
      Regroup(PieceText(ps[0]), PiecesText(ps[1..]), end);
    }
  }
}
