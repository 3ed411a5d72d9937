/**
 The numbers that parse_number of drivers/cjson/cJSON.c takes, as a grammar: wider than RFC 8259, since
 a sign alone, a zero in front of other digits and an exponent without digits pass.
 */
module JsonNumbers {
  import opened JsonText

  datatype Exponent = NoExponent | Exponent(mark: char, sign: string, digits: string)

  /** A sign, a zero, digits that begin with another, a point with digits behind it, an exponent:
      each may be missing. */
  datatype Numeral = Numeral(neg: bool, zero: bool, digits: string, fraction: string, exponent: Exponent)

  predicate AllDigits(s: string) {
    forall i | 0 <= i < |s| :: IsDigit(s[i])
  }

  predicate NoDigit(t: string) {
    t == [] || !IsDigit(t[0])
  }

  /** The value of the digits s in base ten; the last digit counts once. */
  function Joined(s: string): (n: int)
    ensures AllDigits(s) ==> n >= 0
  {
    if s == [] then 0 else 10 * Joined(s[..|s| - 1]) + (s[|s| - 1] as int - '0' as int)
  }

  function ExponentText(e: Exponent): string {
    match e
    case NoExponent => ""
    case Exponent(mark, sign, digits) => [mark] + sign + digits
  }

  function FractionText(s: string): string {
    if s == [] then [] else "." + s
  }

  function NumeralText(n: Numeral): string {
    (if n.neg then "-" else "") + (if n.zero then "0" else "") + n.digits + FractionText(n.fraction) + ExponentText(n.exponent)
  }

  /** e can stand in front of rest: rest does not begin with what would have been read as well. */
  predicate ExponentFits(e: Exponent, rest: string) {
    match e
    case NoExponent => !At(rest, 'e') && !At(rest, 'E')
    case Exponent(mark, sign, digits) =>
      && (mark == 'e' || mark == 'E')
      && (sign == "" || sign == "+" || sign == "-")
      && AllDigits(digits)
      && NoDigit(rest)
      && (sign == "" && digits == "" ==> !At(rest, '+') && !At(rest, '-'))
  }

  function ExponentValue(e: Exponent): int {
    match e
    case NoExponent => 0
    case Exponent(_, sign, digits) =>
      var m := Joined(digits);
      if sign == "-" then -m else m
  }

  predicate FractionFits(s: string, behind: string) {
    && AllDigits(s)
    && if s == [] then !(|behind| > 1 && behind[0] == '.' && IsDigit(behind[1])) else NoDigit(behind)
  }

  predicate DigitsFit(zero: bool, s: string, behind: string) {
    && AllDigits(s)
    && (s != [] ==> s[0] != '0' && NoDigit(behind))
    && (s == [] ==> (behind != [] ==> !('1' <= behind[0] <= '9')) && (zero || !At(behind, '0')))
  }

  predicate NumeralFits(n: Numeral, rest: string) {
    var tail := ExponentText(n.exponent) + rest;
    && (n.neg || n.zero || n.digits != [])
    && DigitsFit(n.zero, n.digits, FractionText(n.fraction) + tail)
    && FractionFits(n.fraction, tail)
    && ExponentFits(n.exponent, rest)
  }

  /** All the digits as one number, its decimal point moved by the length of the fraction and by the
      exponent. */
  function NumeralValue(n: Numeral): Json {
    var m := Joined(n.digits + n.fraction);
    Number(if n.neg then -m else m, ExponentValue(n.exponent) - |n.fraction|)
  }

  // ---------------------------------------------------------------- digits

  lemma {:induction false} DigitsJoin(before: string, s: string, rest: string)
    requires AllDigits(before) && AllDigits(s) && NoDigit(rest)
    ensures AllDigits(before + s)
    ensures TakeDigits(s + rest, Joined(before)).0 == Joined(before + s)
    ensures TakeDigits(s + rest, Joined(before)).1 == rest
    decreases |s|
  {
    if s == [] {
      assert s + rest == rest && before + s == before;
    } else {
      var more := before + [s[0]];
      DigitsJoin(more, s[1..], rest);
      assert before + s == more + s[1..];
      assert more[..|before|] == before;
      assert (s + rest)[1..] == s[1..] + rest;
    }
  }

  lemma {:induction false} DigitsFound(t: string) returns (s: string, rest: string)
    ensures t == s + rest && AllDigits(s) && NoDigit(rest)
    ensures !NoDigit(t) ==> s != [] && s[0] == t[0]
    decreases |t|
  {
    if NoDigit(t) {
      s, rest := [], t;
    } else {
      var s', rest' := DigitsFound(t[1..]);
      s, rest := [t[0]] + s', rest';
    }
  }

  // ---------------------------------------------------------------- exponents

  lemma ExponentRead(e: Exponent, rest: string)
    requires ExponentFits(e, rest)
    ensures ParseExponent(ExponentText(e) + rest).0 == ExponentValue(e)
    ensures ParseExponent(ExponentText(e) + rest).1 == rest
  {
    hide TakeDigits, Joined;
    match e
    case NoExponent => assert ExponentText(e) + rest == rest;
    case Exponent(mark, sign, digits) =>
      var t := ExponentText(e) + rest;
      assert t[1..] == sign + (digits + rest);
      assert sign != "" ==> t[2..] == digits + rest;
      assert sign == "" ==> t[1..] == digits + rest;
      JoinedNothing();
      DigitsJoin([], digits, rest);
      assert [] + digits == digits;
  }

  lemma JoinedNothing()
    ensures Joined([]) == 0
  {
  }

  /** A sign, if there is one, behind the first byte. */
  lemma SignTaken(t: string) returns (sign: string, behind: string)
    requires t != []
    ensures t == [t[0]] + sign + behind
    ensures sign == "" || sign == "+" || sign == "-"
    ensures sign == "" ==> !At(behind, '+') && !At(behind, '-')
  {
    sign, behind := "", t[1..];
    if At(behind, '+') || At(behind, '-') {
      sign, behind := [behind[0]], behind[1..];
    }
  }

  lemma ExponentFound(t: string) returns (e: Exponent, rest: string)
    ensures t == ExponentText(e) + rest && ExponentFits(e, rest)
  {
    if At(t, 'e') || At(t, 'E') {
      var sign, behind := SignTaken(t);
      var digits;
      digits, rest := DigitsFound(behind);
      e := Exponent(t[0], sign, digits);
      Regroup([t[0]] + sign, digits, rest);
    } else {
      e, rest := NoExponent, t;
    }
  }

  // ---------------------------------------------------------------- numbers

  lemma FractionRead(neg: bool, before: string, s: string, e: Exponent, rest: string)
    requires AllDigits(before) && FractionFits(s, ExponentText(e) + rest) && ExponentFits(e, rest)
    ensures AllDigits(before + s)
    ensures var m := Joined(before + s);
            && ParseFraction(neg, Joined(before), FractionText(s) + (ExponentText(e) + rest)).0
               == Number(if neg then -m else m, ExponentValue(e) - |s|)
            && ParseFraction(neg, Joined(before), FractionText(s) + (ExponentText(e) + rest)).1 == rest
  {
    hide TakeDigits, Joined, ExponentFits, ParseExponent, ExponentText, ExponentValue;
    var tail := ExponentText(e) + rest;
    var t := FractionText(s) + tail;
    ExponentRead(e, rest);
    if s == [] {
      assert t == tail && before + s == before;
    } else {
      assert t[1..] == s + tail;
      DigitsJoin(before, s, tail);
    }
  }

  lemma FractionFound(t: string) returns (s: string, e: Exponent, rest: string)
    ensures t == FractionText(s) + (ExponentText(e) + rest)
    ensures FractionFits(s, ExponentText(e) + rest) && ExponentFits(e, rest)
  {
    hide ExponentText, ExponentFits;
    var tail := t;
    s := [];
    if |t| > 1 && t[0] == '.' && IsDigit(t[1]) {
      s, tail := DigitsFound(t[1..]);
    }
    e, rest := ExponentFound(tail);
  }

  /** The digits in front of the fraction. */
  lemma DigitsRead(zero: bool, s: string, behind: string)
    requires DigitsFit(zero, s, behind)
    ensures AllDigits(s) && (zero || s != [] ==> !At((if zero then "0" else "") + s + behind, '-'))
    ensures var t := (if zero then "0" else "") + s + behind;
            var t2 := if At(t, '0') then t[1..] else t;
            && t2 == s + behind
            && (s == [] ==> t2 == behind)
            && (t2 != [] && '1' <= t2[0] <= '9' <==> s != [])
            && (s != [] ==> TakeDigits(t2, 0).0 == Joined(s) && TakeDigits(t2, 0).1 == behind)
  {
    hide TakeDigits, Joined;
    var t := (if zero then "0" else "") + s + behind;
    var t2 := if At(t, '0') then t[1..] else t;
    assert t2 == s + behind;
    if s != [] {
      JoinedNothing();
      DigitsJoin([], s, behind);
      assert [] + s == s;
    }
  }

  lemma NumeralStarts(n: Numeral, rest: string)
    requires NumeralFits(n, rest)
    ensures NumeralText(n) != [] && (NumeralText(n)[0] == '-' || IsDigit(NumeralText(n)[0]))
  {
    hide FractionText, ExponentText, FractionFits, ExponentFits;
    assert NumeralText(n)[0] == if n.neg then '-' else if n.zero then '0' else n.digits[0];
  }

  lemma NumeralSplit(n: Numeral, rest: string)
    ensures NumeralText(n) + rest
            == (if n.neg then "-" else "")
               + ((if n.zero then "0" else "") + n.digits + (FractionText(n.fraction) + (ExponentText(n.exponent) + rest)))
  {
    hide FractionText, ExponentText;
    var a, b := if n.neg then "-" else "", if n.zero then "0" else "";
    var f, e := FractionText(n.fraction), ExponentText(n.exponent);
    assert a + b + n.digits + f + e + rest == a + (b + n.digits + (f + (e + rest)));
  }

  lemma SignDropped(neg: bool, t1: string)
    requires neg || !At(t1, '-')
    ensures var t := (if neg then "-" else "") + t1;
            At(t, '-') == neg && t1 == if neg then t[1..] else t
  {
    assert "" + t1 == t1;
  }

  /** parse_number takes a numeral that fits, up to what follows it, and gives its value. */
  lemma NumeralRead(n: Numeral, rest: string)
    requires NumeralFits(n, rest)
    ensures ParseNumber(NumeralText(n) + rest).0 == NumeralValue(n)
    ensures ParseNumber(NumeralText(n) + rest).1 == rest
    ensures NumeralText(n) != [] && (NumeralText(n)[0] == '-' || IsDigit(NumeralText(n)[0]))
  {
    hide TakeDigits, Joined, AllDigits, DigitsFit, FractionFits, FractionText, ExponentFits, ParseFraction, ExponentText, ExponentValue, Signed;
    var tail := ExponentText(n.exponent) + rest;
    var behind := FractionText(n.fraction) + tail;
    var t := NumeralText(n) + rest;
    var t1 := (if n.zero then "0" else "") + n.digits + behind;
    NumeralSplit(n, rest);
    DigitsRead(n.zero, n.digits, behind);
    SignDropped(n.neg, t1);
    NumeralStarts(n, rest);
    JoinedNothing();
    FractionRead(n.neg, n.digits, n.fraction, n.exponent, rest);
  }

  lemma NumeralFound(t: string) returns (n: Numeral, rest: string)
    requires t != [] && (t[0] == '-' || IsDigit(t[0]))
    ensures t == NumeralText(n) + rest && NumeralFits(n, rest)
  {
    hide ExponentFits, ExponentText, FractionFits, FractionText;
    var neg, t1 := OneTaken(t, '-');
    var zero, t2 := OneTaken(t1, '0');
    var digits, behind := [], t2;
    if t2 != [] && '1' <= t2[0] <= '9' {
      digits, behind := DigitsFound(t2);
    }
    var s, e, rest' := FractionFound(behind);
    n, rest := Numeral(neg, zero, digits, s, e), rest';
    NumeralSplit(n, rest);
    assert t1 == (if zero then "0" else "") + (digits + behind);
    Regroup(if zero then "0" else "", digits, behind);
  }

  lemma OneTaken(t: string, c: char) returns (there: bool, behind: string)
    ensures t == (if there then [c] else []) + behind
    ensures there == At(t, c) && behind == if there then t[1..] else t
  {
    there := At(t, c);
    behind := if there then t[1..] else t;
  }
}
