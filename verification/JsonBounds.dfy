/** When the parser of cJSON.c reads past the terminator of its text: only where an escape is cut off. */
module JsonBounds {
  import opened JsonText

  /** The escape at the head of t lies inside t, with all that \u takes. */
  predicate EscapeFits(t: string) {
    |t| >= 2 && (t[1] == 'u' ==> |t| >= 2 + Unicode(t[2..]).1)
  }

  /** A backslash at i begins an escape that the text ends in. */
  predicate CutAt(t: string, i: int) {
    0 <= i < |t| && t[i] == '\\' && !EscapeFits(t[i..])
  }

  ghost predicate CutOff(t: string) {
    exists i :: CutAt(t, i)
  }

  predicate IsTail(u: string, t: string) {
    |u| <= |t| && u == t[|t| - |u|..]
  }

  /** What a parse leaves is the end of the text; it reads past it only if an escape is cut off. */
  ghost predicate Inside<T>(t: string, r: Parse<T>) {
    && (r.Ok? ==> IsTail(r.rest, t))
    && (r.Overrun? ==> CutOff(t))
  }

  lemma DropIsTail(t: string, k: nat)
    requires k <= |t|
    ensures IsTail(t[k..], t)
  {
  }

  lemma TailOfTail(v: string, u: string, t: string)
    requires IsTail(v, u) && IsTail(u, t)
    ensures IsTail(v, t)
  {
    assert t[|t| - |u|..][|u| - |v|..] == t[|t| - |v|..];
  }

  lemma CutInTail(u: string, t: string)
    requires IsTail(u, t) && CutOff(u)
    ensures CutOff(t)
  {
    hide EscapeFits;
    var i :| CutAt(u, i);
    var k := |t| - |u|;
    assert u[i..] == t[k + i..];
    assert CutAt(t, k + i);
  }

  /** A parse of a tail stays inside the whole. */
  lemma InsideTail<T>(u: string, t: string, r: Parse<T>)
    requires IsTail(u, t) && Inside(u, r)
    ensures Inside(t, r)
  {
    hide IsTail, CutOff;
    if r.Ok? {
      TailOfTail(r.rest, u, t);
    } else if r.Overrun? {
      CutInTail(u, t);
    }
  }

  // ---------------------------------------------------------------- the parts

  lemma {:induction false} SkipIsTail(t: string)
    ensures IsTail(Skip(t), t)
  {
    if t != [] && t[0] <= ' ' {
      SkipIsTail(t[1..]);
      TailOfTail(Skip(t), t[1..], t);
    }
  }

  lemma {:induction false} DigitsAreTail(t: string, n: nat)
    ensures IsTail(TakeDigits(t, n).1, t)
  {
    if t != [] && IsDigit(t[0]) {
      DigitsAreTail(t[1..], n * 10 + (t[0] as int - '0' as int));
      TailOfTail(TakeDigits(t, n).1, t[1..], t);
    }
  }

  lemma ExponentIsTail(t: string)
    ensures IsTail(ParseExponent(t).1, t)
  {
    hide TakeDigits;
    if At(t, 'e') || At(t, 'E') {
      var t1 := if At(t[1..], '+') || At(t[1..], '-') then t[2..] else t[1..];
      DigitsAreTail(t1, 0);
      TailOfTail(ParseExponent(t).1, t1, t);
    }
  }

  lemma FractionIsTail(neg: bool, n: nat, t: string)
    ensures IsTail(ParseFraction(neg, n, t).1, t)
  {
    hide TakeDigits, ParseExponent, IsTail;
    var point := |t| > 1 && t[0] == '.' && IsDigit(t[1]);
    var t' := if point then TakeDigits(t[1..], n).1 else t;
    DropIsTail(t, 0);
    assert t[0..] == t;
    if point {
      DigitsAreTail(t[1..], n);
      DropIsTail(t, 1);
      TailOfTail(t', t[1..], t);
    }
    ExponentIsTail(t');
    TailOfTail(ParseExponent(t').1, t', t);
  }

  lemma NumberIsTail(t: string)
    ensures IsTail(ParseNumber(t).1, t)
  {
    hide TakeDigits, ParseFraction;
    var neg := At(t, '-');
    var t1 := if neg then t[1..] else t;
    var t2 := if At(t1, '0') then t1[1..] else t1;
    var (n, t3) := if t2 != [] && '1' <= t2[0] <= '9' then TakeDigits(t2, 0) else (0, t2);
    if t2 != [] && '1' <= t2[0] <= '9' {
      DigitsAreTail(t2, 0);
    }
    FractionIsTail(neg, n, t3);
    TailOfTail(ParseNumber(t).1, t3, t2);
    TailOfTail(ParseNumber(t).1, t2, t1);
    TailOfTail(ParseNumber(t).1, t1, t);
  }

  // ---------------------------------------------------------------- strings

  lemma {:induction false} ScanStops(t: string)
    ensures ScanLength(t) < 0 ==> CutOff(t)
    decreases |t|
  {
    hide CutOff, Unicode;
    if t == [] || t[0] == '\"' {
    } else if t[0] == '\\' && |t| == 1 {
      CutHere(t);
    } else {
      var n := if t[0] == '\\' then 2 else 1;
      ScanStops(t[n..]);
      if ScanLength(t[n..]) < 0 {
        CutInTail(t[n..], t);
      }
    }
  }

  lemma CutHere(t: string)
    requires t != [] && t[0] == '\\' && !EscapeFits(t)
    ensures CutOff(t)
  {
    assert t[0..] == t;
    assert CutAt(t, 0);
  }

  lemma {:induction false} ReadInside(t: string)
    ensures Inside(t, ReadChars(t))
    decreases |t|
  {
    hide CutOff, Unicode, IsTail, Unescape;
    if t == [] {
      DropIsTail(t, 0);
    } else if t[0] == '\"' {
      DropIsTail(t, 1);
    } else if t[0] == '\\' && !EscapeFits(t) {
      CutHere(t);
    } else {
      var n := if t[0] != '\\' then 1 else if t[1] == 'u' then 2 + Unicode(t[2..]).1 else 2;
      DropIsTail(t, n);
      ReadInside(t[n..]);
      InsideTail(t[n..], t, ReadChars(t[n..]));
    }
  }

  lemma StringInside(t: string)
    ensures Inside(t, ParseString(t))
  {
    hide CutOff, IsTail, ReadChars, ScanLength;
    if At(t, '\"') {
      DropIsTail(t, 1);
      ScanStops(t[1..]);
      if ScanLength(t[1..]) < 0 {
        CutInTail(t[1..], t);
      } else {
        ReadInside(t[1..]);
        InsideTail(t[1..], t, ReadChars(t[1..]));
      }
    }
  }

  // ---------------------------------------------------------------- values

  /** The text behind its first byte and blanks is a tail. */
  lemma SkipBehind(t: string)
    requires t != []
    ensures IsTail(Skip(t[1..]), t)
  {
    hide Skip, IsTail;
    SkipIsTail(t[1..]);
    DropIsTail(t, 1);
    TailOfTail(Skip(t[1..]), t[1..], t);
  }

  lemma SkipRest(rest: string, t: string)
    requires IsTail(rest, t)
    ensures IsTail(Skip(rest), t)
    ensures Skip(rest) != [] ==> IsTail(Skip(rest)[1..], t)
  {
    hide Skip, IsTail;
    var u := Skip(rest);
    SkipIsTail(rest);
    TailOfTail(u, rest, t);
    if u != [] {
      DropIsTail(u, 1);
      TailOfTail(u[1..], u, t);
    }
  }

  lemma {:induction false} ValueInside(t: string)
    ensures Inside(t, ParseValue(t))
    decreases |t|, 1
  {
    hide CutOff, IsTail, Skip, ParseString, ParseNumber, ParseItems, ParseMembers;
    if "null" <= t || "true" <= t {
      DropIsTail(t, 4);
    } else if "false" <= t {
      DropIsTail(t, 5);
    } else if At(t, '\"') {
      StringInside(t);
    } else if t != [] && (t[0] == '-' || IsDigit(t[0])) {
      NumberIsTail(t);
    } else if At(t, '[') {
      var u := Skip(t[1..]);
      SkipBehind(t);
      DropIsTail(t, 1);
      SkipRest(t[1..], t);
      if !At(u, ']') {
        ItemsInside(u);
        InsideTail(u, t, ParseItems(u));
      }
    } else if At(t, '{') {
      var u := Skip(t[1..]);
      SkipBehind(t);
      DropIsTail(t, 1);
      SkipRest(t[1..], t);
      if !At(u, '}') {
        MembersInside(u);
        InsideTail(u, t, ParseMembers(u));
      }
    }
  }

  lemma {:induction false} ItemsInside(t: string)
    ensures Inside(t, ParseItems(t))
    decreases |t|, 2
  {
    hide CutOff, IsTail, Skip, ParseValue;
    var v := Skip(t);
    SkipIsTail(t);
    ValueInside(v);
    InsideTail(v, t, ParseValue(v));
    if ParseValue(v).Ok? {
      var u := Skip(ParseValue(v).rest);
      SkipRest(ParseValue(v).rest, t);
      if At(u, ',') {
        ItemsInside(u[1..]);
        InsideTail(u[1..], t, ParseItems(u[1..]));
      }
    }
  }

  lemma {:induction false} MemberInside(t: string)
    ensures Inside(t, ParseMember(t))
    decreases |t|, 2
  {
    hide CutOff, IsTail, Skip, ParseValue, ParseString;
    var v := Skip(t);
    SkipIsTail(t);
    StringInside(v);
    InsideTail(v, t, ParseString(v));
    if ParseString(v).Ok? {
      var u := Skip(ParseString(v).rest);
      SkipRest(ParseString(v).rest, t);
      if At(u, ':') {
        var w := Skip(u[1..]);
        SkipRest(u[1..], t);
        ValueInside(w);
        InsideTail(w, t, ParseValue(w));
      }
    }
  }

  lemma {:induction false} MembersInside(t: string)
    ensures Inside(t, ParseMembers(t))
    decreases |t|, 3
  {
    hide CutOff, IsTail, Skip, ParseMember;
    MemberInside(t);
    if ParseMember(t).Ok? {
      var u := Skip(ParseMember(t).rest);
      SkipRest(ParseMember(t).rest, t);
      if At(u, ',') {
        MembersInside(u[1..]);
        InsideTail(u[1..], t, ParseMembers(u[1..]));
      }
    }
  }

  // ---------------------------------------------------------------- the result

  /** A text in which no escape is cut off is never read past its terminator. */
  lemma NeverOverruns(t: string, whole: bool)
    requires !CutOff(t)
    ensures !ParseDocument(t, whole).Overrun?
  {
    hide CutOff, IsTail, Skip, ParseValue;
    SkipIsTail(t);
    ValueInside(Skip(t));
    InsideTail(Skip(t), t, ParseValue(Skip(t)));
  }

  /** And every way of cutting an escape off is read past: of an escape behind a quote, with nothing
      but plain bytes behind it, the text is overrun exactly if it is cut off. */
  lemma CutOffOverruns(t: string, whole: bool)
    requires At(t, '\\') && forall i | 1 <= i < |t| :: t[i] != '\"' && (t[i] == '\\' ==> i == 6 && Pair(t))
    ensures ParseDocument("\"" + t, whole).Overrun? <==> !EscapeFits(t)
  {
    hide ReadChars, ScanLength, EscapeFits, Pair;
    var q := "\"" + t;
    assert q[1..] == t && q[0] == '\"';
    QuotedValue(q);
    if EscapeFits(t) {
      WholeRead(t);
    } else {
      CutRead(t);
    }
  }

  lemma CutRead(t: string)
    requires At(t, '\\') && !EscapeFits(t)
    ensures ScanLength(t) < 0 || ReadChars(t).Overrun?
  {
    hide Unicode, Unescape;
  }

  lemma WholeRead(t: string)
    requires At(t, '\\') && forall i | 1 <= i < |t| :: t[i] != '\"' && (t[i] == '\\' ==> i == 6 && Pair(t))
    requires EscapeFits(t)
    ensures ScanLength(t) >= 0 && ReadChars(t).Ok?
  {
    hide Unicode, Unescape, Pair, ScanLength;
    var n := if t[1] == 'u' then 2 + Unicode(t[2..]).1 else 2;
    if Pair(t) {
      PairShape(t);
      PlainRest(t[8..]);
      ScanPair(t);
      PlainRest(t[12..]);
    } else {
      PlainRest(t[2..]);
      ScanSkips(t);
      PlainRest(t[n..]);
    }
  }

  lemma ScanSkips(t: string)
    requires |t| >= 2 && t[0] == '\\' && ScanLength(t[2..]) >= 0
    ensures ScanLength(t) >= 0
  {
  }

  /** The escape at the head of t is the first of a surrogate pair. */
  predicate Pair(t: string) {
    |t| > 1 && t[1] == 'u' && Unicode(t[2..]).1 == 10
  }

  lemma PairShape(t: string)
    requires Pair(t)
    ensures |t| >= 8 && t[1] == 'u' && t[6] == '\\' && t[7] == 'u' && forall i | 2 <= i < 6 :: HexDigit(t[i]) >= 0
    ensures Unicode(t[2..]).1 == 10
  {
  }

  lemma ScanPair(t: string)
    requires |t| >= 8 && t[0] == '\\' && t[6] == '\\' && (forall i | 2 <= i < 6 :: HexDigit(t[i]) >= 0) && ScanLength(t[8..]) >= 0
    ensures ScanLength(t) >= 0
  {
    assert t[6..][2..] == t[8..];
    assert ScanLength(t[6..]) >= 0;
    forall i | 2 <= i < 6 ensures ScanLength(t[i..]) < 0 ==> ScanLength(t[i + 1..]) < 0 {
      assert t[i..][1..] == t[i + 1..] && t[i] != '\\' && t[i] != '\"';
    }
    assert ScanLength(t[5..]) >= 0 && ScanLength(t[4..]) >= 0 && ScanLength(t[3..]) >= 0;
  }

  lemma QuotedValue(q: string)
    requires At(q, '\"')
    ensures Skip(q) == q && (ParseValue(q).Overrun? <==> ParseString(q).Overrun?)
    ensures ParseString(q).Overrun? <==> ScanLength(q[1..]) < 0 || ReadChars(q[1..]).Overrun?
  {
    hide ReadChars, ScanLength;
  }

  lemma {:induction false} PlainRest(t: string)
    requires forall i | 0 <= i < |t| :: t[i] != '\\' && t[i] != '\"'
    ensures ScanLength(t) >= 0 && ReadChars(t).Ok?
  {
    if t != [] {
      PlainRest(t[1..]);
    }
  }

  /** An escape takes at most twelve bytes, so it is enough to look for a backslash in the last eleven. */
  lemma LastEleven(t: string, whole: bool)
    requires forall i | 0 <= i < |t| && |t| - 11 <= i :: t[i] != '\\'
    ensures !ParseDocument(t, whole).Overrun?
  {
    if CutOff(t) {
      var i :| CutAt(t, i);
      EscapeShort(t[i..]);
    }
    NeverOverruns(t, whole);
  }

  lemma EscapeShort(t: string)
    requires !EscapeFits(t)
    ensures |t| <= 11
  {
  }
}
