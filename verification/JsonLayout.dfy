/**
 The layout of a formatted print, told from the unformatted text alone: one pass that keeps a stack of
 the brackets it is in and never looks at the tree.
 */
module JsonLayout {
  import opened JsonText

  /** Outside of string literals, inside of one, or inside behind a backslash. */
  datatype Place = Outside | Inside | Escaped

  /** What is written for the first byte of t in the brackets `open` (true for a brace): a member of an
      object has a line of its own, indented by the number of brackets it is in, an element of an array
      is behind a space, a value behind a tab.  The brace that closes an empty object stands one further
      left. */
  function Written(t: string, open: seq<bool>, place: Place): string
    requires t != []
  {
    if place != Outside then [t[0]]
    else
      match t[0]
      case '{' => if "{}" <= t then "{\n" + Tabs(|open| - 1) + "}" else "{\n" + Tabs(|open| + 1)
      case '}' => "\n" + Tabs(|open| - 1) + "}"
      case ',' => if open != [] && open[|open| - 1] then ",\n" + Tabs(|open|) else ", "
      case ':' => ":\t"
      case c => [c]
  }

  /** The bytes that stands for: the two of an empty object are taken together. */
  function Taken(t: string, place: Place): (n: nat)
    requires t != []
    ensures 1 <= n <= |t|
  {
    if place == Outside && "{}" <= t then 2 else 1
  }

  function OpenBehind(t: string, open: seq<bool>, place: Place): seq<bool>
    requires t != []
  {
    if place != Outside || "{}" <= t then open
    else if t[0] == '{' || t[0] == '[' then open + [t[0] == '{']
    else if (t[0] == '}' || t[0] == ']') && open != [] then open[..|open| - 1]
    else open
  }

  function PlaceBehind(c: char, place: Place): Place {
    match place
    case Outside => if c == '\"' then Inside else Outside
    case Inside => if c == '\\' then Escaped else if c == '\"' then Outside else Inside
    case Escaped => Inside
  }

  /** The text t laid out. */
  function Lay(t: string, open: seq<bool>, place: Place): string
    decreases |t|
  {
    if t == [] then []
    else Written(t, open, place) + Lay(t[Taken(t, place)..], OpenBehind(t, open, place), PlaceBehind(t[0], place))
  }

  lemma LayStep(t: string, open: seq<bool>, place: Place)
    requires t != []
    ensures Lay(t, open, place)
            == Written(t, open, place) + Lay(t[Taken(t, place)..], OpenBehind(t, open, place), PlaceBehind(t[0], place))
  {
    hide Written, OpenBehind, PlaceBehind;
  }

  lemma AtQuote(t: string, open: seq<bool>)
    requires At(t, '\"')
    ensures Lay(t, open, Outside) == "\"" + Lay(t[1..], open, Inside)
  {
    hide Lay;
    LayStep(t, open, Outside);
  }

  lemma AtColon(t: string, open: seq<bool>)
    requires At(t, ':')
    ensures Lay(t, open, Outside) == ":\t" + Lay(t[1..], open, Outside)
  {
    hide Lay;
    LayStep(t, open, Outside);
  }

  lemma AtComma(t: string, open: seq<bool>)
    requires At(t, ',') && open != []
    ensures Lay(t, open, Outside) == (if open[|open| - 1] then ",\n" + Tabs(|open|) else ", ") + Lay(t[1..], open, Outside)
  {
    hide Lay, Tabs;
    LayStep(t, open, Outside);
  }

  lemma AtBrace(t: string, open: seq<bool>)
    requires At(t, '{')
    ensures Lay(t, open, Outside) ==
              if "{}" <= t then "{\n" + Tabs(|open| - 1) + "}" + Lay(t[2..], open, Outside)
              else "{\n" + Tabs(|open| + 1) + Lay(t[1..], open + [true], Outside)
  {
    hide Lay, Tabs;
    LayStep(t, open, Outside);
  }

  lemma AtBracket(t: string, open: seq<bool>)
    requires At(t, '[')
    ensures Lay(t, open, Outside) == "[" + Lay(t[1..], open + [false], Outside)
  {
    hide Lay;
    LayStep(t, open, Outside);
  }

  lemma AtClose(t: string, open: seq<bool>, last: bool)
    requires At(t, if last then '}' else ']')
    ensures Lay(t, open + [last], Outside) == (if last then "\n" + Tabs(|open|) + "}" else "]") + Lay(t[1..], open, Outside)
  {
    hide Lay, Tabs, Written, OpenBehind, Taken, PlaceBehind;
    LayStep(t, open + [last], Outside);
    Popped(t, open, last);
  }

  lemma Popped(t: string, open: seq<bool>, last: bool)
    requires At(t, if last then '}' else ']')
    ensures OpenBehind(t, open + [last], Outside) == open
    ensures Written(t, open + [last], Outside) == if last then "\n" + Tabs(|open|) + "}" else "]"
    ensures Taken(t, Outside) == 1 && PlaceBehind(t[0], Outside) == Outside
  {
    hide Tabs;
    assert (open + [last])[..|open|] == open;
  }

  /** In front of rest, t is laid out as s. */
  predicate Lays(t: string, s: string, open: seq<bool>, rest: string) {
    Lay(t + rest, open, Outside) == s + Lay(rest, open, Outside)
  }

  lemma LaysBoth(t: string, s: string, u: string, v: string, open: seq<bool>, rest: string)
    requires Lays(t, s, open, u + rest) && Lays(u, v, open, rest)
    ensures Lays(t + u, s + v, open, rest)
  {
    hide Lay;
    Regroup(t, u, rest);
    Regroup(s, v, Lay(rest, open, Outside));
  }

  predicate Ordinary(s: string) {
    forall i | 0 <= i < |s| :: s[i] !in {'\"', '{', '}', '[', ']', ',', ':'}
  }

  lemma {:induction false} LaysOrdinary(s: string, open: seq<bool>, rest: string)
    requires Ordinary(s)
    ensures Lays(s, s, open, rest)
  {
    if s == [] {
      assert s + rest == rest && s + Lay(rest, open, Outside) == Lay(rest, open, Outside);
    } else {
      hide Lay;
      LaysOrdinary(s[1..], open, rest);
      LaysOne(s[0], open, s[1..] + rest);
      assert [s[0]] + s[1..] == s;
      LaysBoth([s[0]], [s[0]], s[1..], s[1..], open, rest);
    }
  }

  lemma LaysOne(c: char, open: seq<bool>, rest: string)
    requires c !in {'\"', '{', '}', '[', ']', ',', ':'}
    ensures Lays([c], [c], open, rest)
  {
    assert ([c] + rest)[1..] == rest;
  }

  // ---------------------------------------------------------------- string literals

  lemma LayInside(c: char, open: seq<bool>, rest: string)
    requires c != '\\' && c != '\"'
    ensures Lay([c] + rest, open, Inside) == [c] + Lay(rest, open, Inside)
  {
    assert ([c] + rest)[1..] == rest;
  }

  lemma LayEscape(c: char, open: seq<bool>, rest: string)
    ensures Lay(['\\', c] + rest, open, Inside) == ['\\', c] + Lay(rest, open, Inside)
  {
    hide Lay;
    var t := ['\\', c] + rest;
    assert t[1..] == [c] + rest && t[1..][1..] == rest;
    LayStep(t, open, Inside);
    LayStep(t[1..], open, Escaped);
    Regroup(['\\'], [c], Lay(rest, open, Inside));
    assert ['\\'] + ([c] + Lay(rest, open, Inside)) == ['\\', c] + Lay(rest, open, Inside);
  }

  lemma {:induction false} LayPlain(s: string, open: seq<bool>, rest: string)
    requires forall i | 0 <= i < |s| :: s[i] != '\\' && s[i] != '\"'
    ensures Lay(s + rest, open, Inside) == s + Lay(rest, open, Inside)
  {
    hide Lay;
    if s == [] {
      assert s + rest == rest && s + Lay(rest, open, Inside) == Lay(rest, open, Inside);
    } else {
      LayPlain(s[1..], open, rest);
      LayInside(s[0], open, s[1..] + rest);
      assert [s[0]] + s[1..] == s;
      Regroup([s[0]], s[1..], rest);
      Regroup([s[0]], s[1..], Lay(rest, open, Inside));
    }
  }

  /** One byte that is neither quote nor backslash, or a backslash, a byte and others that are neither. */
  lemma EscapeShape(c: char)
    ensures var e := Escape(c);
            if |e| == 1 then e[0] != '\\' && e[0] != '\"'
            else |e| >= 2 && e[0] == '\\' && forall i | 2 <= i < |e| :: e[i] != '\\' && e[i] != '\"'
  {
  }

  lemma LayEscaped(c: char, open: seq<bool>, rest: string)
    ensures Lay(Escape(c) + rest, open, Inside) == Escape(c) + Lay(rest, open, Inside)
  {
    hide Lay;
    var e := Escape(c);
    EscapeShape(c);
    hide Escape;
    if |e| == 1 {
      LayPlain(e, open, rest);
    } else {
      var h := e[2..];
      LayPlain(h, open, rest);
      LayEscape(e[1], open, h + rest);
      assert e == ['\\', e[1]] + h;
      Regroup(['\\', e[1]], h, rest);
      Regroup(['\\', e[1]], h, Lay(rest, open, Inside));
    }
  }

  lemma {:induction false} LayChars(s: string, open: seq<bool>, rest: string)
    ensures Lay(EscapeAll(s) + ("\"" + rest), open, Inside) == EscapeAll(s) + ("\"" + Lay(rest, open, Outside))
  {
    hide Escape;
    if s == [] {
      assert EscapeAll(s) + ("\"" + rest) == "\"" + rest;
      assert ("\"" + rest)[1..] == rest;
      assert EscapeAll(s) + ("\"" + Lay(rest, open, Outside)) == "\"" + Lay(rest, open, Outside);
    } else {
      hide Lay;
      LayChars(s[1..], open, rest);
      LayEscaped(s[0], open, EscapeAll(s[1..]) + ("\"" + rest));
      Regroup(Escape(s[0]), EscapeAll(s[1..]), "\"" + rest);
      Regroup(Escape(s[0]), EscapeAll(s[1..]), "\"" + Lay(rest, open, Outside));
    }
  }

  /** A string literal is not laid out. */
  lemma LaysQuoted(s: string, open: seq<bool>, rest: string)
    ensures Lays(Quoted(s), Quoted(s), open, rest)
  {
    hide EscapeAll, Lay;
    var t := Quoted(s) + rest;
    LayChars(s, open, rest);
    assert t[0] == '\"' && t[1..] == EscapeAll(s) + ("\"" + rest);
    AtQuote(t, open);
    assert "\"" + (EscapeAll(s) + ("\"" + Lay(rest, open, Outside))) == Quoted(s) + Lay(rest, open, Outside);
  }

  // ---------------------------------------------------------------- brackets and separators

  lemma LaysColon(open: seq<bool>, rest: string)
    ensures Lays(":", ":\t", open, rest)
  {
    hide Lay;
    AtColon(":" + rest, open);
    assert (":" + rest)[1..] == rest;
  }

  lemma LaysComma(open: seq<bool>, rest: string)
    requires open != []
    ensures Lays(",", if open[|open| - 1] then ",\n" + Tabs(|open|) else ", ", open, rest)
  {
    hide Lay;
    AtComma("," + rest, open);
    assert ("," + rest)[1..] == rest;
  }

  lemma LaysEmpty(open: seq<bool>, rest: string)
    ensures Lays("{}", "{\n" + Tabs(|open| - 1) + "}", open, rest)
  {
    hide Lay;
    AtBrace("{}" + rest, open);
    assert ("{}" + rest)[2..] == rest;
  }

  /** A body in brackets, and one in braces. */
  lemma LaysBracketed(t: string, s: string, open: seq<bool>, rest: string)
    requires Lays(t, s, open + [false], "]" + rest)
    ensures Lays("[" + t + "]", "[" + s + "]", open, rest)
  {
    hide Lay;
    var all, close := "[" + t + "]" + rest, "]" + rest;
    assert all[1..] == t + close;
    AtBracket(all, open);
    AtClose(close, open, false);
    assert close[1..] == rest;
    var done := Lay(rest, open, Outside);
    assert "[" + (s + ("]" + done)) == "[" + s + "]" + done;
  }

  lemma LaysBraced(t: string, s: string, open: seq<bool>, rest: string)
    requires Lays(t, s, open + [true], "}" + rest) && t != [] && t[0] != '}'
    ensures Lays("{" + t + "}", "{\n" + Tabs(|open| + 1) + s + "\n" + Tabs(|open|) + "}", open, rest)
  {
    hide Lay, Tabs;
    var all, close := "{" + t + "}" + rest, "}" + rest;
    BracedStart(t, rest);
    AtBrace(all, open);
    AtClose(close, open, true);
    assert close[1..] == rest;
    BracedJoin(Tabs(|open| + 1), s, Tabs(|open|), Lay(rest, open, Outside));
  }

  lemma BracedStart(t: string, rest: string)
    requires t != [] && t[0] != '}'
    ensures var all := "{" + t + "}" + rest;
            all[0] == '{' && all[1..] == t + ("}" + rest) && !("{}" <= all)
  {
    assert ("{" + t + "}" + rest)[1] == t[0];
  }

  lemma BracedJoin(a: string, s: string, b: string, done: string)
    ensures "{\n" + a + (s + ("\n" + b + "}" + done)) == "{\n" + a + s + "\n" + b + "}" + done
  {
  }

  // ---------------------------------------------------------------- trees

  lemma {:induction false} DigitsOrdinary(n: nat)
    ensures Ordinary(Digits(n))
  {
    if n >= 10 {
      DigitsOrdinary(n / 10);
    }
  }

  /** In the brackets `open`, the unformatted print of a value is laid out as its formatted print. */
  lemma {:induction false} LaysValue(j: Json, d: nat, open: seq<bool>, rest: string)
    ensures Lays(Print(j, d, false), Print(j, |open|, true), open, rest)
    decreases j, 3
  {
    hide Lays;
    match j
    case Null => LaysOrdinary("null", open, rest);
    case False => LaysOrdinary("false", open, rest);
    case True => LaysOrdinary("true", open, rest);
    case Number(n, _) =>
      DigitsOrdinary(if n < 0 then -n else n);
      LaysOrdinary(Decimal(n), open, rest);
    case Text(s) => LaysQuoted(s, open, rest);
    case Array(items) => LaysArray(items, d, open, rest);
    case Object(ms) => LaysObject(ms, d, open, rest);
  }

  lemma LaysArray(items: seq<Json>, d: nat, open: seq<bool>, rest: string)
    ensures Lays(Print(Array(items), d, false), Print(Array(items), |open|, true), open, rest)
    decreases items, 2
  {
    hide Lays, PrintItems;
    if items == [] {
      LaysNothing(open + [false], "]" + rest);
      LaysBracketed("", "", open, rest);
      assert "[" + "" + "]" == "[]";
    } else {
      LaysItems(items, d + 1, open + [false], "]" + rest);
      LaysBracketed(PrintItems(items, d + 1, false), PrintItems(items, |open| + 1, true), open, rest);
    }
  }

  lemma LaysNothing(open: seq<bool>, rest: string)
    ensures Lays("", "", open, rest)
  {
    hide Lay;
    assert "" + rest == rest && "" + Lay(rest, open, Outside) == Lay(rest, open, Outside);
  }

  lemma {:induction false} LaysItems(items: seq<Json>, d: nat, open: seq<bool>, rest: string)
    requires items != [] && open != [] && !open[|open| - 1]
    ensures Lays(PrintItems(items, d, false), PrintItems(items, |open|, true), open, rest)
    decreases items, 1
  {
    hide Lays, Print;
    var head, head' := Print(items[0], d, false), Print(items[0], |open|, true);
    if |items| == 1 {
      LaysValue(items[0], d, open, rest);
      assert head + "" == head && head' + "" == head';
    } else {
      var more, more' := PrintItems(items[1..], d, false), PrintItems(items[1..], |open|, true);
      LaysItems(items[1..], d, open, rest);
      LaysComma(open, more + rest);
      LaysBoth(",", ", ", more, more', open, rest);
      LaysValue(items[0], d, open, "," + more + rest);
      LaysBoth(head, head', "," + more, ", " + more', open, rest);
    }
  }

  /** A member without the comma and the line break behind it. */
  function Line(m: Member, d: nat, fmt: bool): string {
    Quoted(m.name) + (if fmt then ":\t" else ":") + Print(m.value, d, fmt)
  }

  lemma LaysLine(m: Member, d: nat, open: seq<bool>, rest: string)
    ensures Lays(Line(m, d, false), Line(m, |open|, true), open, rest)
    decreases m, 4
  {
    hide Lays, Print, Quoted;
    var name, value, value' := Quoted(m.name), Print(m.value, d, false), Print(m.value, |open|, true);
    LaysValue(m.value, d, open, rest);
    LaysColon(open, value + rest);
    LaysQuoted(m.name, open, ":" + (value + rest));
    Regroup(":", value, rest);
    LaysBoth(":", ":\t", value, value', open, rest);
    LaysBoth(name, name, ":" + value, ":\t" + value', open, rest);
    Regroup(name, ":", value);
    Regroup(name, ":\t", value');
  }

  /** The members of an object between the first indentation and the last line break. */
  function Lines(ms: seq<Member>, d: nat, fmt: bool): string
    requires ms != []
  {
    if |ms| == 1 then Line(ms[0], d, fmt)
    else Line(ms[0], d, fmt) + ((if fmt then ",\n" + Tabs(d) else ",") + Lines(ms[1..], d, fmt))
  }

  lemma {:induction false} MembersAreLines(ms: seq<Member>, d: nat, fmt: bool)
    requires ms != []
    ensures PrintMembers(ms, d, fmt) == (if fmt then Tabs(d) else "") + Lines(ms, d, fmt) + (if fmt then "\n" else "")
  {
    hide Tabs, Line, PrintMembers, Lines;
    var lead, end, line := if fmt then Tabs(d) else "", if fmt then "\n" else "", Line(ms[0], d, fmt);
    MembersStep(ms, d, fmt);
    LinesStep(ms, d, fmt);
    if |ms| > 1 {
      MembersAreLines(ms[1..], d, fmt);
      LinesJoin(lead, line, end, Lines(ms[1..], d, fmt));
      CommaIs(d, fmt);
    }
  }

  lemma CommaIs(d: nat, fmt: bool)
    ensures "," + (if fmt then "\n" else "") + (if fmt then Tabs(d) else "") == if fmt then ",\n" + Tabs(d) else ","
  {
    hide Tabs;
  }

  lemma LinesJoin(lead: string, line: string, end: string, more: string)
    ensures lead + line + ("," + end + (lead + more + end)) == lead + (line + ("," + end + lead + more)) + end
  {
  }

  lemma MembersStep(ms: seq<Member>, d: nat, fmt: bool)
    requires ms != []
    ensures var lead, end := if fmt then Tabs(d) else "", if fmt then "\n" else "";
            PrintMembers(ms, d, fmt)
            == lead + Line(ms[0], d, fmt) + (if |ms| == 1 then end else "," + end + PrintMembers(ms[1..], d, fmt))
  {
    hide Tabs, Print, Quoted, Line, PrintMembers;
    var lead, end := if fmt then Tabs(d) else "", if fmt then "\n" else "";
    var name, colon, value := Quoted(ms[0].name), if fmt then ":\t" else ":", Print(ms[0].value, d, fmt);
    LineIs(ms[0], d, fmt);
    MembersUnfold(ms, d, fmt);
    MembersEnd(ms, d, fmt);
    StepJoin(lead, name, colon, value, if |ms| == 1 then "" else ",", end, PrintMembers(ms[1..], d, fmt));
    assert "" + end + "" == end;
  }

  lemma MembersUnfold(ms: seq<Member>, d: nat, fmt: bool)
    requires ms != []
    ensures PrintMembers(ms, d, fmt)
            == (if fmt then Tabs(d) else "") + Quoted(ms[0].name) + (if fmt then ":\t" else ":") + Print(ms[0].value, d, fmt)
               + (if |ms| == 1 then "" else ",") + (if fmt then "\n" else "") + PrintMembers(ms[1..], d, fmt)
  {
    hide Tabs, Print, Quoted;
  }

  lemma StepJoin(lead: string, name: string, colon: string, value: string, comma: string, end: string, more: string)
    ensures lead + name + colon + value + comma + end + more == lead + (name + colon + value) + (comma + end + more)
  {
  }

  lemma MembersEnd(ms: seq<Member>, d: nat, fmt: bool)
    ensures |ms| == 1 ==> PrintMembers(ms[1..], d, fmt) == ""
  {
  }

  lemma LineIs(m: Member, d: nat, fmt: bool)
    ensures Line(m, d, fmt) == Quoted(m.name) + (if fmt then ":\t" else ":") + Print(m.value, d, fmt)
  {
    hide Print, Quoted;
  }

  lemma LinesStep(ms: seq<Member>, d: nat, fmt: bool)
    requires ms != []
    ensures Lines(ms, d, fmt) ==
              if |ms| == 1 then Line(ms[0], d, fmt)
              else Line(ms[0], d, fmt) + ((if fmt then ",\n" + Tabs(d) else ",") + Lines(ms[1..], d, fmt))
  {
    hide Line, Tabs;
  }

  lemma {:induction false} LaysLines(ms: seq<Member>, d: nat, open: seq<bool>, rest: string)
    requires ms != [] && open != [] && open[|open| - 1]
    ensures Lays(Lines(ms, d, false), Lines(ms, |open|, true), open, rest)
    decreases ms, 1
  {
    hide Lays, Line, Tabs;
    var head, head' := Line(ms[0], d, false), Line(ms[0], |open|, true);
    if |ms| == 1 {
      LaysLine(ms[0], d, open, rest);
    } else {
      var more, more', comma := Lines(ms[1..], d, false), Lines(ms[1..], |open|, true), ",\n" + Tabs(|open|);
      LaysLines(ms[1..], d, open, rest);
      LaysComma(open, more + rest);
      LaysBoth(",", comma, more, more', open, rest);
      LaysLine(ms[0], d, open, "," + more + rest);
      LaysBoth(head, head', "," + more, comma + more', open, rest);
    }
  }

  lemma LaysObject(ms: seq<Member>, d: nat, open: seq<bool>, rest: string)
    ensures Lays(Print(Object(ms), d, false), Print(Object(ms), |open|, true), open, rest)
    decreases ms, 2
  {
    hide Lays, PrintMembers, Lines, Tabs;
    if ms == [] {
      LaysEmpty(open, rest);
      assert "{" + "" + "}" == "{}";
      assert "{" + ("\n" + Tabs(|open| - 1)) + "}" == "{\n" + Tabs(|open| - 1) + "}";
    } else {
      var t, s := Lines(ms, d + 1, false), Lines(ms, |open| + 1, true);
      MembersAreLines(ms, d + 1, false);
      MembersAreLines(ms, |open| + 1, true);
      LaysLines(ms, d + 1, open + [true], "}" + rest);
      LinesStart(ms, d + 1, false);
      LaysBraced(t, s, open, rest);
      assert "{" + "" + ("" + t + "") + "" + "}" == "{" + t + "}";
      assert "{" + "\n" + (Tabs(|open| + 1) + s + "\n") + Tabs(|open|) + "}" == "{\n" + Tabs(|open| + 1) + s + "\n" + Tabs(|open|) + "}";
    }
  }

  lemma LinesStart(ms: seq<Member>, d: nat, fmt: bool)
    requires ms != []
    ensures Lines(ms, d, fmt) != [] && Lines(ms, d, fmt)[0] == '\"'
  {
    hide Print, EscapeAll, Tabs;
  }

  /** The formatted print of every tree is its unformatted print, laid out. */
  lemma FormattedIsLaid(j: Json)
    ensures Print(j, 0, true) == Lay(Print(j, 0, false), [], Outside)
  {
    hide Print, Lay;
    LaysValue(j, 0, [], "");
    LayNothing();
    assert Print(j, 0, false) + "" == Print(j, 0, false);
    assert Print(j, 0, true) + "" == Print(j, 0, true);
  }

  lemma LayNothing()
    ensures Lay("", [], Outside) == ""
  {
  }
}
