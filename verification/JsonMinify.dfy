/** cJSON_Minify: dropping whitespace and comments from a text, in place. */
module JsonMinify {
  import opened Common
  import opened JsonText

  // ---------------------------------------------------------------- what it computes

  /** The rest of the text from the end of the line, where a // comment stops. */
  function LineEnd(t: string): (r: string)
    ensures |r| <= |t|
  {
    if t == [] || t[0] == '\n' then t else LineEnd(t[1..])
  }

  /** The rest of the text behind a multi-line comment, if it is closed. */
  function CommentEnd(t: string): (r: Option<string>)
    ensures r.Some? ==> |r.value| < |t|
  {
    if t == [] then None
    else if "*/" <= t then Some(t[2..])
    else CommentEnd(t[1..])
  }

  /** The rest of a string literal behind its opening quote: its bytes and what follows, if it is closed. */
  function Literal(t: string): (r: Option<(string, string)>)
    ensures r.Some? ==> |r.value.1| < |t| && t == r.value.0 + r.value.1
    decreases |t|
  {
    if t == [] then None
    else if t[0] == '\"' then Some(([t[0]], t[1..]))
    else
      var n := if t[0] == '\\' then 2 else 1;
      if |t| < n then None
      else
        match Literal(t[n..])
        case None => None
        case Some((s, rest)) => assert t[..n] + t[n..] == t; Some((t[..n] + s, rest))
  }

  predicate IsBlank(c: char) {
    c == ' ' || c == '\t' || c == '\r' || c == '\n'
  }

  /** The minified text, or None when the code would run past the terminator: an open
      string literal or an open multi-line comment. */
  function Minify(t: string): Option<string>
    decreases |t|
  {
    if t == [] then Some("")
    else if IsBlank(t[0]) then Minify(t[1..])
    else if "//" <= t then (assert LineEnd(t) == LineEnd(t[1..]); Minify(LineEnd(t)))
    else if "/*" <= t then (match CommentEnd(t) case None => None case Some(rest) => Minify(rest))
    else if t[0] == '\"' then
      match Literal(t[1..])
      case None => None
      case Some((s, rest)) => After("\"" + s, Minify(rest))
    else After([t[0]], Minify(t[1..]))
  }

  function After(s: string, r: Option<string>): Option<string> {
    match r
    case None => None
    case Some(m) => Some(s + m)
  }

  // ---------------------------------------------------------------- which texts have one

  /** What a position in a text is inside of: nothing; nothing, behind a slash; a comment to the end
      of the line; a multi-line comment; one, behind a star; a string literal; one, behind a backslash. */
  datatype Mode = Plain | Slash | Line | Block | Star | Quote | Backslash

  /** The star that opens a multi-line comment counts as the one that closes it. */
  function Next(m: Mode, c: char): Mode {
    match m
    case Plain | Slash =>
      if m == Slash && c == '/' then Line
      else if m == Slash && c == '*' then Star
      else if c == '/' then Slash
      else if c == '\"' then Quote
      else Plain
    case Line => if c == '\n' then Plain else Line
    case Block | Star => if m == Star && c == '/' then Plain else if c == '*' then Star else Block
    case Quote => if c == '\"' then Plain else if c == '\\' then Backslash else Quote
    case Backslash => Quote
  }

  function Scan(m: Mode, t: string): Mode
    decreases |t|
  {
    if t == [] then m else Scan(Next(m, t[0]), t[1..])
  }

  /** The text ends outside of string literals and multi-line comments. */
  predicate Closed(t: string) {
    Scan(Plain, t) in {Plain, Slash, Line}
  }

  lemma {:induction false} ScanLine(t: string)
    ensures LineEnd(t) == [] ==> Scan(Line, t) == Line
    ensures LineEnd(t) != [] ==> Scan(Line, t) == Scan(Plain, LineEnd(t))
  {
    if t != [] && t[0] != '\n' {
      ScanLine(t[1..]);
    }
  }

  lemma {:induction false} ScanComment(t: string)
    ensures match CommentEnd(t)
            case None => Scan(Block, t) in {Block, Star}
            case Some(rest) => Scan(Block, t) == Scan(Plain, rest)
  {
    if t != [] && "*/" <= t {
      assert Scan(Block, t) == Scan(Star, t[1..]) && t[1..][1..] == t[2..];
    } else if t != [] {
      ScanComment(t[1..]);
      assert t[0] == '*' && t[1..] != [] ==> t[1] != '/';
    }
  }

  lemma {:induction false} ScanLiteral(t: string)
    ensures match Literal(t)
            case None => Scan(Quote, t) in {Quote, Backslash}
            case Some((_, rest)) => Scan(Quote, t) == Scan(Plain, rest)
    decreases |t|
  {
    if t != [] && t[0] == '\\' {
      if |t| > 1 {
        assert Scan(Quote, t) == Scan(Backslash, t[1..]) && t[1..][1..] == t[2..];
        ScanLiteral(t[2..]);
      }
    } else if t != [] && t[0] != '\"' {
      ScanLiteral(t[1..]);
    }
  }

  lemma ScanTwo(m: Mode, t: string)
    requires |t| > 1
    ensures Scan(m, t) == Scan(Next(Next(m, t[0]), t[1]), t[2..])
  {
    assert t[1..][1..] == t[2..];
  }

  /** The code stays inside the text exactly if no string literal and no comment is left open. */
  lemma {:induction false} MinifyIffClosed(t: string)
    ensures Minify(t).Some? <==> Closed(t)
    decreases |t|
  {
    hide LineEnd, CommentEnd, Literal, Next;
    if t == [] {
    } else if IsBlank(t[0]) {
      MinifyIffClosed(t[1..]);
      PlainStep(t);
    } else if "//" <= t {
      LineOpens(t);
      MinifyIffClosed(LineEnd(t));
    } else if "/*" <= t {
      BlockOpens(t);
      if CommentEnd(t).Some? {
        MinifyIffClosed(CommentEnd(t).value);
      }
    } else if t[0] == '\"' {
      QuoteOpens(t);
      if Literal(t[1..]).Some? {
        MinifyIffClosed(Literal(t[1..]).value.1);
      }
    } else {
      MinifyIffClosed(t[1..]);
      PlainStep(t);
    }
  }

  lemma PlainStep(t: string)
    requires t != [] && t[0] != '\"' && !("//" <= t) && !("/*" <= t)
    ensures Closed(t) <==> Closed(t[1..])
  {
    var u := t[1..];
    assert Scan(Plain, t) == Scan(Next(Plain, t[0]), u);
    if t[0] == '/' && u != [] {
      assert u[0] == t[1];
      assert t[1] == '/' ==> "//" <= t;
      assert t[1] == '*' ==> "/*" <= t;
      assert Next(Slash, u[0]) == Next(Plain, u[0]);
      assert Scan(Slash, u) == Scan(Plain, u);
    }
  }

  lemma LineOpens(t: string)
    requires "//" <= t
    ensures Closed(t) <==> Closed(LineEnd(t))
    ensures |LineEnd(t)| < |t|
  {
    ScanTwo(Plain, t);
    ScanLine(t[2..]);
    assert LineEnd(t) == LineEnd(t[1..]) && t[1..][1..] == t[2..];
    LineEndRefl(t[2..]);
  }

  lemma LineEndRefl(t: string)
    ensures |LineEnd(t)| <= |t|
  {
  }

  lemma BlockOpens(t: string)
    requires "/*" <= t
    ensures CommentEnd(t).None? ==> !Closed(t)
    ensures CommentEnd(t).Some? ==> (Closed(t) <==> Closed(CommentEnd(t).value))
  {
    ScanTwo(Plain, t);
    assert Scan(Block, t[1..]) == Scan(Star, t[2..]) by { assert t[1..][1..] == t[2..]; }
    ScanComment(t[1..]);
  }

  lemma QuoteOpens(t: string)
    requires t != [] && t[0] == '\"'
    ensures Literal(t[1..]).None? ==> !Closed(t)
    ensures Literal(t[1..]).Some? ==> (Closed(t) <==> Closed(Literal(t[1..]).value.1))
  {
    ScanLiteral(t[1..]);
  }

  // ---------------------------------------------------------------- on printed text

  lemma {:induction false} MinifyPlain(s: string, rest: string)
    requires forall i | 0 <= i < |s| :: s[i] > ' ' && s[i] != '/' && s[i] != '\"'
    ensures Minify(s + rest) == After(s, Minify(rest))
  {
    if s == [] {
      assert s + rest == rest;
      AfterNothing(Minify(rest));
    } else {
      MinifyPlain(s[1..], rest);
      assert (s + rest)[1..] == s[1..] + rest;
      assert s == [s[0]] + s[1..];
      AfterAfter([s[0]], s[1..], Minify(rest));
    }
  }

  lemma AfterNothing(r: Option<string>)
    ensures After("", r) == r
  {
    if r.Some? {
      assert "" + r.value == r.value;
    }
  }

  lemma AfterAfter(a: string, b: string, r: Option<string>)
    ensures After(a, After(b, r)) == After(a + b, r)
  {
    if r.Some? {
      assert a + (b + r.value) == a + b + r.value;
    }
  }

  lemma MinifyTabs(n: int, rest: string)
    ensures Minify(Tabs(n) + rest) == Minify(rest)
  {
    if n <= 0 {
      assert Tabs(n) + rest == rest;
    } else {
      MinifyTabs(n - 1, rest);
      assert (Tabs(n) + rest)[1..] == Tabs(n - 1) + rest;
    }
  }

  lemma MinifyBlank(c: char, rest: string)
    requires IsBlank(c)
    ensures Minify([c] + rest) == Minify(rest)
  {
    assert ([c] + rest)[1..] == rest;
  }

  /** The literal read from t is s and what follows is rest. */
  predicate Reads(t: string, s: string, rest: string) {
    Literal(t) == Some((s, rest))
  }

  lemma {:induction false} LiteralPlain(s: string, t: string, l: string, rest: string)
    requires Reads(t, l, rest) && forall i | 0 <= i < |s| :: s[i] != '\\' && s[i] != '\"'
    ensures Reads(s + t, s + l, rest)
  {
    if s == [] {
      assert s + t == t && s + l == l;
    } else {
      LiteralPlain(s[1..], t, l, rest);
      assert (s + t)[1..] == s[1..] + t && (s + t)[..1] == [s[0]];
      assert s + l == [s[0]] + (s[1..] + l);
    }
  }

  lemma LiteralPair(c: char, t: string, l: string, rest: string)
    requires Reads(t, l, rest)
    ensures Reads(['\\', c] + t, ['\\', c] + l, rest)
  {
    assert (['\\', c] + t)[2..] == t && (['\\', c] + t)[..2] == ['\\', c];
  }

  lemma LiteralEscape(c: char, t: string, l: string, rest: string)
    requires Reads(t, l, rest)
    ensures Reads(Escape(c) + t, Escape(c) + l, rest)
  {
    hide Reads;
    var e := Escape(c);
    if |e| == 1 {
      LiteralPlain(e, t, l, rest);
    } else {
      var h := e[2..];
      LiteralPlain(h, t, l, rest);
      LiteralPair(e[1], h + t, h + l, rest);
      assert e + t == ['\\', e[1]] + (h + t);
      assert e + l == ['\\', e[1]] + (h + l);
    }
  }

  lemma {:induction false} LiteralQuoted(s: string, rest: string)
    ensures Reads(EscapeAll(s) + "\"" + rest, EscapeAll(s) + "\"", rest)
  {
    hide Reads, Escape;
    if s == [] {
      assert EscapeAll(s) + "\"" + rest == "\"" + rest && EscapeAll(s) + "\"" == "\"";
      LiteralEnd(rest);
    } else {
      LiteralQuoted(s[1..], rest);
      LiteralEscape(s[0], EscapeAll(s[1..]) + "\"" + rest, EscapeAll(s[1..]) + "\"", rest);
      assert EscapeAll(s) + "\"" + rest == Escape(s[0]) + (EscapeAll(s[1..]) + "\"" + rest);
      assert EscapeAll(s) + "\"" == Escape(s[0]) + (EscapeAll(s[1..]) + "\"");
    }
  }

  lemma LiteralEnd(rest: string)
    ensures Reads("\"" + rest, "\"", rest)
  {
    assert ("\"" + rest)[1..] == rest;
  }

  lemma MinifyQuoted(s: string, rest: string)
    ensures Minify(Quoted(s) + rest) == After(Quoted(s), Minify(rest))
  {
    hide Literal, LineEnd, CommentEnd, EscapeAll;
    var t := Quoted(s) + rest;
    LiteralQuoted(s, rest);
    assert t[1..] == EscapeAll(s) + "\"" + rest;
    assert Quoted(s) == "\"" + (EscapeAll(s) + "\"");
    assert t[0] == '\"';
  }

  /** Text t in front of rest minifies to s in front of what rest minifies to. */
  predicate MinifiesTo(t: string, s: string, rest: string) {
    Minify(t + rest) == After(s, Minify(rest))
  }

  lemma MinifiesBoth(t: string, s: string, u: string, v: string, rest: string)
    requires MinifiesTo(t, s, u + rest) && MinifiesTo(u, v, rest)
    ensures MinifiesTo(t + u, s + v, rest)
  {
    AfterAfter(s, v, Minify(rest));
    assert t + u + rest == t + (u + rest);
  }

  lemma MinifiesPlain(s: string, rest: string)
    requires forall i | 0 <= i < |s| :: s[i] > ' ' && s[i] != '/' && s[i] != '\"'
    ensures MinifiesTo(s, s, rest)
  {
    MinifyPlain(s, rest);
  }

  lemma MinifiesQuoted(s: string, rest: string)
    ensures MinifiesTo(Quoted(s), Quoted(s), rest)
  {
    MinifyQuoted(s, rest);
  }

  /** Whitespace of the printer: tabs behind at most one other blank. */
  lemma MinifiesBlank(c: string, n: int, rest: string)
    requires |c| <= 1 && (c == "" || IsBlank(c[0]))
    ensures MinifiesTo(c + Tabs(n), "", rest)
  {
    MinifyTabs(n, rest);
    AfterNothing(Minify(rest));
    if c == "" {
      assert c + Tabs(n) + rest == Tabs(n) + rest;
    } else {
      MinifyBlank(c[0], Tabs(n) + rest);
      assert c + Tabs(n) + rest == [c[0]] + (Tabs(n) + rest);
    }
  }

  lemma {:induction false} DigitsPlain(n: nat)
    ensures forall i | 0 <= i < |Digits(n)| :: Digits(n)[i] > ' ' && Digits(n)[i] != '/' && Digits(n)[i] != '\"'
  {
    if n >= 10 {
      DigitsPlain(n / 10);
    }
  }

  function Blank(fmt: bool, c: char): string {
    if fmt then [c] else ""
  }

  lemma NoTabs(fmt: bool, c: char)
    ensures Blank(fmt, c) + Tabs(0) == Blank(fmt, c)
  {
  }

  /** Colon, value and, but for the last, comma of one member. */
  lemma MinifiesTail(m: Member, comma: string, d: nat, d': nat, fmt: bool, rest: string)
    requires comma == "" || comma == ","
    ensures MinifiesTo(":" + (Blank(fmt, '\t') + (Print(m.value, d, fmt) + (comma + Blank(fmt, '\n')))),
                       ":" + ("" + (Print(m.value, d', false) + (comma + ""))), rest)
    decreases m, 0
  {
    hide Minify, Tabs, Print, MinifiesTo, Blank;
    var line, tab := Blank(fmt, '\n'), Blank(fmt, '\t');
    var value, value' := Print(m.value, d, fmt), Print(m.value, d', false);
    BlankIs(fmt, '\n');
    BlankIs(fmt, '\t');
    NoTabs(fmt, '\n');
    NoTabs(fmt, '\t');
    MinifiesBlank(line, 0, rest);
    MinifiesPlain(comma, line + rest);
    MinifiesBoth(comma, comma, line, "", rest);
    MinifiesValue(m.value, d, d', fmt, comma + line + rest);
    MinifiesBoth(value, value', comma + line, comma + "", rest);
    MinifiesBlank(tab, 0, value + (comma + line) + rest);
    MinifiesBoth(tab, "", value + (comma + line), value' + (comma + ""), rest);
    MinifiesPlain(":", tab + (value + (comma + line)) + rest);
    MinifiesBoth(":", ":", tab + (value + (comma + line)), "" + (value' + (comma + "")), rest);
  }

  /** One member: whitespace, name, and the rest of it. */
  lemma MinifiesMember(m: Member, last: bool, d: nat, d': nat, fmt: bool, rest: string)
    ensures MinifiesTo((if fmt then Tabs(d) else "") + Quoted(m.name) + (if fmt then ":\t" else ":")
                       + Print(m.value, d, fmt) + (if last then "" else ",") + Blank(fmt, '\n'),
                       Quoted(m.name) + ":" + Print(m.value, d', false) + (if last then "" else ","), rest)
    decreases m, 1
  {
    hide Minify, Quoted, Tabs, Print, MinifiesTo;
    var comma, n := if last then "" else ",", if fmt then d else 0;
    var value, value' := Print(m.value, d, fmt), Print(m.value, d', false);
    var name := Quoted(m.name);
    MinifiesTail(m, comma, d, d', fmt, rest);
    var t := ":" + (Blank(fmt, '\t') + (value + (comma + Blank(fmt, '\n'))));
    var s := ":" + ("" + (value' + (comma + "")));
    MinifiesQuoted(m.name, t + rest);
    MinifiesBoth(name, name, t, s, rest);
    MinifiesBlank("", n, name + t + rest);
    MinifiesBoth("" + Tabs(n), "", name + t, name + s, rest);
    TabsNone();
    assert "" + Tabs(n) + (name + t) == (if fmt then Tabs(d) else "") + name + (if fmt then ":\t" else ":") + value + comma + Blank(fmt, '\n');
    assert "" + (name + s) == name + ":" + value' + comma;
  }

  lemma TabsNone()
    ensures Tabs(0) == ""
  {
  }

  lemma BlankIs(fmt: bool, c: char)
    requires IsBlank(c)
    ensures Blank(fmt, c) == (if fmt then [c] else "") && (Blank(fmt, c) == "" || IsBlank(Blank(fmt, c)[0])) && |Blank(fmt, c)| <= 1
  {
  }

  lemma {:induction false} MinifiesMembers(ms: seq<Member>, d: nat, d': nat, fmt: bool, rest: string)
    ensures MinifiesTo(PrintMembers(ms, d, fmt), PrintMembers(ms, d', false), rest)
    decreases ms, 0
  {
    hide Minify, Quoted, Tabs, Print, Blank;
    if ms == [] {
      assert "" + rest == rest;
      AfterNothing(Minify(rest));
    } else {
      hide MinifiesTo;
      var last := |ms| == 1;
      var comma := if last then "" else ",";
      var more, more' := PrintMembers(ms[1..], d, fmt), PrintMembers(ms[1..], d', false);
      MinifiesMembers(ms[1..], d, d', fmt, rest);
      MinifiesMember(ms[0], last, d, d', fmt, more + rest);
      BlankIs(fmt, '\n');
      var t := (if fmt then Tabs(d) else "") + Quoted(ms[0].name) + (if fmt then ":\t" else ":") + Print(ms[0].value, d, fmt) + comma + Blank(fmt, '\n');
      var s := Quoted(ms[0].name) + ":" + Print(ms[0].value, d', false) + comma;
      MinifiesBoth(t, s, more, more', rest);
      assert PrintMembers(ms, d, fmt) == t + more;
      assert PrintMembers(ms, d', false) == s + more';
    }
  }

  lemma {:induction false} MinifiesItems(items: seq<Json>, d: nat, d': nat, fmt: bool, rest: string)
    requires items != []
    ensures MinifiesTo(PrintItems(items, d, fmt), PrintItems(items, d', false), rest)
    decreases items, 0
  {
    hide Minify, Print, MinifiesTo, Blank, Tabs;
    var head, head' := Print(items[0], d, fmt), Print(items[0], d', false);
    if |items| == 1 {
      MinifiesValue(items[0], d, d', fmt, rest);
      assert PrintItems(items, d, fmt) == head && PrintItems(items, d', false) == head';
    } else {
      var more, more', space := PrintItems(items[1..], d, fmt), PrintItems(items[1..], d', false), Blank(fmt, ' ');
      MinifiesItems(items[1..], d, d', fmt, rest);
      BlankIs(fmt, ' ');
      MinifiesBlank(space, 0, more + rest);
      NoTabs(fmt, ' ');
      MinifiesBoth(space, "", more, more', rest);
      MinifiesPlain(",", space + more + rest);
      MinifiesBoth(",", ",", space + more, "" + more', rest);
      MinifiesValue(items[0], d, d', fmt, "," + (space + more) + rest);
      MinifiesBoth(head, head', "," + (space + more), "," + ("" + more'), rest);
      assert PrintItems(items, d, fmt) == head + ("," + (space + more));
      assert PrintItems(items, d', false) == head' + ("," + ("" + more'));
    }
  }

  lemma MinifiesValue(j: Json, d: nat, d': nat, fmt: bool, rest: string)
    ensures MinifiesTo(Print(j, d, fmt), Print(j, d', false), rest)
    decreases j, 1
  {
    match j
    case Null => MinifiesPlain("null", rest);
    case False => MinifiesPlain("false", rest);
    case True => MinifiesPlain("true", rest);
    case Number(n, _) =>
      DigitsPlain(if n < 0 then -n else n);
      MinifiesPlain(Decimal(n), rest);
    case Text(s) => MinifiesQuoted(s, rest);
    case Array(items) => MinifiesArray(items, d, d', fmt, rest);
    case Object(ms) => MinifiesObject(ms, d, d', fmt, rest);
  }

  lemma MinifiesArray(items: seq<Json>, d: nat, d': nat, fmt: bool, rest: string)
    ensures MinifiesTo(Print(Array(items), d, fmt), Print(Array(items), d', false), rest)
    decreases items, 1
  {
    hide Minify, MinifiesTo, PrintItems;
    if items == [] {
      MinifiesPlain("[]", rest);
    } else {
      var body, body' := PrintItems(items, d + 1, fmt), PrintItems(items, d' + 1, false);
      MinifiesPlain("]", rest);
      MinifiesItems(items, d + 1, d' + 1, fmt, "]" + rest);
      MinifiesBoth(body, body', "]", "]", rest);
      MinifiesPlain("[", body + "]" + rest);
      MinifiesBoth("[", "[", body + "]", body' + "]", rest);
      assert Print(Array(items), d, fmt) == "[" + (body + "]");
      assert Print(Array(items), d', false) == "[" + (body' + "]");
    }
  }

  /** The text of an object behind its opening brace. */
  function Body(ms: seq<Member>, d: nat, fmt: bool): string {
    if ms == [] then Blank(fmt, '\n') + Tabs(if fmt then d - 1 else 0) + "}"
    else Blank(fmt, '\n') + (PrintMembers(ms, d + 1, fmt) + ("" + Tabs(if fmt then d else 0) + "}"))
  }

  lemma ObjectBody(ms: seq<Member>, d: nat, fmt: bool)
    ensures Print(Object(ms), d, fmt) == "{" + Body(ms, d, fmt)
    ensures !fmt ==> Body(ms, d, fmt) == if ms == [] then "" + "}" else "" + (PrintMembers(ms, d + 1, false) + ("" + "}"))
  {
    hide PrintMembers;
  }

  lemma MinifiesObject(ms: seq<Member>, d: nat, d': nat, fmt: bool, rest: string)
    ensures MinifiesTo(Print(Object(ms), d, fmt), Print(Object(ms), d', false), rest)
    decreases ms, 2
  {
    hide Minify, MinifiesTo, Print, PrintMembers, Tabs, Blank;
    ObjectBody(ms, d, fmt);
    ObjectBody(ms, d', false);
    if ms == [] {
      var lead := Blank(fmt, '\n') + Tabs(if fmt then d - 1 else 0);
      BlankIs(fmt, '\n');
      MinifiesPlain("}", rest);
      MinifiesBlank(Blank(fmt, '\n'), if fmt then d - 1 else 0, "}" + rest);
      MinifiesBoth(lead, "", "}", "}", rest);
    } else {
      MinifiesBody(ms, d, d', fmt, rest);
    }
    MinifiesPlain("{", Body(ms, d, fmt) + rest);
    MinifiesBoth("{", "{", Body(ms, d, fmt), Body(ms, d', false), rest);
  }

  /** The text of a non-empty object behind its opening brace. */
  lemma MinifiesBody(ms: seq<Member>, d: nat, d': nat, fmt: bool, rest: string)
    ensures MinifiesTo(Blank(fmt, '\n') + (PrintMembers(ms, d + 1, fmt) + ("" + Tabs(if fmt then d else 0) + "}")),
                       "" + (PrintMembers(ms, d' + 1, false) + ("" + "}")), rest)
    decreases ms, 1
  {
    hide Minify, MinifiesTo, PrintMembers, Tabs, Blank;
    var line, n := Blank(fmt, '\n'), if fmt then d else 0;
    var body, body' := PrintMembers(ms, d + 1, fmt), PrintMembers(ms, d' + 1, false);
    MinifiesPlain("}", rest);
    MinifiesBlank("", n, "}" + rest);
    MinifiesBoth("" + Tabs(n), "", "}", "}", rest);
    var t, s := "" + Tabs(n) + "}", "" + "}";
    MinifiesMembers(ms, d + 1, d' + 1, fmt, t + rest);
    MinifiesBoth(body, body', t, s, rest);
    BlankIs(fmt, '\n');
    NoTabs(fmt, '\n');
    MinifiesBlank(line, 0, body + t + rest);
    MinifiesBoth(line, "", body + t, body' + s, rest);
  }

  /** Minifying a print of a tree, formatted or not, gives its unformatted print. */
  lemma MinifyPrinted(j: Json, fmt: bool)
    ensures Minify(Print(j, 0, fmt)) == Some(Print(j, 0, false))
  {
    MinifiesValue(j, 0, 0, fmt, "");
    assert Print(j, 0, fmt) + "" == Print(j, 0, fmt);
    assert Print(j, 0, false) + "" == Print(j, 0, false);
  }

  // ---------------------------------------------------------------- in place

  /** A pointer to index i points at the C string t. */
  ghost predicate Points(a: seq<char>, i: nat, t: string) {
    HoldsAt(a, i, t) && CString(t)
  }

  /** Reading on: the byte at i, and the rest behind it. */
  lemma PointsNext(a: seq<char>, i: nat, t: string)
    requires Points(a, i, t)
    ensures a[i] == '\0' <==> t == []
    ensures t != [] ==> a[i] == t[0] && i + 1 < |a| && Points(a, i + 1, t[1..]) && (a[i + 1] == '\0' <==> t[1..] == [])
    ensures |t| > 1 ==> a[i + 1] == t[1] && Points(a, i + 2, t[2..])
  {
    if t != [] {
      assert a[i] == a[i..i + |t|][0];
      assert a[i + 1..i + 1 + |t[1..]|] == t[1..];
      if |t| > 1 {
        assert a[i + 1] == a[i..i + |t|][1];
        assert a[i + 2..i + 2 + |t[2..]|] == t[2..];
      }
    }
  }

  /** *into++ = *json++ on a byte of the string t. */
  method CopyByte(a: array<char>, into: nat, json: nat, ghost t: string)
    requires into <= json && Points(a[..], json, t) && t != []
    modifies a
    ensures Points(a[..], json + 1, t[1..])
    ensures into < a.Length && a[..into + 1] == old(a[..into]) + t[..1] && t[..1] == [t[0]]
  {
    PointsNext(a[..], json, t);
    ghost var s := a[..];
    a[into] := a[json];
    assert a[..] == s[into := t[0]];
    assert a[..][json + 1..json + 1 + |t[1..]|] == s[json + 1..json + 1 + |t[1..]|];
    assert a[..into] == s[..into];
  }

  lemma MinifyNothing()
    ensures Minify("") == Some("")
  {
  }

  /** One turn of the loop of cJSON_Minify behind the output out. */
  lemma MinifyTurn(u: string, out: string)
    requires u != [] && Minify(u).Some?
    ensures "//" <= u <==> |u| > 1 && u[0] == '/' && u[1] == '/'
    ensures "/*" <= u <==> |u| > 1 && u[0] == '/' && u[1] == '*'
    ensures IsBlank(u[0]) ==> Minify(u[1..]) == Minify(u)
    ensures u[0] == '\"' ==>
              && Literal(u[1..]).Some? && Minify(Literal(u[1..]).value.1).Some?
              && out + Minify(u).value == out + ("\"" + Literal(u[1..]).value.0) + Minify(Literal(u[1..]).value.1).value
    ensures !IsBlank(u[0]) && !("//" <= u) && !("/*" <= u) && u[0] != '\"' ==>
              Minify(u[1..]).Some? && out + Minify(u).value == out + u[..1] + Minify(u[1..]).value
  {
    hide Literal, LineEnd, CommentEnd;
    assert u[..1] == [u[0]];
    if u[0] == '\"' {
      var lit := Literal(u[1..]).value;
      Regroup(out, "\"" + lit.0, Minify(lit.1).value);
    } else if !IsBlank(u[0]) && !("//" <= u) && !("/*" <= u) {
      Regroup(out, u[..1], Minify(u[1..]).value);
    }
  }

  /** cJSON_Minify of the C string t in the buffer.  `json` reads, `into` writes behind it. */
  method MinifyInPlace(a: array<char>, ghost t: string)
    requires Points(a[..], 0, t) && Closed(t)
    modifies a
    ensures Minify(t).Some? && HoldsAt(a[..], 0, Minify(t).value)
  {
    hide Points, Literal, LineEnd, CommentEnd, Minify;
    var json: nat, into: nat := 0, 0;
    ghost var u := t;   // what json points at
    MinifyIffClosed(t);
    PointsInside(a[..], 0, t);
    assert a[..0] == [];
    assert [] + Minify(t).value == Minify(t).value;
    while a[json] != '\0'
      invariant into <= json < a.Length && Points(a[..], json, u)
      invariant Minify(u).Some? && a[..into] + Minify(u).value == Minify(t).value
      decreases |u|
    {
      PointsNext(a[..], json, u);
      MinifyTurn(u, a[..into]);
      if IsBlank(a[json]) {
        json := json + 1;
        u := u[1..];
      } else if a[json] == '/' && a[json + 1] == '/' {
        json, u := SkipLine(a, json, u);
      } else if a[json] == '/' && a[json + 1] == '*' {
        json, u := SkipComment(a, json, u);
      } else if a[json] == '\"' {
        json, into, u := CopyLiteral(a, json, into, u);
      } else {
        CopyByte(a, into, json, u);
        into, json := into + 1, json + 1;
        u := u[1..];
      }
      PointsInside(a[..], json, u);
    }
    PointsNext(a[..], json, u);
    MinifyNothing();
    ghost var m := a[..into];
    assert m + "" == m;
    a[into] := '\0';
    assert a[..into] == m;
  }

  lemma PointsInside(a: seq<char>, i: nat, t: string)
    requires Points(a, i, t)
    ensures i < |a|
  {
  }

  /** The loop over a comment to the end of the line. */
  method SkipLine(a: array<char>, from: nat, ghost t: string) returns (json: nat, ghost u: string)
    requires Points(a[..], from, t) && "//" <= t
    ensures from < json < a.Length && Points(a[..], json, u) && |u| < |t|
    ensures Minify(u) == Minify(t)
  {
    hide Points;
    json, u := from, t;
    PointsInside(a[..], json, u);
    while a[json] != '\0' && a[json] != '\n'
      invariant from <= json < a.Length && Points(a[..], json, u) && |u| <= |t| && json + |u| == from + |t|
      invariant LineEnd(u) == LineEnd(t)
      decreases |u|
    {
      PointsNext(a[..], json, u);
      json, u := json + 1, u[1..];
      PointsInside(a[..], json, u);
    }
    PointsNext(a[..], json, u);
    assert LineEnd(t) == LineEnd(t[1..]);
  }

  /** The loop over a multi-line comment. */
  method SkipComment(a: array<char>, from: nat, ghost t: string) returns (json: nat, ghost u: string)
    requires Points(a[..], from, t) && "/*" <= t && Minify(t).Some?
    ensures from < json < a.Length && Points(a[..], json, u) && |u| < |t|
    ensures Minify(u) == Minify(t)
  {
    hide Points;
    json, u := from, t;
    PointsInside(a[..], json, u);
    PointsNext(a[..], json, u);
    while a[json] != '\0' && !(a[json] == '*' && a[json + 1] == '/')
      invariant from <= json < a.Length && Points(a[..], json, u) && json + |u| == from + |t|
      invariant a[json] != '\0' ==> json + 1 < a.Length
      invariant CommentEnd(u) == CommentEnd(t)
      decreases |u|
    {
      PointsNext(a[..], json, u);
      json, u := json + 1, u[1..];
      PointsInside(a[..], json, u);
      PointsNext(a[..], json, u);
    }
    PointsNext(a[..], json, u);
    json, u := json + 2, u[2..];
    PointsInside(a[..], json, u);
  }

  /** A backslash and the byte behind it. */
  method CopyPair(a: array<char>, into: nat, json: nat, ghost t: string)
    requires into <= json && Points(a[..], json, t) && |t| >= 2
    modifies a
    ensures Points(a[..], json + 2, t[2..])
    ensures into + 1 < a.Length && a[..into + 2] == old(a[..into]) + t[..2]
  {
    CopyByte(a, into, json, t);
    CopyByte(a, into + 1, json + 1, t[1..]);
    assert t[1..][1..] == t[2..];
  }

  /** One turn of the loop over a literal. */
  lemma LiteralStep(u: string)
    requires Literal(u).Some?
    ensures u != []
    ensures u[0] == '\"' ==> Literal(u).value == (u[..1], u[1..])
    ensures u[0] != '\"' ==>
              var n := if u[0] == '\\' then 2 else 1;
              |u| >= n && Literal(u[n..]).Some?
              && Literal(u).value == (u[..n] + Literal(u[n..]).value.0, Literal(u[n..]).value.1)
  {
  }

  /** With o written and u to be read, the literal will be whole and followed by rest. */
  ghost predicate Pending(o: string, u: string, whole: string, rest: string) {
    Literal(u).Some? && o + Literal(u).value.0 == whole && Literal(u).value.1 == rest
  }

  lemma PendingNext(o: string, u: string, whole: string, rest: string)
    requires Pending(o, u, whole, rest)
    ensures u != []
    ensures u[0] == '\"' ==> o + u[..1] == whole && u[1..] == rest
    ensures u[0] != '\"' ==>
              var n := if u[0] == '\\' then 2 else 1;
              |u| >= n && Pending(o + u[..n], u[n..], whole, rest)
  {
    hide Literal;
    LiteralStep(u);
    if u[0] != '\"' {
      var n := if u[0] == '\\' then 2 else 1;
      Regroup(o, u[..n], Literal(u[n..]).value.0);
    }
  }

  /** One turn of the loop over a literal: a byte, or a backslash and the byte behind it. */
  method CopyChar(a: array<char>, into: nat, json: nat, ghost u: string, ghost o: string, ghost whole: string, ghost rest: string)
    returns (n: nat)
    requires into <= json < a.Length && Points(a[..], json, u) && a[json] != '\"' && a[..into] == o && Pending(o, u, whole, rest)
    modifies a
    ensures 0 < n <= |u| && json + n < a.Length && Points(a[..], json + n, u[n..])
    ensures a[..into + n] == o + u[..n] && Pending(o + u[..n], u[n..], whole, rest)
  {
    hide Points, Pending;
    PointsNext(a[..], json, u);
    PendingNext(o, u, whole, rest);
    if a[json] == '\\' {
      CopyPair(a, into, json, u);
      n := 2;
    } else {
      CopyByte(a, into, json, u);
      n := 1;
    }
    PointsInside(a[..], json + n, u[n..]);
  }

  /** Copies a string literal with its quotes and escapes. */
  method CopyLiteral(a: array<char>, from: nat, out: nat, ghost t: string)
    returns (json: nat, into: nat, ghost u: string)
    requires out <= from && Points(a[..], from, t) && At(t, '\"') && Literal(t[1..]).Some?
    modifies a
    ensures into <= json < a.Length && |u| < |t| && Points(a[..], json, u)
    ensures u == Literal(t[1..]).value.1 && a[..into] == old(a[..out]) + ("\"" + Literal(t[1..]).value.0)
  {
    hide Points, Literal;
    PointsInside(a[..], from, t);
    ghost var done, u0 := a[..out], t[1..];
    ghost var lit := Literal(u0).value;
    CopyByte(a, out, from, t);
    PointsInside(a[..], from + 1, u0);
    Regroup(done, t[..1], lit.0);
    json, into := CopyRest(a, from + 1, out + 1, u0, done + t[..1] + lit.0, lit.1);
    u := lit.1;
    assert t[..1] == "\"";
  }

  /** The loop over a literal behind its opening quote, and the closing quote. */
  method CopyRest(a: array<char>, from: nat, out: nat, ghost t: string, ghost whole: string, ghost rest: string)
    returns (json: nat, into: nat)
    requires out <= from < a.Length && Points(a[..], from, t) && Pending(a[..out], t, whole, rest)
    modifies a
    ensures into <= json < a.Length && Points(a[..], json, rest) && a[..into] == whole
  {
    hide Points, Pending;
    ghost var u, o := t, a[..out];
    json, into := from, out;
    PendingNext(o, u, whole, rest);
    PointsNext(a[..], json, u);
    while a[json] != '\0' && a[json] != '\"'
      invariant into <= json < a.Length && Points(a[..], json, u) && Pending(o, u, whole, rest) && a[..into] == o
      decreases |u|
    {
      var n := CopyChar(a, into, json, u, o, whole, rest);
      into, json := into + n, json + n;
      o, u := o + u[..n], u[n..];
    }
    PendingNext(o, u, whole, rest);
    PointsNext(a[..], json, u);
    CopyByte(a, into, json, u);
    into, json := into + 1, json + 1;
    PointsInside(a[..], json, rest);
  }
}
