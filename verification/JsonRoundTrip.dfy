/** Parsing a printed tree gives the tree back and stops exactly behind it. */
module JsonRoundTrip {
  import opened JsonText

  /** What may follow a printed value: behind a number, nothing that would continue it. */
  predicate Delimits(j: Json, rest: string) {
    j.Number? ==> rest == [] || (!IsDigit(rest[0]) && rest[0] != '.' && rest[0] != 'e' && rest[0] != 'E')
  }

  // ---------------------------------------------------------------- strings

  lemma EscapeRead(c: char, rest: string)
    requires c != '\0'
    ensures ReadChars(Escape(c) + rest) == Put([c], ReadChars(rest))
    ensures ScanLength(rest) >= 0 ==> ScanLength(Escape(c) + rest) > ScanLength(rest)
  {
    hide ReadChars, ScanLength;
    if |Escape(c)| == 1 {
      ReadPlain(c, rest);
    } else if |Escape(c)| == 2 {
      ReadPair(Escape(c)[1], rest);
      assert Escape(c) == ['\\', Escape(c)[1]];
    } else {
      ControlRead(c, rest);
    }
  }

  lemma ReadPlain(c: char, rest: string)
    requires c != '\"' && c != '\\'
    ensures ReadChars([c] + rest) == Put([c], ReadChars(rest))
    ensures ScanLength(rest) >= 0 ==> ScanLength([c] + rest) > ScanLength(rest)
  {
    assert ([c] + rest)[1..] == rest;
  }

  lemma ReadPair(c: char, rest: string)
    requires c != 'u'
    ensures ReadChars(['\\', c] + rest) == Put([Unescape(c)], ReadChars(rest))
    ensures ScanLength(rest) >= 0 ==> ScanLength(['\\', c] + rest) > ScanLength(rest)
  {
    assert (['\\', c] + rest)[2..] == rest;
  }

  /** A control character without a letter of its own is read back from its four digits. */
  lemma ControlRead(c: char, rest: string)
    requires '\0' < c < ' ' && |Escape(c)| > 2
    ensures ReadChars(Escape(c) + rest) == Put([c], ReadChars(rest))
    ensures ScanLength(rest) >= 0 ==> ScanLength(Escape(c) + rest) > ScanLength(rest)
  {
    hide ReadChars, ScanLength, Utf8, Escape, Nibbles, Unicode, Hex4;
    var d := Nibbles(c);
    var t := d + rest;
    NibblesOf(c, rest);
    assert t[4..] == rest;
    ScanPlain(t, 4);
    UnicodeRead(c, t);
    assert Escape(c) + rest == "\\u" + t;
  }

  /** What "%04x" prints for a control character. */
  function Nibbles(c: char): string
    requires c < ' '
  {
    "00" + [HEX[c as int / 16], HEX[c as int % 16]]
  }

  lemma NibblesOf(c: char, rest: string)
    requires c < ' '
    ensures |Nibbles(c)| == 4 && Hex4(Nibbles(c) + rest) == c as int
    ensures forall i | 0 <= i < 4 :: Nibbles(c)[i] != '\"' && Nibbles(c)[i] != '\\'
    ensures |Escape(c)| > 2 ==> Escape(c) == "\\u" + Nibbles(c)
  {
    var h, t := Nibbles(c), Nibbles(c) + rest;
    assert HexDigit(h[2]) == c as int / 16 && HexDigit(h[3]) == c as int % 16;
    assert t[0] == '0' && t[1] == '0' && t[2] == h[2] && t[3] == h[3];
  }

  lemma UnicodeRead(c: char, t: string)
    requires |t| >= 4 && '\0' < c < ' ' && Hex4(t) == c as int
    ensures ReadChars("\\u" + t) == Put([c], ReadChars(t[4..]))
    ensures ScanLength(t) >= 0 ==> ScanLength("\\u" + t) > ScanLength(t)
  {
    hide Hex4;
    var u := "\\u" + t;
    assert u[2..] == t && u[6..] == t[4..];
    assert Unicode(t) == ([c], 4);
  }

  /** Bytes that are neither quote nor backslash are counted one by one. */
  lemma {:induction false} ScanPlain(t: string, n: nat)
    requires n <= |t| && forall i | 0 <= i < n :: t[i] != '\"' && t[i] != '\\'
    ensures ScanLength(t[n..]) >= 0 ==> ScanLength(t) == n + ScanLength(t[n..])
  {
    if n > 0 {
      ScanPlain(t[1..], n - 1);
      assert t[1..][n - 1..] == t[n..];
    }
  }

  lemma {:induction false} CharsRead(s: string, rest: string)
    requires CString(s)
    ensures ReadChars(EscapeAll(s) + "\"" + rest) == Ok(s, rest)
    ensures ScanLength(EscapeAll(s) + "\"" + rest) >= |s|
  {
    if s == [] {
      assert EscapeAll(s) + "\"" + rest == "\"" + rest;
    } else {
      hide ReadChars, Escape, ScanLength;
      var tail := EscapeAll(s[1..]) + "\"" + rest;
      CharsRead(s[1..], rest);
      EscapeRead(s[0], tail);
      assert EscapeAll(s) + "\"" + rest == Escape(s[0]) + tail;
      assert [s[0]] + s[1..] == s;
    }
  }

  /** A printed string reads back, and the space allocated for it holds its bytes. */
  lemma StringRead(s: string, rest: string)
    requires CString(s)
    ensures ParseString(Quoted(s) + rest) == Ok(s, rest)
    ensures |s| <= ScanLength((Quoted(s) + rest)[1..])
  {
    hide ReadChars, ScanLength, EscapeAll, CString;
    var t := Quoted(s) + rest;
    CharsRead(s, rest);
    assert t[1..] == EscapeAll(s) + "\"" + rest;
    assert t[0] == '\"';
  }

  // ---------------------------------------------------------------- numbers

  lemma {:induction false} DigitsRead(n: nat, rest: string)
    ensures TakeDigits(Digits(n) + rest, 0) == TakeDigits(rest, n)
  {
    hide TakeDigits;
    var c := HEX[n % 10];
    if n >= 10 {
      DigitsRead(n / 10, [c] + rest);
      assert Digits(n) + rest == Digits(n / 10) + ([c] + rest);
      OneDigit(n % 10, n / 10, rest);
    } else {
      assert Digits(n) == [c];
      OneDigit(n, 0, rest);
    }
  }

  lemma OneDigit(d: nat, n: nat, rest: string)
    requires d < 10
    ensures TakeDigits([HEX[d]] + rest, n) == TakeDigits(rest, n * 10 + d)
  {
    var t := [HEX[d]] + rest;
    assert HEX[d] as int - '0' as int == d && IsDigit(HEX[d]);
    assert t[1..] == rest;
  }

  lemma {:induction false} FirstDigit(n: nat)
    ensures Digits(n) != [] && (if n > 0 then '1' else '0') <= Digits(n)[0] <= '9'
    ensures n == 0 ==> Digits(n) == "0"
  {
    if n >= 10 {
      FirstDigit(n / 10);
    }
  }

  lemma DigitsStop(n: nat, rest: string)
    requires rest == [] || !IsDigit(rest[0])
    ensures TakeDigits(rest, n) == (n, rest)
  {
  }

  lemma NumberRead(n: int, rest: string)
    requires Delimits(Number(n, 0), rest)
    ensures ParseNumber(Decimal(n) + rest) == (Number(n, 0), rest)
    ensures Decimal(n) != [] && (Decimal(n)[0] == '-' || IsDigit(Decimal(n)[0]))
  {
    hide TakeDigits, Digits;
    var m := if n < 0 then -n else n;
    var t := Decimal(n) + rest;
    FirstDigit(m);
    var t1 := if At(t, '-') then t[1..] else t;
    assert t1 == Digits(m) + rest;
    DigitsRead(m, rest);
    DigitsStop(m, rest);
    if m == 0 {
      assert t1[1..] == rest;
    }
    assert ParseExponent(rest) == (0, rest);
  }

  // ---------------------------------------------------------------- trees

  lemma SkipTabs(n: int, rest: string)
    ensures Skip(Tabs(n) + rest) == Skip(rest)
  {
    if n <= 0 {
      assert Tabs(n) + rest == rest;
    } else {
      SkipTabs(n - 1, rest);
      assert (Tabs(n) + rest)[1..] == Tabs(n - 1) + rest;
    }
  }

  /** A printed value begins with no whitespace and with its own kind of byte. */
  lemma PrintStarts(j: Json, depth: nat, fmt: bool)
    ensures Print(j, depth, fmt) != [] && Print(j, depth, fmt)[0] > ' ' && Print(j, depth, fmt)[0] != ']'
  {
    if j.Number? {
      FirstDigit(if j.mant < 0 then -j.mant else j.mant);
    }
  }

  lemma SkipSkips(t: string)
    ensures Skip(Skip(t)) == Skip(t)
    ensures t != [] && t[0] > ' ' ==> Skip(t) == t
  {
  }

  /** Whitespace before the members of an object does not matter. */
  lemma MembersSkip(t: string)
    ensures ParseMembers(Skip(t)) == ParseMembers(t)
  {
    SkipSkips(t);
    assert ParseMember(Skip(t)) == ParseMember(t);
  }

  lemma {:induction false} ItemsRead(items: seq<Json>, depth: nat, fmt: bool, rest: string)
    requires items != [] && forall i | 0 <= i < |items| :: IntTree(items[i])
    ensures ParseItems(PrintItems(items, depth, fmt) + "]" + rest) == Ok(items, rest)
    decreases items, 1
  {
    hide IntTree, Print, ParseValue, Skip;
    var head := Print(items[0], depth, fmt);
    PrintStarts(items[0], depth, fmt);
    if |items| == 1 {
      var after := "]" + rest;
      ValueRead(items[0], depth, fmt, after);
      assert PrintItems(items, depth, fmt) + "]" + rest == head + after;
      SkipSkips(head + after);
      SkipSkips(after);
      assert items == [items[0]];
    } else {
      var next := PrintItems(items[1..], depth, fmt) + "]" + rest;
      var after := (if fmt then ", " else ",") + next;
      ValueRead(items[0], depth, fmt, after);
      ItemsRead(items[1..], depth, fmt, rest);
      assert PrintItems(items, depth, fmt) + "]" + rest == head + after;
      SkipSkips(head + after);
      SkipSkips(after);
      ItemsSkip(next, fmt);
      assert after[1..] == (if fmt then " " + next else next);
      assert items == [items[0]] + items[1..];
    }
  }

  lemma ItemsSkip(t: string, fmt: bool)
    ensures ParseItems(if fmt then " " + t else t) == ParseItems(t)
  {
    assert (" " + t)[1..] == t;
    assert Skip(" " + t) == Skip(t);
  }

  /** Leading whitespace, name, colon and value of one member. */
  lemma MemberRead(m: Member, depth: nat, fmt: bool, after: string)
    requires CString(m.name) && IntTree(m.value) && Delimits(m.value, after)
    ensures ParseMember((if fmt then Tabs(depth) else "") + Quoted(m.name) + (if fmt then ":\t" else ":")
                        + Print(m.value, depth, fmt) + after) == Ok(m, after)
    decreases m, 1
  {
    hide IntTree, Print, ParseValue, Skip, ParseString, Tabs, CString, Quoted;
    var lead := if fmt then Tabs(depth) else "";
    var value := Print(m.value, depth, fmt) + after;
    var t2 := (if fmt then ":\t" else ":") + value;
    var t1 := Quoted(m.name) + t2;
    var t := lead + Quoted(m.name) + (if fmt then ":\t" else ":") + Print(m.value, depth, fmt) + after;
    assert t == lead + t1;
    SkipTabs(depth, t1);
    assert fmt || lead + t1 == t1;
    QuotedStarts(m.name);
    SkipSkips(t1);
    StringRead(m.name, t2);
    SkipSkips(t2);
    PrintStarts(m.value, depth, fmt);
    SkipSkips(value);
    SkipOne('\t', value);
    assert t2[1..] == (if fmt then "\t" + value else value);
    ValueRead(m.value, depth, fmt, after);
  }

  lemma QuotedStarts(s: string)
    ensures Quoted(s) != [] && Quoted(s)[0] == '\"'
  {
  }

  lemma SkipOne(c: char, t: string)
    requires c <= ' '
    ensures Skip([c] + t) == Skip(t)
  {
    assert ([c] + t)[1..] == t;
  }

  lemma PrintMembersStep(ms: seq<Member>, depth: nat, fmt: bool, tail: string)
    requires ms != []
    ensures var next := PrintMembers(ms[1..], depth, fmt) + tail;
            var after := (if |ms| == 1 then "" else ",") + (if fmt then "\n" else "") + next;
            && PrintMembers(ms, depth, fmt) + tail
               == (if fmt then Tabs(depth) else "") + Quoted(ms[0].name) + (if fmt then ":\t" else ":") + Print(ms[0].value, depth, fmt) + after
            && (|ms| == 1 ==> next == tail)
  {
    hide Quoted, Print, Tabs;
    if |ms| == 1 {
      assert PrintMembers(ms[1..], depth, fmt) == "";
    }
  }

  lemma {:induction false} MembersRead(ms: seq<Member>, depth: nat, fmt: bool, tail: string, rest: string)
    requires ms != [] && forall i | 0 <= i < |ms| :: CString(ms[i].name) && IntTree(ms[i].value)
    requires Skip(tail) == "}" + rest && (tail[0] == '\t' || tail[0] == '}')
    ensures ParseMembers(PrintMembers(ms, depth, fmt) + tail) == Ok(ms, rest)
    decreases ms, 2
  {
    hide IntTree, Print, ParseMember, ParseMembers, Skip, Tabs, CString, Quoted, PrintMembers;
    var t := PrintMembers(ms, depth, fmt) + tail;
    var next := PrintMembers(ms[1..], depth, fmt) + tail;
    var after := (if |ms| == 1 then "" else ",") + (if fmt then "\n" else "") + next;
    PrintMembersStep(ms, depth, fmt, tail);
    assert |ms| == 1 && !fmt ==> after == tail;
    assert after[0] == (if |ms| > 1 then ',' else if fmt then '\n' else tail[0]);
    MemberRead(ms[0], depth, fmt, after);
    if |ms| == 1 {
      SkipOne('\n', tail);
      assert after == if fmt then "\n" + tail else tail;
      assert ms == [ms[0]];
      LastMember(t, ms[0], after, rest);
    } else {
      MembersRead(ms[1..], depth, fmt, tail, rest);
      SkipSkips(after);
      assert after[1..] == (if fmt then "\n" + next else next);
      SkipOne('\n', next);
      MembersSkip(after[1..]);
      MembersSkip(next);
      assert ms == [ms[0]] + ms[1..];
      MoreMembers(t, ms[0], after, ms[1..], rest);
    }
  }

  lemma LastMember(t: string, m: Member, after: string, rest: string)
    requires ParseMember(t) == Ok(m, after) && Skip(after) == "}" + rest
    ensures ParseMembers(t) == Ok([m], rest)
  {
    assert ("}" + rest)[1..] == rest;
  }

  lemma MoreMembers(t: string, m: Member, after: string, ms: seq<Member>, rest: string)
    requires ParseMember(t) == Ok(m, after) && At(Skip(after), ',') && ParseMembers(Skip(after)[1..]) == Ok(ms, rest)
    ensures ParseMembers(t) == Ok([m] + ms, rest)
  {
  }

  /** Parsing the printed text of a tree gives the tree, whatever follows it. */
  lemma {:induction false} ValueRead(j: Json, depth: nat, fmt: bool, rest: string)
    requires IntTree(j) && Delimits(j, rest)
    ensures ParseValue(Print(j, depth, fmt) + rest) == Ok(j, rest)
    decreases j, 3
  {
    var t := Print(j, depth, fmt) + rest;
    match j
    case Null => assert t[4..] == rest;
    case False => assert t[0] == 'f' && t[5..] == rest;
    case True => assert t[0] == 't' && t[4..] == rest;
    case Number(n, _) => NumberRead(n, rest);
    case Text(s) =>
      StringRead(s, rest);
      QuotedStarts(s);
    case Array(items) => ArrayRead(items, depth, fmt, rest);
    case Object(ms) => ObjectRead(ms, depth, fmt, rest);
  }

  lemma ArrayRead(items: seq<Json>, depth: nat, fmt: bool, rest: string)
    requires IntTree(Array(items))
    ensures ParseValue(Print(Array(items), depth, fmt) + rest) == Ok(Array(items), rest)
    decreases items, 2
  {
    hide ParseItems, Skip, PrintItems;
    var t := Print(Array(items), depth, fmt) + rest;
    assert t[0] == '[';
    if items == [] {
      assert t[1..] == "]" + rest;
      SkipSkips(t[1..]);
    } else {
      var body := PrintItems(items, depth + 1, fmt) + "]" + rest;
      assert t[1..] == body;
      ItemsStart(items, depth + 1, fmt);
      SkipSkips(body);
      ItemsRead(items, depth + 1, fmt, rest);
    }
  }

  lemma ItemsStart(items: seq<Json>, depth: nat, fmt: bool)
    requires items != []
    ensures PrintItems(items, depth, fmt) != [] && PrintItems(items, depth, fmt)[0] > ' ' && PrintItems(items, depth, fmt)[0] != ']'
  {
    PrintStarts(items[0], depth, fmt);
  }

  lemma ObjectRead(ms: seq<Member>, depth: nat, fmt: bool, rest: string)
    requires IntTree(Object(ms))
    ensures ParseValue(Print(Object(ms), depth, fmt) + rest) == Ok(Object(ms), rest)
    decreases ms, 3
  {
    hide ParseMembers, ParseValue, Skip, Print, PrintMembers, Tabs, IntTree;
    var t := Print(Object(ms), depth, fmt) + rest;
    var close := "}" + rest;
    ObjectText(ms, depth, fmt, rest);
    ObjectIntTree(ms);
    if ms == [] {
      EmptySkips(depth, fmt, close);
      NoMembers(t, rest);
    } else {
      var tail := if fmt then Tabs(depth) + close else close;
      var body := PrintMembers(ms, depth + 1, fmt) + tail;
      SkipOne('\n', body);
      TailStarts(depth, fmt, close);
      MembersStart(ms, depth + 1, fmt, tail);
      MembersRead(ms, depth + 1, fmt, tail, rest);
      MembersSkip(body);
      SomeMembers(t, ms, rest);
    }
  }

  /** The text of an object behind its brace. */
  lemma ObjectText(ms: seq<Member>, depth: nat, fmt: bool, rest: string)
    ensures var t, close := Print(Object(ms), depth, fmt) + rest, "}" + rest;
            && At(t, '{')
            && t[1..] == if ms == [] then (if fmt then "\n" + (Tabs(depth - 1) + close) else close)
                         else
                           var body := PrintMembers(ms, depth + 1, fmt) + (if fmt then Tabs(depth) + close else close);
                           if fmt then "\n" + body else body
  {
    hide PrintMembers, Tabs;
  }

  lemma ObjectIntTree(ms: seq<Member>)
    requires IntTree(Object(ms))
    ensures forall i | 0 <= i < |ms| :: CString(ms[i].name) && IntTree(ms[i].value)
  {
    hide CString;
  }

  lemma EmptySkips(depth: nat, fmt: bool, close: string)
    requires At(close, '}')
    ensures Skip(if fmt then "\n" + (Tabs(depth - 1) + close) else close) == close
  {
    hide Skip, Tabs;
    SkipSkips(close);
    SkipTabs(depth - 1, close);
    SkipOne('\n', Tabs(depth - 1) + close);
  }

  /** What follows the members of an object. */
  lemma TailStarts(depth: nat, fmt: bool, close: string)
    requires At(close, '}')
    ensures var tail := if fmt then Tabs(depth) + close else close;
            Skip(tail) == close && (tail[0] == '\t' || tail[0] == '}')
  {
    hide Skip, Tabs;
    SkipSkips(close);
    SkipTabs(depth, close);
    TabsStart(depth, close);
  }

  lemma NoMembers(t: string, rest: string)
    requires At(t, '{') && Skip(t[1..]) == "}" + rest
    ensures ParseValue(t) == Ok(Object([]), rest)
  {
    assert ("}" + rest)[1..] == rest;
  }

  lemma SomeMembers(t: string, ms: seq<Member>, rest: string)
    requires At(t, '{') && !At(Skip(t[1..]), '}') && ParseMembers(Skip(t[1..])) == Ok(ms, rest)
    ensures ParseValue(t) == Ok(Object(ms), rest)
  {
  }

  lemma TabsStart(n: int, close: string)
    requires At(close, '}')
    ensures (Tabs(n) + close)[0] == '\t' || (Tabs(n) + close)[0] == '}'
  {
  }

  /** Behind its whitespace a list of members begins with a quote. */
  lemma MembersStart(ms: seq<Member>, depth: nat, fmt: bool, tail: string)
    requires ms != []
    ensures At(Skip(PrintMembers(ms, depth, fmt) + tail), '\"')
  {
    hide Quoted, Print, Tabs, Skip, PrintMembers;
    var lead, name, colon := if fmt then Tabs(depth) else "", Quoted(ms[0].name), if fmt then ":\t" else ":";
    var value := Print(ms[0].value, depth, fmt);
    var after := (if |ms| == 1 then "" else ",") + (if fmt then "\n" else "") + (PrintMembers(ms[1..], depth, fmt) + tail);
    PrintMembersStep(ms, depth, fmt, tail);
    Grouped(lead, name, colon, value, after);
    QuotedStarts(ms[0].name);
    StartsAt(lead, name + (colon + (value + after)), depth, fmt);
  }

  lemma Grouped(a: string, b: string, c: string, d: string, e: string)
    ensures a + b + c + d + e == a + (b + (c + (d + e)))
  {
    assert a + b + c + d + e == a + b + c + (d + e);
    assert a + b + c + (d + e) == a + b + (c + (d + e));
  }

  lemma StartsAt(lead: string, t: string, depth: nat, fmt: bool)
    requires lead == (if fmt then Tabs(depth) else "") && At(t, '\"')
    ensures Skip(lead + t) == t
  {
    hide Skip, Tabs;
    SkipTabs(depth, t);
    assert fmt || lead + t == t;
    SkipSkips(t);
  }

  /** cJSON_Parse of cJSON_Print, with or without the check that nothing follows. */
  lemma PrintThenParse(j: Json, fmt: bool, whole: bool)
    requires IntTree(j)
    ensures ParseDocument(Print(j, 0, fmt), whole) == Ok(j, "")
  {
    var t := Print(j, 0, fmt);
    ValueRead(j, 0, fmt, "");
    assert t + "" == t;
    PrintStarts(j, 0, fmt);
    SkipSkips(t);
  }
}
