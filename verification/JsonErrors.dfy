/** Where the parser of drivers/cjson/cJSON.c gives a text up: the position it leaves in ep. */
module JsonErrors {
  import opened JsonGrammar
  import opened JsonLiterals
  import opened JsonNumbers
  import JsonRoundTrip
  import opened JsonText

  /** The way to a position where a value cannot go on: no value begins there, or it lies in an element
      behind others, behind an element, in a member behind others, or behind a member. */
  datatype Stuck =
    | NoValue
    | InItem(done: seq<Cell>, before: string, inner: Stuck)
    | BehindItem(cells: seq<Cell>)
    | InMember(members: seq<Field>, part: Part)
    | BehindMember(fields: seq<Field>)

  /** In a member: at its name, at its colon, or in its value. */
  datatype Part =
    | NoName(before: string)
    | NoColon(before: string, name: Literal, beforeColon: string)
    | InValue(before: string, name: Literal, beforeColon: string, afterColon: string, inner: Stuck)

  // ---------------------------------------------------------------- the text in front

  function StuckText(s: Stuck): string {
    match s
    case NoValue => ""
    case InItem(done, before, inner) => "[" + CellsDone(done) + before + StuckText(inner)
    case BehindItem(cells) => "[" + if cells == [] then "" else CellsText(cells)
    case InMember(members, part) => "{" + FieldsDone(members) + PartText(part)
    case BehindMember(fields) => "{" + if fields == [] then "" else FieldsText(fields)
  }

  function PartText(p: Part): string {
    match p
    case NoName(before) => before
    case NoColon(before, name, beforeColon) => before + LiteralText(name) + beforeColon
    case InValue(before, name, beforeColon, afterColon, inner) =>
      before + LiteralText(name) + beforeColon + ":" + afterColon + StuckText(inner)
  }

  function CellsDone(cells: seq<Cell>): string {
    if cells == [] then "" else CellsText(cells) + ","
  }

  function FieldsDone(fields: seq<Field>): string {
    if fields == [] then "" else FieldsText(fields) + ","
  }

  // ---------------------------------------------------------------- what stands there

  predicate NoBlank(t: string) {
    t == [] || t[0] > ' '
  }

  /** A value begins with t. */
  predicate Starts(t: string) {
    || "null" <= t || "false" <= t || "true" <= t
    || At(t, '\"') || At(t, '[') || At(t, '{') || At(t, '-') || !NoDigit(t)
  }

  /** The text ep behind the position: blanks are skipped, and what the grammar asks for is missing. */
  predicate StuckFits(s: Stuck, ep: string) {
    match s
    case NoValue => !Starts(ep)
    case InItem(done, before, inner) =>
      var t := StuckText(inner) + ep;
      && (done == [] ==> !At(t, ']'))
      && ItemFits(done, before, t)
      && StuckFits(inner, ep)
    case BehindItem(cells) => cells != [] && CellsFit(cells, ep) && NoBlank(ep) && !At(ep, ',') && !At(ep, ']')
    case InMember(members, part) =>
      && (members == [] && part.NoName? ==> !At(ep, '}'))
      && (members != [] ==> FieldsFit(members, "," + (PartText(part) + ep)))
      && PartFits(part, ep)
    case BehindMember(fields) => fields != [] && FieldsFit(fields, ep) && NoBlank(ep) && !At(ep, ',') && !At(ep, '}')
  }

  predicate ItemFits(done: seq<Cell>, before: string, t: string) {
    && Blank(before)
    && NoBlank(t)
    && (done != [] ==> CellsFit(done, "," + (before + t)))
  }

  predicate PartFits(p: Part, ep: string) {
    match p
    case NoName(before) => Blank(before) && NoBlank(ep) && !At(ep, '\"')
    case NoColon(before, name, beforeColon) =>
      Blank(before) && LiteralFits(name, beforeColon + ep) && Blank(beforeColon) && NoBlank(ep) && !At(ep, ':')
    case InValue(before, name, beforeColon, afterColon, inner) =>
      && Blank(before)
      && LiteralFits(name, beforeColon + (":" + (afterColon + (StuckText(inner) + ep))))
      && Blank(beforeColon)
      && Blank(afterColon)
      && NoBlank(StuckText(inner) + ep)
      && StuckFits(inner, ep)
  }

  // ---------------------------------------------------------------- one step of the parser

  lemma SkipStays(s: string, t: string)
    requires Blank(s) && NoBlank(t)
    ensures Skip(s + t) == t
  {
    BlankSkipped(s, t);
  }

  lemma ItemFails(t: string, ep: string)
    requires ParseValue(Skip(t)) == Fail(ep)
    ensures ParseItems(t) == Fail(ep)
  {
    hide Skip, ParseValue;
  }

  lemma BehindFails(t: string, j: Json, behind: string, ep: string)
    requires ParseValue(Skip(t)) == Ok(j, behind) && Skip(behind) == ep && !At(ep, ',') && !At(ep, ']')
    ensures ParseItems(t) == Fail(ep)
  {
    hide Skip, ParseValue;
  }

  lemma NextFails(t: string, j: Json, behind: string, ep: string)
    requires ParseValue(Skip(t)) == Ok(j, behind) && At(Skip(behind), ',') && ParseItems(Skip(behind)[1..]) == Fail(ep)
    ensures ParseItems(t) == Fail(ep)
  {
    hide Skip, ParseValue;
  }

  lemma MemberFails(t: string, ep: string)
    requires ParseMember(t) == Fail(ep)
    ensures ParseMembers(t) == Fail(ep)
  {
    hide ParseMember;
  }

  lemma BehindMemberFails(t: string, m: Member, behind: string, ep: string)
    requires ParseMember(t) == Ok(m, behind) && Skip(behind) == ep && !At(ep, ',') && !At(ep, '}')
    ensures ParseMembers(t) == Fail(ep)
  {
    hide Skip, ParseMember;
  }

  lemma NextMemberFails(t: string, m: Member, behind: string, ep: string)
    requires ParseMember(t) == Ok(m, behind) && At(Skip(behind), ',') && ParseMembers(Skip(behind)[1..]) == Fail(ep)
    ensures ParseMembers(t) == Fail(ep)
  {
    hide Skip, ParseMember;
  }

  lemma NameFails(t: string, ep: string)
    requires ParseString(Skip(t)) == Fail(ep)
    ensures ParseMember(t) == Fail(ep)
  {
    hide Skip, ParseString;
  }

  lemma ColonFails(t: string, name: string, behind: string, ep: string)
    requires ParseString(Skip(t)) == Ok(name, behind) && Skip(behind) == ep && !At(ep, ':')
    ensures ParseMember(t) == Fail(ep)
  {
    hide Skip, ParseString;
  }

  lemma MemberValueFails(t: string, name: string, behind: string, ep: string)
    requires ParseString(Skip(t)) == Ok(name, behind) && At(Skip(behind), ':') && ParseValue(Skip(Skip(behind)[1..])) == Fail(ep)
    ensures ParseMember(t) == Fail(ep)
  {
    hide Skip, ParseString, ParseValue;
  }

  lemma ListFails(t: string, ep: string)
    requires At(t, '[') && !At(Skip(t[1..]), ']') && ParseItems(t[1..]) == Fail(ep)
    ensures ParseValue(t) == Fail(ep)
  {
    hide Skip, ParseItems;
    ItemsSkip(t[1..]);
  }

  lemma RecordFails(t: string, ep: string)
    requires At(t, '{') && !At(Skip(t[1..]), '}') && ParseMembers(t[1..]) == Fail(ep)
    ensures ParseValue(t) == Fail(ep)
  {
    hide Skip, ParseMembers;
    JsonRoundTrip.MembersSkip(t[1..]);
  }

  // ---------------------------------------------------------------- a stuck text fails where it is stuck

  lemma {:induction false} StuckRead(s: Stuck, ep: string)
    requires StuckFits(s, ep)
    ensures ParseValue(StuckText(s) + ep) == Fail(ep)
    decreases s, 2
  {
    match s
    case NoValue => NothingStarts(ep);
    case InItem(done, before, inner) => InItemRead(done, before, inner, ep);
    case BehindItem(cells) => BehindItemRead(cells, ep);
    case InMember(members, part) => InMemberRead(members, part, ep);
    case BehindMember(fields) => BehindMemberRead(fields, ep);
  }

  lemma NothingStarts(ep: string)
    requires !Starts(ep)
    ensures ParseValue(StuckText(NoValue) + ep) == Fail(ep)
  {
    assert StuckText(NoValue) + ep == ep;
  }

  lemma InItemRead(done: seq<Cell>, before: string, inner: Stuck, ep: string)
    requires StuckFits(InItem(done, before, inner), ep)
    ensures ParseValue(StuckText(InItem(done, before, inner)) + ep) == Fail(ep)
    decreases inner, 3
  {
    hide ParseValue, ParseItems, Skip, Blank, CellsText, CellsFit, NoBlank, StuckText;
    var t := StuckText(inner) + ep;
    InItemText(done, before, inner, ep);
    StuckRead(inner, ep);
    SkipStays(before, t);
    ItemFails(before + t, ep);
    if done != [] {
      CellsPass(done, before + t, ep);
      CellsStart(done, "," + (before + t));
    }
    ListFails(StuckText(InItem(done, before, inner)) + ep, ep);
  }

  lemma InItemText(done: seq<Cell>, before: string, inner: Stuck, ep: string)
    ensures var s, t := StuckText(InItem(done, before, inner)) + ep, before + (StuckText(inner) + ep);
            At(s, '[') && s[1..] == if done == [] then t else CellsText(done) + ("," + t)
  {
    hide CellsText;
    InFront("[", CellsDone(done), before, StuckText(inner), ep);
    DoneSplit(done, before + (StuckText(inner) + ep));
  }

  lemma InFront(open: string, a: string, b: string, c: string, ep: string)
    requires |open| == 1
    ensures var s := open + a + b + c + ep;
            s[0] == open[0] && s[1..] == a + (b + (c + ep))
  {
  }

  lemma DoneSplit(done: seq<Cell>, t: string)
    ensures CellsDone(done) + t == if done == [] then t else CellsText(done) + ("," + t)
  {
    hide CellsText;
    if done != [] {
      Regroup(CellsText(done), ",", t);
    }
  }

  /** Behind elements that are read, the rest fails. */
  lemma {:induction false} CellsPass(cells: seq<Cell>, t: string, ep: string)
    requires cells != [] && CellsFit(cells, "," + t) && ParseItems(t) == Fail(ep)
    ensures ParseItems(CellsText(cells) + ("," + t)) == Fail(ep)
    decreases |cells|
  {
    hide ParseValue, ParseItems, Skip, Blank, CellsText, TreeText, Fits, Value;
    var end := "," + t;
    var behind := CellsBehind(cells, end);
    CellRead(cells, end);
    assert behind[0] == ',';
    SkipTo(cells[0].after, behind);
    if |cells| == 1 {
      assert behind[1..] == t;
    } else {
      CellsPass(cells[1..], t, ep);
      assert behind[1..] == CellsText(cells[1..]) + end;
    }
    NextFails(CellsText(cells) + end, Value(cells[0].tree), cells[0].after + behind, ep);
  }

  lemma CellRead(cells: seq<Cell>, end: string)
    requires cells != [] && CellsFit(cells, end)
    ensures ParseValue(Skip(CellsText(cells) + end)) == Ok(Value(cells[0].tree), cells[0].after + CellsBehind(cells, end))
  {
    hide ParseValue, Skip, Blank, CellsText, TreeText, Fits, Value, CellsBehind;
    CellsStart(cells, end);
    TreeRead(cells[0].tree, cells[0].after + CellsBehind(cells, end));
  }

  lemma BehindItemRead(cells: seq<Cell>, ep: string)
    requires StuckFits(BehindItem(cells), ep)
    ensures ParseValue(StuckText(BehindItem(cells)) + ep) == Fail(ep)
  {
    hide ParseValue, ParseItems, Skip, CellsText, CellsFit, NoBlank;
    var s := StuckText(BehindItem(cells)) + ep;
    assert s[0] == '[' && s[1..] == CellsText(cells) + ep;
    CellsStart(cells, ep);
    CellsOpen(cells, ep);
    ListFails(s, ep);
  }

  lemma {:induction false} CellsOpen(cells: seq<Cell>, ep: string)
    requires cells != [] && CellsFit(cells, ep) && NoBlank(ep) && !At(ep, ',') && !At(ep, ']')
    ensures ParseItems(CellsText(cells) + ep) == Fail(ep)
    decreases |cells|
  {
    hide ParseValue, ParseItems, Skip, Blank, CellsText, TreeText, Fits, Value;
    var behind := CellsBehind(cells, ep);
    CellRead(cells, ep);
    SkipStays(cells[0].after, behind);
    if |cells| == 1 {
      BehindFails(CellsText(cells) + ep, Value(cells[0].tree), cells[0].after + behind, ep);
    } else {
      CellsOpen(cells[1..], ep);
      assert behind[1..] == CellsText(cells[1..]) + ep;
      NextFails(CellsText(cells) + ep, Value(cells[0].tree), cells[0].after + behind, ep);
    }
  }

  lemma InMemberRead(members: seq<Field>, part: Part, ep: string)
    requires StuckFits(InMember(members, part), ep)
    ensures ParseValue(StuckText(InMember(members, part)) + ep) == Fail(ep)
    decreases part, 3
  {
    hide ParseValue, ParseMember, ParseMembers, Skip, PartText, PartFits, FieldsText, FieldsFit;
    var t := PartText(part) + ep;
    var s := StuckText(InMember(members, part)) + ep;
    PartRead(part, ep);
    MemberFails(t, ep);
    assert s[0] == '{';
    if members == [] {
      assert s[1..] == t;
      PartStarts(part, ep);
    } else {
      assert s[1..] == FieldsText(members) + ("," + t);
      FieldsPass(members, t, ep);
      FieldsStart(members, "," + t);
    }
    RecordFails(s, ep);
  }

  lemma PartStarts(part: Part, ep: string)
    requires PartFits(part, ep) && (part.NoName? ==> !At(ep, '}'))
    ensures !At(Skip(PartText(part) + ep), '}')
  {
    hide Skip, StuckText, LiteralFits, LiteralText, Blank;
    match part
    case NoName(before) => SkipStays(before, ep);
    case NoColon(before, name, beforeColon) =>
      Regroup(before + LiteralText(name), beforeColon, ep);
      NameStarts(before, name, beforeColon + ep);
    case InValue(before, name, beforeColon, afterColon, inner) =>
      var value := StuckText(inner);
      assert before + LiteralText(name) + beforeColon + ":" + afterColon + value + ep
          == before + LiteralText(name) + (beforeColon + ":" + afterColon + value + ep);
      NameStarts(before, name, beforeColon + ":" + afterColon + value + ep);
  }

  lemma NameStarts(before: string, name: Literal, behind: string)
    requires Blank(before)
    ensures !At(Skip(before + LiteralText(name) + behind), '}')
  {
    hide Skip, Blank, PiecesText;
    Regroup(before, LiteralText(name), behind);
    assert (LiteralText(name) + behind)[0] == '\"';
    SkipTo(before, LiteralText(name) + behind);
  }

  lemma {:induction false} PartRead(part: Part, ep: string)
    requires PartFits(part, ep)
    ensures ParseMember(PartText(part) + ep) == Fail(ep)
    decreases part, 1
  {
    hide ParseMember, ParseString, Skip, LiteralFits, LiteralText, Blank;
    match part
    case NoName(before) =>
      SkipStays(before, ep);
      NoString(ep);
      NameFails(PartText(part) + ep, ep);
    case NoColon(before, name, beforeColon) =>
      NameRead(before, name, beforeColon + ep);
      Regroup(before + LiteralText(name), beforeColon, ep);
      SkipStays(beforeColon, ep);
      ColonFails(PartText(part) + ep, LiteralValue(name), beforeColon + ep, ep);
    case InValue(before, name, beforeColon, afterColon, inner) => InValueRead(before, name, beforeColon, afterColon, inner, ep);
  }

  lemma NoString(ep: string)
    requires !At(ep, '\"')
    ensures ParseString(ep) == Fail(ep)
  {
  }

  lemma NameRead(before: string, name: Literal, behind: string)
    requires Blank(before) && LiteralFits(name, behind)
    ensures ParseString(Skip(before + LiteralText(name) + behind)) == Ok(LiteralValue(name), behind)
  {
    hide ParseString, Skip, LiteralFits, PiecesText, Blank, LiteralValue;
    Regroup(before, LiteralText(name), behind);
    SkipTo(before, LiteralText(name) + behind);
    LiteralRead(name, behind);
  }

  lemma InValueRead(before: string, name: Literal, beforeColon: string, afterColon: string, inner: Stuck, ep: string)
    requires PartFits(InValue(before, name, beforeColon, afterColon, inner), ep)
    ensures ParseMember(PartText(InValue(before, name, beforeColon, afterColon, inner)) + ep) == Fail(ep)
    decreases inner, 3
  {
    hide ParseMember, ParseString, ParseValue, Skip, LiteralFits, LiteralText, LiteralValue, Blank, NoBlank, StuckFits, StuckText;
    var t := StuckText(inner) + ep;
    var colon := ":" + (afterColon + t);
    StuckRead(inner, ep);
    SkipStays(afterColon, t);
    NameRead(before, name, beforeColon + colon);
    assert before + LiteralText(name) + beforeColon + ":" + afterColon + StuckText(inner) + ep
        == before + LiteralText(name) + (beforeColon + colon);
    SkipTo(beforeColon, colon);
    assert colon[1..] == afterColon + t;
    MemberValueFails(before + LiteralText(name) + (beforeColon + colon), LiteralValue(name), beforeColon + colon, ep);
  }

  /** Behind members that are read, the rest fails. */
  lemma {:induction false} FieldsPass(fields: seq<Field>, t: string, ep: string)
    requires fields != [] && FieldsFit(fields, "," + t) && ParseMembers(t) == Fail(ep)
    ensures ParseMembers(FieldsText(fields) + ("," + t)) == Fail(ep)
    decreases |fields|
  {
    hide ParseMember, ParseMembers, Skip, Blank, FieldsText, FieldText, TreeText, LiteralText, LiteralFits, Fits, Value, LiteralValue;
    var end := "," + t;
    var behind := FieldsBehind(fields, end);
    FieldsSplit(fields, end);
    FieldRead(fields[0], behind);
    assert behind[0] == ',';
    SkipTo(fields[0].after, behind);
    if |fields| == 1 {
      assert behind[1..] == t;
    } else {
      FieldsPass(fields[1..], t, ep);
      assert behind[1..] == FieldsText(fields[1..]) + end;
    }
    NextMemberFails(FieldsText(fields) + end, Member(LiteralValue(fields[0].name), Value(fields[0].tree)), fields[0].after + behind, ep);
  }

  lemma BehindMemberRead(fields: seq<Field>, ep: string)
    requires StuckFits(BehindMember(fields), ep)
    ensures ParseValue(StuckText(BehindMember(fields)) + ep) == Fail(ep)
  {
    hide ParseValue, ParseMembers, Skip, FieldsText, FieldsFit, NoBlank;
    var s := StuckText(BehindMember(fields)) + ep;
    assert s[0] == '{' && s[1..] == FieldsText(fields) + ep;
    FieldsStart(fields, ep);
    FieldsOpen(fields, ep);
    RecordFails(s, ep);
  }

  lemma {:induction false} FieldsOpen(fields: seq<Field>, ep: string)
    requires fields != [] && FieldsFit(fields, ep) && NoBlank(ep) && !At(ep, ',') && !At(ep, '}')
    ensures ParseMembers(FieldsText(fields) + ep) == Fail(ep)
    decreases |fields|
  {
    hide ParseMember, ParseMembers, Skip, Blank, FieldsText, FieldText, TreeText, LiteralText, LiteralFits, Fits, Value, LiteralValue;
    var behind := FieldsBehind(fields, ep);
    var m := Member(LiteralValue(fields[0].name), Value(fields[0].tree));
    FieldsSplit(fields, ep);
    FieldRead(fields[0], behind);
    SkipStays(fields[0].after, behind);
    if |fields| == 1 {
      BehindMemberFails(FieldsText(fields) + ep, m, fields[0].after + behind, ep);
    } else {
      FieldsOpen(fields[1..], ep);
      assert behind[1..] == FieldsText(fields[1..]) + ep;
      NextMemberFails(FieldsText(fields) + ep, m, fields[0].after + behind, ep);
    }
  }

  // ---------------------------------------------------------------- and a failing text is stuck there

  lemma {:induction false} StuckFound(t: string) returns (s: Stuck, ep: string)
    requires ParseValue(t).Fail?
    ensures t == StuckText(s) + ep && StuckFits(s, ep)
    decreases |t|, 2
  {
    if At(t, '[') {
      s, ep := ListStuck(t);
    } else if At(t, '{') {
      s, ep := RecordStuck(t);
    } else {
      s, ep := NoValue, t;
      NoStart(t);
    }
  }

  lemma NoStart(t: string)
    requires ParseValue(t).Fail? && !At(t, '[') && !At(t, '{')
    ensures !Starts(t)
  {
    hide ReadChars, ScanLength, ParseNumber;
    if At(t, '\"') {
      NeverFails(t);
    }
  }

  lemma ListStuck(t: string) returns (s: Stuck, ep: string)
    requires At(t, '[') && ParseValue(t).Fail?
    ensures t == StuckText(s) + ep && StuckFits(s, ep)
    decreases |t|, 1
  {
    hide ParseItems, Skip, StuckText, StuckFits, ItemsFit;
    ItemsSkip(t[1..]);
    s, ep := ItemsStuck(t[1..]);
    ItemsClosed(s, t[1..], ep);
    assert t == "[" + t[1..];
  }

  /** What an array that fails has behind its bracket. */
  predicate ItemsFit(s: Stuck, t: string, ep: string) {
    && "[" + t == StuckText(s) + ep
    && match s
       case InItem(done, before, inner) => ItemFits(done, before, StuckText(inner) + ep) && StuckFits(inner, ep)
       case BehindItem(_) => StuckFits(s, ep)
       case _ => false
  }

  lemma ItemsClosed(s: Stuck, t: string, ep: string)
    requires ItemsFit(s, t, ep) && !At(Skip(t), ']')
    ensures "[" + t == StuckText(s) + ep && StuckFits(s, ep)
  {
    hide Skip, Blank, CellsFit, CellsText;
    if s.InItem? && s.done == [] {
      InItemText(s.done, s.before, s.inner, ep);
      assert ("[" + t)[1..] == t;
      SkipStays(s.before, StuckText(s.inner) + ep);
    }
  }

  lemma {:induction false} ItemsStuck(t: string) returns (s: Stuck, ep: string)
    requires ParseItems(t).Fail?
    ensures ItemsFit(s, t, ep)
    decreases |t|, 4
  {
    hide ParseValue, Skip, StuckText, StuckFits, CellsText, ItemsFit;
    var before := SkipFound(t);
    if ParseValue(Skip(t)).Fail? {
      var inner;
      inner, ep := StuckFound(Skip(t));
      s := InItem([], before, inner);
      FirstStuck(s, t, ep);
    } else {
      var tree, behind := TreeFound(Skip(t));
      TreeRead(tree, behind);
      var after := SkipFound(behind);
      var u := Skip(behind);
      var cell := Cell(before, tree, after);
      if At(u, ',') {
        var s';
        s', ep := ItemsStuck(u[1..]);
        assert u == "," + u[1..];
        s := CellAdded(cell, s', u[1..], t, ep);
      } else {
        s, ep := BehindItem([cell]), u;
        OneStuck(cell, t, ep);
      }
    }
  }

  lemma FirstStuck(s: Stuck, t: string, ep: string)
    requires s.InItem? && s.done == [] && Blank(s.before) && StuckFits(s.inner, ep)
    requires t == s.before + (StuckText(s.inner) + ep) && NoBlank(StuckText(s.inner) + ep)
    ensures ItemsFit(s, t, ep)
  {
    hide Blank, NoBlank, StuckText, StuckFits, CellsFit;
    InItemText(s.done, s.before, s.inner, ep);
    Headed(StuckText(s) + ep, '[');
  }

  lemma Headed(u: string, c: char)
    requires At(u, c)
    ensures u == [c] + u[1..]
  {
  }

  lemma OneStuck(cell: Cell, t: string, ep: string)
    requires Blank(cell.before) && Blank(cell.after) && Fits(cell.tree, cell.after + ep)
    requires t == cell.before + (TreeText(cell.tree) + (cell.after + ep))
    requires NoBlank(ep) && !At(ep, ',') && !At(ep, ']')
    ensures ItemsFit(BehindItem([cell]), t, ep)
  {
    hide Blank, NoBlank, Fits, CellsText, TreeText;
    CellsSplit([cell], ep);
    Regroup("[", CellsText([cell]), ep);
  }

  /** A cell read in front of an array that fails. */
  lemma CellAdded(cell: Cell, s': Stuck, u: string, t: string, ep: string) returns (s: Stuck)
    requires ItemsFit(s', u, ep)
    requires Blank(cell.before) && Blank(cell.after) && Fits(cell.tree, cell.after + ("," + u))
    requires t == cell.before + (TreeText(cell.tree) + (cell.after + ("," + u)))
    ensures ItemsFit(s, t, ep)
  {
    hide Blank, NoBlank, Fits, CellsText, TreeText, StuckText, StuckFits, CellsFit;
    match s' {
      case InItem(done, before, inner) =>
        s := InItem([cell] + done, before, inner);
        var v := before + (StuckText(inner) + ep);
        InItemText(done, before, inner, ep);
        InItemText(s.done, before, inner, ep);
        assert ("[" + u)[1..] == u;
        CellJoins(cell, done, "," + v, u);
        Headed(StuckText(s) + ep, '[');
      case BehindItem(cells) =>
        s := BehindItem([cell] + cells);
        BehindAdded(cell, cells, u, t, ep);
    }
  }

  /** The cells with one more in front. */
  lemma CellJoins(cell: Cell, cells: seq<Cell>, end: string, u: string)
    requires Blank(cell.before) && Blank(cell.after) && Fits(cell.tree, cell.after + ("," + u))
    requires cells != [] ==> CellsFit(cells, end) && u == CellsText(cells) + end
    requires cells == [] ==> end == "," + u
    ensures CellsFit([cell] + cells, end)
    ensures CellsText([cell] + cells) + end == cell.before + (TreeText(cell.tree) + (cell.after + ("," + u)))
  {
    hide Blank, Fits, CellsText, TreeText;
    var all := [cell] + cells;
    assert all[1..] == cells;
    assert CellsBehind(all, end) == "," + u;
    CellsSplit(all, end);
  }

  lemma BehindAdded(cell: Cell, cells: seq<Cell>, u: string, t: string, ep: string)
    requires ItemsFit(BehindItem(cells), u, ep)
    requires Blank(cell.before) && Blank(cell.after) && Fits(cell.tree, cell.after + ("," + u))
    requires t == cell.before + (TreeText(cell.tree) + (cell.after + ("," + u)))
    ensures ItemsFit(BehindItem([cell] + cells), t, ep)
  {
    hide Blank, NoBlank, Fits, CellsText, TreeText, CellsFit;
    Regroup("[", CellsText(cells), ep);
    assert ("[" + u)[1..] == u && ("[" + (CellsText(cells) + ep))[1..] == CellsText(cells) + ep;
    CellJoins(cell, cells, ep, u);
    Regroup("[", CellsText([cell] + cells), ep);
  }

  lemma RecordStuck(t: string) returns (s: Stuck, ep: string)
    requires At(t, '{') && ParseValue(t).Fail?
    ensures t == StuckText(s) + ep && StuckFits(s, ep)
    decreases |t|, 1
  {
    hide ParseMembers, Skip, StuckText, StuckFits, MembersFit;
    JsonRoundTrip.MembersSkip(t[1..]);
    s, ep := MembersStuck(t[1..]);
    MembersClosed(s, t[1..], ep);
    assert t == "{" + t[1..];
  }

  /** What an object that fails has behind its brace. */
  predicate MembersFit(s: Stuck, t: string, ep: string) {
    && "{" + t == StuckText(s) + ep
    && match s
       case InMember(members, part) =>
         PartFits(part, ep) && (members != [] ==> FieldsFit(members, "," + (PartText(part) + ep)))
       case BehindMember(_) => StuckFits(s, ep)
       case _ => false
  }

  lemma InMemberText(members: seq<Field>, part: Part, ep: string)
    ensures var s, t := StuckText(InMember(members, part)) + ep, PartText(part) + ep;
            At(s, '{') && s[1..] == if members == [] then t else FieldsText(members) + ("," + t)
  {
    hide FieldsText, PartText;
    var p, front := PartText(part), FieldsDone(members);
    assert "{" + front + p + ep == "{" + (front + (p + ep));
    assert ("{" + (front + (p + ep)))[1..] == front + (p + ep);
  }

  lemma MembersClosed(s: Stuck, t: string, ep: string)
    requires MembersFit(s, t, ep) && !At(Skip(t), '}')
    ensures "{" + t == StuckText(s) + ep && StuckFits(s, ep)
  {
    hide Skip, Blank, FieldsFit, FieldsText;
    if s.InMember? && s.members == [] && s.part.NoName? {
      InMemberText(s.members, s.part, ep);
      assert ("{" + t)[1..] == t;
      SkipStays(s.part.before, ep);
    }
  }

  lemma {:induction false} MembersStuck(t: string) returns (s: Stuck, ep: string)
    requires ParseMembers(t).Fail?
    ensures MembersFit(s, t, ep)
    decreases |t|, 5
  {
    hide ParseMember, Skip, StuckText, StuckFits, FieldsText, FieldText, FieldFits, MembersFit, PartText, PartFits;
    if ParseMember(t).Fail? {
      var part;
      part, ep := MemberStuck(t);
      s := InMember([], part);
      FirstMemberStuck(part, t, ep);
    } else {
      var f0, behind := FieldFound(t);
      var after := SkipFound(behind);
      var u := Skip(behind);
      var f := f0.(after := after);
      FieldAfter(f0, after, u);
      if At(u, ',') {
        var s';
        s', ep := MembersStuck(u[1..]);
        assert u == "," + u[1..];
        s := FieldAdded(f, s', u[1..], t, ep);
      } else {
        s, ep := BehindMember([f]), u;
        OneMemberStuck(f, t, ep);
      }
    }
  }

  lemma FirstMemberStuck(part: Part, t: string, ep: string)
    requires PartFits(part, ep) && t == PartText(part) + ep
    ensures MembersFit(InMember([], part), t, ep)
  {
    hide PartText, PartFits;
    InMemberText([], part, ep);
    Headed(StuckText(InMember([], part)) + ep, '{');
  }

  lemma OneMemberStuck(f: Field, t: string, ep: string)
    requires FieldFits(f, ep) && t == FieldText(f) + ep && NoBlank(ep) && !At(ep, ',') && !At(ep, '}')
    ensures MembersFit(BehindMember([f]), t, ep)
  {
    hide FieldFits, NoBlank, FieldText, FieldsText;
    FieldsSplit([f], ep);
    Regroup("{", FieldsText([f]), ep);
  }

  /** A member read in front of an object that fails. */
  lemma FieldAdded(f: Field, s': Stuck, u: string, t: string, ep: string) returns (s: Stuck)
    requires MembersFit(s', u, ep) && FieldFits(f, "," + u) && t == FieldText(f) + ("," + u)
    ensures MembersFit(s, t, ep)
  {
    hide FieldFits, NoBlank, FieldText, FieldsText, StuckText, StuckFits, FieldsFit, PartText, PartFits;
    match s' {
      case InMember(members, part) =>
        s := InMember([f] + members, part);
        var v := PartText(part) + ep;
        InMemberText(members, part, ep);
        InMemberText(s.members, part, ep);
        assert ("{" + u)[1..] == u;
        FieldJoins(f, members, "," + v, u);
        Headed(StuckText(s) + ep, '{');
      case BehindMember(fields) =>
        s := BehindMember([f] + fields);
        BehindMemberAdded(f, fields, u, t, ep);
    }
  }

  /** The members with one more in front. */
  lemma FieldJoins(f: Field, fields: seq<Field>, end: string, u: string)
    requires FieldFits(f, "," + u)
    requires fields != [] ==> FieldsFit(fields, end) && u == FieldsText(fields) + end
    requires fields == [] ==> end == "," + u
    ensures FieldsFit([f] + fields, end)
    ensures FieldsText([f] + fields) + end == FieldText(f) + ("," + u)
  {
    hide FieldFits, FieldText, FieldsText;
    var all := [f] + fields;
    assert all[1..] == fields;
    assert FieldsBehind(all, end) == "," + u;
    FieldsSplit(all, end);
  }

  lemma BehindMemberAdded(f: Field, fields: seq<Field>, u: string, t: string, ep: string)
    requires MembersFit(BehindMember(fields), u, ep) && FieldFits(f, "," + u) && t == FieldText(f) + ("," + u)
    ensures MembersFit(BehindMember([f] + fields), t, ep)
  {
    hide FieldFits, NoBlank, FieldText, FieldsText, FieldsFit;
    Regroup("{", FieldsText(fields), ep);
    assert ("{" + u)[1..] == u && ("{" + (FieldsText(fields) + ep))[1..] == FieldsText(fields) + ep;
    FieldJoins(f, fields, ep, u);
    Regroup("{", FieldsText([f] + fields), ep);
  }

  lemma {:induction false} MemberStuck(t: string) returns (part: Part, ep: string)
    requires ParseMember(t).Fail?
    ensures t == PartText(part) + ep && PartFits(part, ep)
    decreases |t|, 3
  {
    hide ParseValue, ParseString, Skip, StuckText, StuckFits, LiteralText, LiteralFits, Blank;
    var before := SkipFound(t);
    if ParseString(Skip(t)).Fail? {
      part, ep := NoName(before), Skip(t);
      NameStuck(Skip(t));
    } else {
      var name := LiteralFound(Skip(t));
      var rest := ParseString(Skip(t)).rest;
      var beforeColon := SkipFound(rest);
      var u := Skip(rest);
      if !At(u, ':') {
        part, ep := NoColon(before, name, beforeColon), u;
        assert before + LiteralText(name) + beforeColon + u == before + (LiteralText(name) + (beforeColon + u));
      } else {
        var afterColon := SkipFound(u[1..]);
        var inner;
        inner, ep := StuckFound(Skip(u[1..]));
        part := InValue(before, name, beforeColon, afterColon, inner);
        assert u == ":" + u[1..];
        ValuePart(before, LiteralText(name), beforeColon, afterColon, StuckText(inner), ep);
      }
    }
  }

  lemma NameStuck(t: string)
    requires ParseString(t).Fail?
    ensures ParseString(t) == Fail(t) && !At(t, '\"')
  {
    hide ReadChars, ScanLength;
    if At(t, '\"') {
      NeverFails(t);
    }
  }

  /** parse_string fails at its first byte only. */
  lemma NeverFails(t: string)
    requires At(t, '\"')
    ensures !ParseString(t).Fail?
  {
    CharsNeverFail(t[1..]);
  }

  lemma {:induction false} CharsNeverFail(t: string)
    ensures !ReadChars(t).Fail?
    decreases |t|
  {
    if t != [] && t[0] != '\"' {
      if t[0] != '\\' {
        CharsNeverFail(t[1..]);
      } else if |t| > 1 && t[1] != 'u' {
        CharsNeverFail(t[2..]);
      } else if |t| > 1 && |t| >= 2 + Unicode(t[2..]).1 {
        CharsNeverFail(t[2 + Unicode(t[2..]).1..]);
      }
    }
  }

  lemma ValuePart(a: string, b: string, c: string, d: string, e: string, f: string)
    ensures a + b + c + ":" + d + e + f == a + (b + (c + (":" + (d + (e + f)))))
  {
  }

  // ---------------------------------------------------------------- the result

  /** t is stuck at ep. */
  ghost predicate StuckAt(t: string, ep: string) {
    exists s :: StuckFits(s, ep) && t == StuckText(s) + ep
  }

  /** parse_value gives a text up exactly where it is stuck. */
  lemma FailsExactly(t: string, ep: string)
    ensures ParseValue(t) == Fail(ep) <==> StuckAt(t, ep)
  {
    hide ParseValue, StuckFits, StuckText;
    if ParseValue(t).Fail? {
      var s, ep' := StuckFound(t);
      StuckRead(s, ep');
    }
    if StuckAt(t, ep) {
      var s :| StuckFits(s, ep) && t == StuckText(s) + ep;
      StuckRead(s, ep);
    }
  }

  /** A document is given up where its value is stuck or, when the whole text is asked for, behind a
      value and blanks. */
  lemma DocumentFailsExactly(t: string, whole: bool, ep: string)
    ensures ParseDocument(t, whole) == Fail(ep)
            <==> exists pad, s ::
                   && Blank(pad) && NoBlank(s) && t == pad + s
                   && (StuckAt(s, ep) || (whole && EndStuck(s, ep)))
  {
    hide Skip, ParseValue, StuckAt, Blank, EndStuck;
    var pad := SkipFound(t);
    var s := Skip(t);
    SkippedFails(s, whole, ep);
    if ParseDocument(t, whole) == Fail(ep) {
      assert Blank(pad) && NoBlank(s) && t == pad + s;
    }
    if pad', s' :| Blank(pad') && NoBlank(s') && t == pad' + s' && (StuckAt(s', ep) || (whole && EndStuck(s', ep))) {
      SkipStays(pad', s');
    }
  }

  /** Behind a value and blanks the text goes on at ep. */
  ghost predicate EndStuck(t: string, ep: string) {
    ep != [] && NoBlank(ep) && exists j, after :: Blank(after) && Reads(t, j, after + ep)
  }

  lemma SkippedFails(s: string, whole: bool, ep: string)
    requires Skip(s) == s
    ensures ParseDocument(s, whole) == Fail(ep) <==> StuckAt(s, ep) || (whole && EndStuck(s, ep))
  {
    hide Skip, ParseValue, StuckAt, Blank, Reads;
    FailsExactly(s, ep);
    if ParseValue(s).Ok? {
      var rest := ParseValue(s).rest;
      var after := SkipFound(rest);
      ParsesExactly(s, ParseValue(s).value, rest);
    }
    if EndStuck(s, ep) {
      var j, after :| Blank(after) && Reads(s, j, after + ep);
      ParsesExactly(s, j, after + ep);
      SkipStays(after, ep);
    }
  }
}
