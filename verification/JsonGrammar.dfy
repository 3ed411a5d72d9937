/**
 The texts that the parser of drivers/cjson/cJSON.c takes: a concrete syntax tree holds every byte of
 such a text, and the parser takes a text exactly if a tree has it, with the tree's value.  The grammar
 is the parser's own, wider than that of RFC 8259 where the code is lenient.
 */
module JsonGrammar {
  import opened JsonLiterals
  import opened JsonNumbers
  import JsonRoundTrip
  import opened JsonText

  datatype Tree =
    | NullWord
    | FalseWord
    | TrueWord
    | Numeric(numeral: Numeral)
    | Quote(literal: Literal)
    | List(pad: string, cells: seq<Cell>)
    | Record(pad: string, fields: seq<Field>)

  /** An element of an array with the blanks around it. */
  datatype Cell = Cell(before: string, tree: Tree, after: string)

  /** A member of an object with the blanks around its name and its value. */
  datatype Field = Field(before: string, name: Literal, beforeColon: string, afterColon: string, tree: Tree, after: string)

  /** Blanks are all the bytes up to the space. */
  predicate Blank(s: string) {
    forall i | 0 <= i < |s| :: s[i] <= ' '
  }

  // ---------------------------------------------------------------- text

  function TreeText(tree: Tree): string {
    match tree
    case NullWord => "null"
    case FalseWord => "false"
    case TrueWord => "true"
    case Numeric(n) => NumeralText(n)
    case Quote(l) => LiteralText(l)
    case List(pad, cells) => "[" + (if cells == [] then pad else CellsText(cells)) + "]"
    case Record(pad, fields) => "{" + (if fields == [] then pad else FieldsText(fields)) + "}"
  }

  function CellsText(cells: seq<Cell>): string
    requires cells != []
  {
    cells[0].before + TreeText(cells[0].tree) + cells[0].after + (if |cells| == 1 then "" else "," + CellsText(cells[1..]))
  }

  function FieldsText(fields: seq<Field>): string
    requires fields != []
  {
    var f := fields[0];
    f.before + LiteralText(f.name) + f.beforeColon + ":" + f.afterColon + TreeText(f.tree) + f.after
    + (if |fields| == 1 then "" else "," + FieldsText(fields[1..]))
  }

  /** What stands behind the first element when the list ends with `end`. */
  function CellsBehind(cells: seq<Cell>, end: string): string
    requires cells != []
  {
    if |cells| == 1 then end else "," + (CellsText(cells[1..]) + end)
  }

  function FieldsBehind(fields: seq<Field>, end: string): string
    requires fields != []
  {
    if |fields| == 1 then end else "," + (FieldsText(fields[1..]) + end)
  }

  // ---------------------------------------------------------------- what fits where

  /** tree can stand in front of rest. */
  predicate Fits(tree: Tree, rest: string) {
    match tree
    case Numeric(n) => NumeralFits(n, rest)
    case Quote(l) => LiteralFits(l, rest)
    case List(pad, cells) => Blank(pad) && (cells != [] ==> CellsFit(cells, "]" + rest))
    case Record(pad, fields) => Blank(pad) && (fields != [] ==> FieldsFit(fields, "}" + rest))
    case _ => true
  }

  predicate CellsFit(cells: seq<Cell>, end: string)
    requires cells != []
  {
    && Blank(cells[0].before)
    && Blank(cells[0].after)
    && Fits(cells[0].tree, cells[0].after + CellsBehind(cells, end))
    && (|cells| > 1 ==> CellsFit(cells[1..], end))
  }

  predicate FieldsFit(fields: seq<Field>, end: string)
    requires fields != []
  {
    && FieldFits(fields[0], FieldsBehind(fields, end))
    && (|fields| > 1 ==> FieldsFit(fields[1..], end))
  }

  predicate FieldFits(f: Field, behind: string) {
    && Blank(f.before)
    && Blank(f.beforeColon)
    && Blank(f.afterColon)
    && Blank(f.after)
    && LiteralFits(f.name, f.beforeColon + ":" + f.afterColon + TreeText(f.tree) + f.after + behind)
    && Fits(f.tree, f.after + behind)
  }

  // ---------------------------------------------------------------- value

  function Value(tree: Tree): Json {
    match tree
    case NullWord => Null
    case FalseWord => False
    case TrueWord => True
    case Numeric(n) => NumeralValue(n)
    case Quote(l) => Text(LiteralValue(l))
    case List(_, cells) => Array(CellsValue(cells))
    case Record(_, fields) => Object(FieldsValue(fields))
  }

  function CellsValue(cells: seq<Cell>): seq<Json> {
    if cells == [] then [] else [Value(cells[0].tree)] + CellsValue(cells[1..])
  }

  function FieldsValue(fields: seq<Field>): seq<Member> {
    if fields == [] then [] else [Member(LiteralValue(fields[0].name), Value(fields[0].tree))] + FieldsValue(fields[1..])
  }

  // ---------------------------------------------------------------- blanks

  lemma {:induction false} BlankSkipped(s: string, t: string)
    requires Blank(s)
    ensures Skip(s + t) == Skip(t)
  {
    if s == [] {
      assert s + t == t;
    } else {
      BlankSkipped(s[1..], t);
      assert (s + t)[1..] == s[1..] + t;
    }
  }

  lemma {:induction false} SkipFound(t: string) returns (s: string)
    ensures t == s + Skip(t) && Blank(s) && (Skip(t) == [] || Skip(t)[0] > ' ')
    ensures Skip(Skip(t)) == Skip(t)
  {
    if t != [] && t[0] <= ' ' {
      var s' := SkipFound(t[1..]);
      s := [t[0]] + s';
    } else {
      s := [];
    }
  }

  /** Blanks in front of a byte that is none. */
  lemma SkipTo(s: string, t: string)
    requires Blank(s) && t != [] && t[0] > ' '
    ensures Skip(s + t) == t
  {
    BlankSkipped(s, t);
  }

  // ---------------------------------------------------------------- what a tree's text begins with

  lemma TextStarts(tree: Tree, rest: string)
    requires Fits(tree, rest)
    ensures TreeText(tree) != [] && TreeText(tree)[0] > ' ' && TreeText(tree)[0] != ']'
  {
    hide CellsFit, FieldsFit, LiteralFits, PiecesText;
    match tree
    case Numeric(n) => NumeralStarts(n, rest);
    case _ =>
  }

  lemma BehindStarts(cells: seq<Cell>, rest: string)
    requires cells != []
    ensures var b := CellsBehind(cells, "]" + rest);
            b != [] && b[0] == (if |cells| == 1 then ']' else ',') && b[1..] == if |cells| == 1 then rest else CellsText(cells[1..]) + ("]" + rest)
  {
    hide CellsText;
  }

  lemma FieldsBehindStarts(fields: seq<Field>, rest: string)
    requires fields != []
    ensures var b := FieldsBehind(fields, "}" + rest);
            b != [] && b[0] == (if |fields| == 1 then '}' else ',') && b[1..] == if |fields| == 1 then rest else FieldsText(fields[1..]) + ("}" + rest)
  {
    hide FieldsText;
  }

  lemma CellsSplit(cells: seq<Cell>, end: string)
    requires cells != []
    ensures CellsText(cells) + end
            == cells[0].before + (TreeText(cells[0].tree) + (cells[0].after + CellsBehind(cells, end)))
  {
    hide TreeText, CellsBehind;
    var c := cells[0];
    CellsMore(cells, end);
    Regroup4(c.before, TreeText(c.tree), c.after, if |cells| == 1 then "" else "," + CellsText(cells[1..]), end);
  }

  lemma CellsMore(cells: seq<Cell>, end: string)
    requires cells != []
    ensures (if |cells| == 1 then "" else "," + CellsText(cells[1..])) + end == CellsBehind(cells, end)
  {
    hide CellsText;
    assert "" + end == end;
    if |cells| > 1 {
      Regroup(",", CellsText(cells[1..]), end);
    }
  }

  lemma Regroup4(a: string, b: string, c: string, d: string, e: string)
    ensures a + b + c + d + e == a + (b + (c + (d + e)))
  {
  }

  lemma FieldsSplit(fields: seq<Field>, end: string)
    requires fields != []
    ensures FieldsText(fields) + end == FieldText(fields[0]) + FieldsBehind(fields, end)
  {
    hide TreeText, LiteralText;
    var f := fields[0];
    var more := if |fields| == 1 then "" else "," + FieldsText(fields[1..]);
    hide FieldsText;
    assert more + end == FieldsBehind(fields, end);
    Regroup(FieldText(f), more, end);
  }

  function FieldText(f: Field): string {
    f.before + LiteralText(f.name) + f.beforeColon + ":" + f.afterColon + TreeText(f.tree) + f.after
  }

  lemma FieldSplit(f: Field, behind: string)
    ensures FieldText(f) + behind
            == f.before + (LiteralText(f.name) + (f.beforeColon + ":" + f.afterColon + TreeText(f.tree) + f.after + behind))
    ensures f.beforeColon + ":" + f.afterColon + TreeText(f.tree) + f.after + behind
            == f.beforeColon + (":" + (f.afterColon + (TreeText(f.tree) + (f.after + behind))))
  {
    hide TreeText, LiteralText;
  }

  // ---------------------------------------------------------------- every fitting text is taken

  lemma {:induction false} TreeRead(tree: Tree, rest: string)
    requires Fits(tree, rest)
    ensures ParseValue(TreeText(tree) + rest) == Ok(Value(tree), rest)
    decreases tree, 3
  {
    match tree
    case NullWord => WordsRead(rest);
    case FalseWord => WordsRead(rest);
    case TrueWord => WordsRead(rest);
    case Numeric(n) => NumericRead(n, rest);
    case Quote(l) => QuoteRead(l, rest);
    case List(pad, cells) => ListRead(pad, cells, rest);
    case Record(pad, fields) => RecordRead(pad, fields, rest);
  }

  lemma WordsRead(rest: string)
    ensures ParseValue("null" + rest) == Ok(Null, rest)
    ensures ParseValue("false" + rest) == Ok(False, rest)
    ensures ParseValue("true" + rest) == Ok(True, rest)
  {
    assert ("null" + rest)[4..] == rest;
    assert ("false" + rest)[5..] == rest && ("false" + rest)[0] == 'f';
    assert ("true" + rest)[4..] == rest && ("true" + rest)[0] == 't';
  }

  lemma NumericRead(n: Numeral, rest: string)
    requires NumeralFits(n, rest)
    ensures ParseValue(NumeralText(n) + rest) == Ok(NumeralValue(n), rest)
  {
    hide ParseNumber, NumeralFits, NumeralText, NumeralValue;
    NumeralRead(n, rest);
    NumeralStarts(n, rest);
    NumberDispatched(NumeralText(n) + rest);
  }

  lemma NumberDispatched(t: string)
    requires t != [] && (t[0] == '-' || IsDigit(t[0]))
    ensures ParseValue(t) == Ok(ParseNumber(t).0, ParseNumber(t).1)
  {
    hide ParseNumber;
  }

  lemma QuoteRead(l: Literal, rest: string)
    requires LiteralFits(l, rest)
    ensures ParseValue(LiteralText(l) + rest) == Ok(Text(LiteralValue(l)), rest)
  {
    hide ParseString, LiteralFits, LiteralValue;
    LiteralRead(l, rest);
    assert (LiteralText(l) + rest)[0] == '\"';
  }

  lemma ListRead(pad: string, cells: seq<Cell>, rest: string)
    requires Fits(List(pad, cells), rest)
    ensures ParseValue(TreeText(List(pad, cells)) + rest) == Ok(Value(List(pad, cells)), rest)
    decreases cells, 2
  {
    hide ParseItems, Skip, CellsText, CellsValue, CellsFit, Blank;
    var t := TreeText(List(pad, cells)) + rest;
    var end := "]" + rest;
    assert t[0] == '[';
    if cells == [] {
      assert t[1..] == pad + end;
      SkipTo(pad, end);
      assert end[1..] == rest;
      NoCells();
    } else {
      assert t[1..] == CellsText(cells) + end;
      CellsRead(cells, rest);
      CellsStart(cells, end);
      ItemsSkip(t[1..]);
    }
  }

  /** Blanks in front of the elements of an array do not matter. */
  lemma ItemsSkip(t: string)
    ensures ParseItems(Skip(t)) == ParseItems(t)
  {
    var s := SkipFound(t);
  }

  lemma CellsStart(cells: seq<Cell>, end: string)
    requires cells != [] && CellsFit(cells, end)
    ensures Skip(CellsText(cells) + end) == TreeText(cells[0].tree) + (cells[0].after + CellsBehind(cells, end))
    ensures !At(Skip(CellsText(cells) + end), ']')
  {
    hide Skip, TreeText, CellsText, Blank, Fits;
    var c := cells[0];
    var behind := c.after + CellsBehind(cells, end);
    CellsSplit(cells, end);
    TextStarts(c.tree, behind);
    SkipTo(c.before, TreeText(c.tree) + behind);
  }

  lemma {:induction false} CellsRead(cells: seq<Cell>, rest: string)
    requires cells != [] && CellsFit(cells, "]" + rest)
    ensures ParseItems(CellsText(cells) + ("]" + rest)) == Ok(CellsValue(cells), rest)
    decreases cells, 1
  {
    hide ParseItems, ParseValue, Skip, CellsText, TreeText, Value, Blank, Fits, CellsBehind;
    var end := "]" + rest;
    var behind := CellsBehind(cells, end);
    TreeRead(cells[0].tree, cells[0].after + behind);
    CellsStart(cells, end);
    BehindStarts(cells, rest);
    SkipTo(cells[0].after, behind);
    if |cells| == 1 {
      LastItem(CellsText(cells) + end, Value(cells[0].tree), cells[0].after + behind);
      OneCell(cells);
    } else {
      CellsRead(cells[1..], rest);
      MoreItems(CellsText(cells) + end, Value(cells[0].tree), cells[0].after + behind, CellsValue(cells[1..]), rest);
    }
  }

  lemma NoCells()
    ensures CellsValue([]) == [] && FieldsValue([]) == []
  {
  }

  lemma OneCell(cells: seq<Cell>)
    requires |cells| == 1
    ensures CellsValue(cells) == [Value(cells[0].tree)]
  {
    assert CellsValue(cells[1..]) == [];
  }

  lemma LastItem(t: string, j: Json, after: string)
    requires ParseValue(Skip(t)) == Ok(j, after) && At(Skip(after), ']')
    ensures ParseItems(t) == Ok([j], Skip(after)[1..])
  {
    hide Skip, ParseValue;
  }

  lemma MoreItems(t: string, j: Json, after: string, items: seq<Json>, rest: string)
    requires ParseValue(Skip(t)) == Ok(j, after) && At(Skip(after), ',') && ParseItems(Skip(after)[1..]) == Ok(items, rest)
    ensures ParseItems(t) == Ok([j] + items, rest)
  {
    hide Skip, ParseValue;
  }

  lemma RecordRead(pad: string, fields: seq<Field>, rest: string)
    requires Fits(Record(pad, fields), rest)
    ensures ParseValue(TreeText(Record(pad, fields)) + rest) == Ok(Value(Record(pad, fields)), rest)
    decreases fields, 2
  {
    hide ParseMembers, Skip, FieldsText, FieldsValue, FieldsFit, Blank;
    var t := TreeText(Record(pad, fields)) + rest;
    var end := "}" + rest;
    assert t[0] == '{';
    if fields == [] {
      assert t[1..] == pad + end;
      SkipTo(pad, end);
      assert end[1..] == rest;
      NoCells();
    } else {
      assert t[1..] == FieldsText(fields) + end;
      FieldsRead(fields, rest);
      FieldsStart(fields, end);
      JsonRoundTrip.MembersSkip(t[1..]);
    }
  }

  lemma FieldsStart(fields: seq<Field>, end: string)
    requires fields != [] && FieldsFit(fields, end)
    ensures !At(Skip(FieldsText(fields) + end), '}')
  {
    hide Skip, FieldsText, FieldText, Blank, Fits, LiteralFits, TreeText;
    var f := fields[0];
    FieldsSplit(fields, end);
    FieldSplit(f, FieldsBehind(fields, end));
    assert LiteralText(f.name)[0] == '\"';
    SkipTo(f.before, LiteralText(f.name) + (f.beforeColon + ":" + f.afterColon + TreeText(f.tree) + f.after + FieldsBehind(fields, end)));
  }

  lemma {:induction false} FieldsRead(fields: seq<Field>, rest: string)
    requires fields != [] && FieldsFit(fields, "}" + rest)
    ensures ParseMembers(FieldsText(fields) + ("}" + rest)) == Ok(FieldsValue(fields), rest)
    decreases fields, 1
  {
    hide ParseMembers, ParseMember, Skip, FieldsText, FieldText, TreeText, Value, Blank, Fits, FieldsBehind, LiteralValue;
    var end := "}" + rest;
    var f, behind := fields[0], FieldsBehind(fields, end);
    FieldsSplit(fields, end);
    FieldRead(f, behind);
    FieldsBehindStarts(fields, rest);
    SkipTo(f.after, behind);
    if |fields| == 1 {
      LastField(FieldsText(fields) + end, Member(LiteralValue(f.name), Value(f.tree)), f.after + behind);
      OneField(fields);
    } else {
      FieldsRead(fields[1..], rest);
      MoreFields(FieldsText(fields) + end, Member(LiteralValue(f.name), Value(f.tree)), f.after + behind, FieldsValue(fields[1..]), rest);
    }
  }

  lemma OneField(fields: seq<Field>)
    requires |fields| == 1
    ensures FieldsValue(fields) == [Member(LiteralValue(fields[0].name), Value(fields[0].tree))]
  {
    assert FieldsValue(fields[1..]) == [];
  }

  lemma LastField(t: string, m: Member, after: string)
    requires ParseMember(t) == Ok(m, after) && At(Skip(after), '}')
    ensures ParseMembers(t) == Ok([m], Skip(after)[1..])
  {
    hide Skip, ParseMember;
  }

  lemma MoreFields(t: string, m: Member, after: string, ms: seq<Member>, rest: string)
    requires ParseMember(t) == Ok(m, after) && At(Skip(after), ',') && ParseMembers(Skip(after)[1..]) == Ok(ms, rest)
    ensures ParseMembers(t) == Ok([m] + ms, rest)
  {
    hide Skip, ParseMember;
  }

  lemma FieldRead(f: Field, behind: string)
    requires FieldFits(f, behind)
    ensures ParseMember(FieldText(f) + behind) == Ok(Member(LiteralValue(f.name), Value(f.tree)), f.after + behind)
    decreases f, 4
  {
    hide ParseMember, ParseValue, ParseString, Skip, FieldText, TreeText, Value, Blank, Fits, LiteralFits, LiteralValue;
    var value := TreeText(f.tree) + (f.after + behind);
    var colon := ":" + (f.afterColon + value);
    FieldSplit(f, behind);
    assert LiteralText(f.name)[0] == '\"';
    SkipTo(f.before, LiteralText(f.name) + (f.beforeColon + colon));
    LiteralRead(f.name, f.beforeColon + colon);
    SkipTo(f.beforeColon, colon);
    assert colon[1..] == f.afterColon + value;
    TextStarts(f.tree, f.after + behind);
    SkipTo(f.afterColon, value);
    TreeRead(f.tree, f.after + behind);
    OneMember(FieldText(f) + behind, LiteralValue(f.name), f.beforeColon + colon, Value(f.tree), f.after + behind);
  }

  lemma OneMember(t: string, name: string, after: string, j: Json, rest: string)
    requires ParseString(Skip(t)) == Ok(name, after) && At(Skip(after), ':') && ParseValue(Skip(Skip(after)[1..])) == Ok(j, rest)
    ensures ParseMember(t) == Ok(Member(name, j), rest)
  {
    hide Skip, ParseString, ParseValue;
  }

  // ---------------------------------------------------------------- and nothing else is

  lemma {:induction false} TreeFound(t: string) returns (tree: Tree, rest: string)
    requires ParseValue(t).Ok?
    ensures t == TreeText(tree) + rest && Fits(tree, rest)
    decreases |t|, 3
  {
    if "null" <= t {
      tree, rest := NullWord, t[4..];
    } else if "false" <= t {
      tree, rest := FalseWord, t[5..];
    } else if "true" <= t {
      tree, rest := TrueWord, t[4..];
    } else if At(t, '\"') {
      tree, rest := QuoteFound(t);
    } else if t != [] && (t[0] == '-' || IsDigit(t[0])) {
      var n;
      n, rest := NumeralFound(t);
      tree := Numeric(n);
    } else if At(t, '[') {
      tree, rest := ListFound(t);
    } else {
      tree, rest := RecordFound(t);
    }
  }

  lemma QuoteFound(t: string) returns (tree: Tree, rest: string)
    requires At(t, '\"') && ParseValue(t).Ok?
    ensures t == TreeText(tree) + rest && Fits(tree, rest)
  {
    hide ParseString, LiteralFits, LiteralText;
    var l := LiteralFound(t);
    tree, rest := Quote(l), ParseString(t).rest;
  }

  lemma ListFound(t: string) returns (tree: Tree, rest: string)
    requires At(t, '[') && ParseValue(t).Ok?
    ensures t == TreeText(tree) + rest && Fits(tree, rest)
    decreases |t|, 2
  {
    hide Skip, ParseItems, CellsText, CellsFit, Blank;
    assert t[0] == '[';
    var pad := SkipFound(t[1..]);
    var u := Skip(t[1..]);
    if At(u, ']') {
      tree, rest := List(pad, []), u[1..];
      Enclosed(t, pad, "]", rest);
    } else {
      ItemsSkip(t[1..]);
      var cells;
      cells, rest := CellsFound(t[1..]);
      NoBlanks();
      Enclosed(t, CellsText(cells), "]", rest);
      tree := List([], cells);
    }
  }

  lemma Enclosed(t: string, body: string, close: string, rest: string)
    requires t != [] && t[1..] == body + (close + rest)
    ensures t == [t[0]] + body + close + rest
  {
    assert t == [t[0]] + t[1..];
  }

  lemma NoBlanks()
    ensures Blank([])
  {
  }

  lemma {:induction false} CellsFound(t: string) returns (cells: seq<Cell>, rest: string)
    requires ParseItems(t).Ok?
    ensures cells != [] && t == CellsText(cells) + ("]" + rest) && CellsFit(cells, "]" + rest)
    decreases |t|, 4
  {
    hide Skip, ParseValue, CellsText, TreeText, Fits, Blank;
    var before := SkipFound(t);
    var tree, behind := TreeFound(Skip(t));
    TreeRead(tree, behind);
    var after := SkipFound(behind);
    var u := Skip(behind);
    var cell := Cell(before, tree, after);
    if At(u, ',') {
      var more;
      more, rest := CellsFound(u[1..]);
      cells := [cell] + more;
      assert cells[1..] == more;
      assert CellsBehind(cells, "]" + rest) == u;
    } else {
      cells, rest := [cell], u[1..];
      assert CellsBehind(cells, "]" + rest) == u;
    }
    CellsSplit(cells, "]" + rest);
  }

  lemma RecordFound(t: string) returns (tree: Tree, rest: string)
    requires At(t, '{') && ParseValue(t).Ok?
    ensures t == TreeText(tree) + rest && Fits(tree, rest)
    decreases |t|, 2
  {
    hide Skip, ParseMembers, FieldsText, FieldsFit, Blank;
    assert t[0] == '{';
    var pad := SkipFound(t[1..]);
    var u := Skip(t[1..]);
    if At(u, '}') {
      tree, rest := Record(pad, []), u[1..];
      Enclosed(t, pad, "}", rest);
    } else {
      JsonRoundTrip.MembersSkip(t[1..]);
      var fields;
      fields, rest := FieldsFound(t[1..]);
      NoBlanks();
      Enclosed(t, FieldsText(fields), "}", rest);
      tree := Record([], fields);
    }
  }

  lemma {:induction false} FieldsFound(t: string) returns (fields: seq<Field>, rest: string)
    requires ParseMembers(t).Ok?
    ensures fields != [] && t == FieldsText(fields) + ("}" + rest) && FieldsFit(fields, "}" + rest)
    decreases |t|, 4
  {
    hide Skip, ParseMember, FieldsText, FieldText, TreeText, LiteralText, FieldFits, Blank;
    var f0, behind := FieldFound(t);
    var after := SkipFound(behind);
    var u := Skip(behind);
    var f := f0.(after := after);
    if At(u, ',') {
      var more;
      more, rest := FieldsFound(u[1..]);
      fields := [f] + more;
      assert fields[1..] == more;
      assert FieldsBehind(fields, "}" + rest) == u;
    } else {
      fields, rest := [f], u[1..];
      assert FieldsBehind(fields, "}" + rest) == u;
    }
    FieldAfter(f0, after, u);
    FieldsSplit(fields, "}" + rest);
  }

  /** The blanks behind a member belong to it. */
  lemma FieldAfter(f: Field, after: string, u: string)
    requires f.after == [] && FieldFits(f, after + u) && Blank(after)
    ensures FieldFits(f.(after := after), u) && FieldText(f) + (after + u) == FieldText(f.(after := after)) + u
  {
    hide LiteralFits, Fits, Blank, LiteralText, TreeText;
    var front := f.beforeColon + ":" + f.afterColon + TreeText(f.tree);
    assert front + [] + (after + u) == front + after + u;
    assert [] + (after + u) == after + u;
    var whole := f.before + LiteralText(f.name) + f.beforeColon + ":" + f.afterColon + TreeText(f.tree);
    assert whole + [] + (after + u) == whole + after + u;
  }

  lemma FieldFound(t: string) returns (f: Field, behind: string)
    requires ParseMember(t).Ok?
    ensures f.after == [] && t == FieldText(f) + behind && FieldFits(f, behind) && behind == ParseMember(t).rest
    decreases |t|, 3
  {
    hide Skip, ParseValue, ParseString, TreeText, LiteralText, FieldText, Fits, LiteralFits, Blank;
    var before := SkipFound(t);
    var name := LiteralFound(Skip(t));
    var rest := ParseString(Skip(t)).rest;
    var beforeColon := SkipFound(rest);
    var u := Skip(rest);
    var afterColon := SkipFound(u[1..]);
    var tree;
    tree, behind := TreeFound(Skip(u[1..]));
    TreeRead(tree, behind);
    f := Field(before, name, beforeColon, afterColon, tree, []);
    NoBlanks();
    FieldSplit(f, behind);
    assert [] + behind == behind;
    assert u == ":" + u[1..];
  }

  // ---------------------------------------------------------------- the result

  /** A tree has the text t up to rest, and the value j. */
  ghost predicate Reads(t: string, j: Json, rest: string) {
    exists tree :: Fits(tree, rest) && t == TreeText(tree) + rest && j == Value(tree)
  }

  /** parse_value takes exactly the texts of the grammar, with their value and up to their end. */
  lemma ParsesExactly(t: string, j: Json, rest: string)
    ensures ParseValue(t) == Ok(j, rest) <==> Reads(t, j, rest)
  {
    if ParseValue(t).Ok? {
      var tree, rest' := TreeFound(t);
      TreeRead(tree, rest');
    }
    if Reads(t, j, rest) {
      var tree :| Fits(tree, rest) && t == TreeText(tree) + rest && j == Value(tree);
      TreeRead(tree, rest);
    }
  }

  /** A document: blanks, a value and, when the whole text is asked for, nothing but blanks behind it. */
  ghost predicate ReadsDocument(t: string, whole: bool, j: Json, rest: string) {
    exists pad, behind ::
      && Blank(pad)
      && t == pad + behind
      && Document(behind, whole, j, rest)
  }

  ghost predicate Document(t: string, whole: bool, j: Json, rest: string) {
    if whole then rest == [] && exists behind :: Blank(behind) && Reads(t, j, behind) else Reads(t, j, rest)
  }

  lemma DocumentExactly(t: string, whole: bool, j: Json, rest: string)
    ensures ParseDocument(t, whole) == Ok(j, rest) <==> ReadsDocument(t, whole, j, rest)
  {
    hide Skip, ParseValue, Reads, Blank;
    if ParseDocument(t, whole) == Ok(j, rest) {
      var pad := SkipFound(t);
      var behind := ParseValue(Skip(t)).rest;
      ParsesExactly(Skip(t), j, behind);
      var end := SkipFound(behind);
      assert end + [] == end;
      assert Document(Skip(t), whole, j, rest);
    }
    if ReadsDocument(t, whole, j, rest) {
      var pad, s :| Blank(pad) && t == pad + s && Document(s, whole, j, rest);
      BlankSkipped(pad, s);
      if whole {
        var behind :| Blank(behind) && Reads(s, j, behind);
        ValueFirst(s, j, behind);
        AllSkipped(behind);
      } else {
        ValueFirst(s, j, rest);
      }
    }
  }

  /** A text of the grammar begins with no blank. */
  lemma ValueFirst(s: string, j: Json, rest: string)
    requires Reads(s, j, rest)
    ensures Skip(s) == s && ParseValue(s) == Ok(j, rest)
  {
    hide Fits, TreeText, Value, ParseValue;
    ParsesExactly(s, j, rest);
    var tree :| Fits(tree, rest) && s == TreeText(tree) + rest && j == Value(tree);
    TextStarts(tree, rest);
  }

  lemma AllSkipped(s: string)
    requires Blank(s)
    ensures Skip(s) == []
  {
    hide Skip;
    BlankSkipped(s, []);
    assert s + [] == s;
    SkipNothing();
  }

  lemma SkipNothing()
    ensures Skip([]) == []
  {
  }
}
