/**
 cJSON_Minify against a filter that looks at each byte once: the mode of its position and the two bytes
 there say whether it stays.
 */
module JsonFilter {
  import opened Common
  import opened JsonMinify
  import opened JsonText

  /** A slash and the byte behind it open a comment here. */
  predicate Opens(t: string) {
    |t| > 1 && t[0] == '/' && (t[1] == '/' || t[1] == '*')
  }

  /** The first byte of t stays: every byte of a string literal, no byte of a comment, and of the rest
      all but blanks and the slash that opens a comment. */
  predicate Stays(m: Mode, t: string)
    requires t != []
  {
    match m
    case Quote | Backslash => true
    case Line | Block | Star => false
    case Plain => t[0] !in {' ', '\t', '\r', '\n'} && !Opens(t)
    case Slash => t[0] !in {' ', '\t', '\r', '\n', '/', '*'}
  }

  function Filter(m: Mode, t: string): string
    decreases |t|
  {
    if t == [] then [] else (if Stays(m, t) then [t[0]] else []) + Filter(Next(m, t[0]), t[1..])
  }

  lemma Kept(m: Mode, t: string)
    requires t != [] && Stays(m, t)
    ensures Filter(m, t) == [t[0]] + Filter(Next(m, t[0]), t[1..])
  {
  }

  lemma Dropped(m: Mode, t: string)
    requires t != [] && !Stays(m, t)
    ensures Filter(m, t) == Filter(Next(m, t[0]), t[1..])
  {
  }

  lemma FilterNothing(m: Mode)
    ensures Filter(m, []) == []
  {
  }

  lemma {:induction false} FilterLine(t: string)
    ensures Filter(Line, t) == Filter(Plain, LineEnd(t))
  {
    if t == [] {
      FilterNothing(Line);
      FilterNothing(Plain);
    } else {
      Dropped(Line, t);
      if t[0] == '\n' {
        Dropped(Plain, t);
      } else {
        FilterLine(t[1..]);
      }
    }
  }

  lemma {:induction false} FilterComment(t: string)
    requires CommentEnd(t).Some?
    ensures Filter(Block, t) == Filter(Plain, CommentEnd(t).value)
  {
    hide Filter;
    Dropped(Block, t);
    if "*/" <= t {
      Dropped(Star, t[1..]);
      assert t[1..][1..] == t[2..];
    } else {
      FilterComment(t[1..]);
      StarDropped(t[1..], t[0] == '*');
    }
  }

  /** A star that no slash follows changes nothing. */
  lemma StarDropped(t: string, star: bool)
    requires star ==> t == [] || t[0] != '/'
    ensures Filter(if star then Star else Block, t) == Filter(Block, t)
  {
    if t == [] {
      FilterNothing(Star);
      FilterNothing(Block);
    } else {
      Dropped(Star, t);
      Dropped(Block, t);
    }
  }

  lemma {:induction false} FilterLiteral(t: string)
    requires Literal(t).Some?
    ensures Filter(Quote, t) == Literal(t).value.0 + Filter(Plain, Literal(t).value.1)
    decreases |t|
  {
    hide Filter;
    Kept(Quote, t);
    if t[0] == '\"' {
    } else if t[0] == '\\' {
      var lit := Literal(t[2..]).value;
      FilterLiteral(t[2..]);
      Kept(Backslash, t[1..]);
      assert t[1..][1..] == t[2..];
      TwoInFront(t, lit.0, Filter(Plain, lit.1));
    } else {
      var lit := Literal(t[1..]).value;
      FilterLiteral(t[1..]);
      assert t[..1] == [t[0]];
      Regroup([t[0]], lit.0, Filter(Plain, lit.1));
    }
  }

  lemma TwoInFront(t: string, a: string, b: string)
    requires |t| > 1
    ensures [t[0]] + ([t[1]] + (a + b)) == t[..2] + a + b
  {
    assert t[..2] == [t[0]] + [t[1]];
  }

  /** Behind a slash that opens nothing the text goes on as before it. */
  lemma SlashPasses(t: string)
    requires t != [] ==> t[0] != '/' && t[0] != '*'
    ensures Filter(Slash, t) == Filter(Plain, t)
  {
    if t == [] {
      FilterNothing(Slash);
      FilterNothing(Plain);
    }
  }

  lemma OpensIs(t: string)
    ensures Opens(t) <==> "//" <= t || "/*" <= t
  {
  }

  /** The minified text of every closed text is what the filter leaves of it. */
  lemma {:induction false} MinifyFilters(t: string)
    requires Closed(t)
    ensures Minify(t) == Some(Filter(Plain, t))
    decreases |t|
  {
    hide LineEnd, CommentEnd, Literal, Filter, Closed;
    MinifyIffClosed(t);
    OpensIs(t);
    if t == [] {
      FilterNothing(Plain);
    } else if IsBlank(t[0]) {
      MinifyIffClosed(t[1..]);
      MinifyFilters(t[1..]);
      Dropped(Plain, t);
    } else if "//" <= t {
      LineOpens(t);
      MinifyFilters(LineEnd(t));
      LineFiltered(t);
    } else if "/*" <= t {
      BlockOpens(t);
      MinifyFilters(CommentEnd(t).value);
      BlockFiltered(t);
    } else if t[0] == '\"' {
      QuoteOpens(t);
      MinifyFilters(Literal(t[1..]).value.1);
      QuoteFiltered(t);
    } else {
      MinifyIffClosed(t[1..]);
      MinifyFilters(t[1..]);
      Kept(Plain, t);
      if t[0] == '/' {
        SlashPasses(t[1..]);
      }
    }
  }

  lemma LineFiltered(t: string)
    requires "//" <= t
    ensures Filter(Plain, t) == Filter(Plain, LineEnd(t))
  {
    hide Filter;
    Dropped(Plain, t);
    Dropped(Slash, t[1..]);
    FilterLine(t[1..][1..]);
    assert LineEnd(t) == LineEnd(t[1..]) == LineEnd(t[1..][1..]);
  }

  /** The star of the opening counts for the closing too: in the code and in the filter. */
  lemma BlockFiltered(t: string)
    requires "/*" <= t && CommentEnd(t).Some?
    ensures Filter(Plain, t) == Filter(Plain, CommentEnd(t).value)
  {
    hide Filter;
    Dropped(Plain, t);
    Dropped(Slash, t[1..]);
    assert CommentEnd(t) == CommentEnd(t[1..]);
    FilterComment(t[1..]);
    Dropped(Block, t[1..]);
  }

  lemma QuoteFiltered(t: string)
    requires t != [] && t[0] == '\"' && Literal(t[1..]).Some?
    ensures Filter(Plain, t) == "\"" + Literal(t[1..]).value.0 + Filter(Plain, Literal(t[1..]).value.1)
  {
    hide Filter;
    Kept(Plain, t);
    FilterLiteral(t[1..]);
    Regroup("\"", Literal(t[1..]).value.0, Filter(Plain, Literal(t[1..]).value.1));
  }
}
