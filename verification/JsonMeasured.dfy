/**
 The measured printer of cJSON.c: print_value without a printbuffer.  Every text goes into an
 allocation sized from the lengths of its parts; each write here is inside its allocation.
 */
module JsonMeasured {
  import opened JsonText
  import opened JsonPrinters

  // ---------------------------------------------------------------- composing

  /** The array begins with u. */
  ghost predicate Starts(a: array<char>, u: string)
    reads a
  {
    |u| <= a.Length && a[..|u|] == u
  }

  /** memcpy, or a run of *ptr++, behind the text u. */
  method Append(a: array<char>, at: nat, s: string, ghost u: string) returns (at': nat)
    requires Starts(a, u) && at == |u| && at + |s| <= a.Length
    modifies a
    ensures Starts(a, u + s) && at' == |u + s|
  {
    ghost var was := a[..];
    Write(a, at, s);
    WroteText(was, a[..], u, s);
    at' := at + |s|;
  }

  /** The same with a terminator behind it. */
  method AppendC(a: array<char>, at: nat, s: string, ghost u: string) returns (at': nat)
    requires Starts(a, u) && at == |u| && at + |s| + 1 <= a.Length
    modifies a
    ensures Starts(a, u + s) && at' == |u + s| && Holds(a, u + s)
  {
    hide HoldsAt;
    var _ := Append(a, at, s + "\0", u);
    assert u + (s + "\0") == u + s + "\0";
    assert a[..|u + s|] == a[..|u + s| + 1][..|u + s|];
    WholeArray(a, u + s);
    at' := at + |s|;
  }

  /** strlen. */
  method Length(a: array<char>, ghost t: string) returns (n: nat)
    requires Holds(a, t) && CString(t)
    ensures n == |t| <= a.Length && a[..n] == t
  {
    hide HoldsAt;
    WholeArray(a, t);
    n := 0;
    while a[n] != '\0'
      invariant n <= |t|
      decreases |t| - n
    {
      assert a[n] == a[..|t| + 1][n] == (t + "\0")[n];
      n := n + 1;
    }
    assert a[n] == a[..|t| + 1][n] == (t + "\0")[n];
    assert a[..n] == a[..|t| + 1][..n];
  }

  lemma WholeArray(a: array<char>, t: string)
    ensures Holds(a, t) <==> |t| < a.Length && a[..|t| + 1] == t + "\0"
  {
    HoldsAtStart(a[..], t);
    assert |t| < a.Length ==> a[..][..|t| + 1] == a[..|t| + 1];
  }

  /** cJSON_strdup. */
  method Duplicate(s: string) returns (a: array<char>)
    ensures fresh(a) && Holds(a, s)
  {
    a := new char[|s| + 1];
    var _ := AppendC(a, 0, s, "");
    assert "" + s == s;
  }

  /** print_string_ptr without a printbuffer. */
  method PrintString(s: string) returns (a: array<char>)
    requires CString(s)
    ensures fresh(a) && Holds(a, Quoted(s))
  {
    hide HoldsAt, EscapeAll;
    var flag, len := MeasureString(s);
    a := new char[len + 3];
    WriteQuoted(a, 0, s, flag);
    assert a[0..0 + |Quoted(s) + "\0"|] == a[..|Quoted(s)| + 1];
    WholeArray(a, Quoted(s));
  }

  // ---------------------------------------------------------------- what the allocations leave room for

  /** What print_array adds up for the entries from i on. */
  function ItemsRoom(items: seq<Json>, i: nat, depth: nat, fmt: bool): nat
    requires i <= |items|
    decreases |items| - i
  {
    if i == |items| then 0
    else |Print(items[i], depth, fmt)| + 2 + (if fmt then 1 else 0) + ItemsRoom(items, i + 1, depth, fmt)
  }

  /** The lengths added up cover the entries and the commas between them. */
  lemma {:induction false} ItemsFit(items: seq<Json>, i: nat, depth: nat, fmt: bool)
    requires i <= |items|
    ensures |ItemsFrom(items, i, depth, fmt)| <= ItemsRoom(items, i, depth, fmt)
    decreases |items| - i
  {
    hide ItemsFrom;
    if i < |items| {
      ItemsStep(items, i, depth, fmt);
      ItemsFit(items, i + 1, depth, fmt);
    } else {
      NoItems(items, depth, fmt);
    }
  }

  lemma AllItems(items: seq<Json>, depth: nat, fmt: bool)
    requires items != []
    ensures ItemsFrom(items, 0, depth, fmt) == PrintItems(items, depth, fmt)
  {
    assert items[0..] == items;
  }

  lemma NoItems(items: seq<Json>, depth: nat, fmt: bool)
    ensures ItemsFrom(items, |items|, depth, fmt) == ""
  {
  }

  /** What print_object adds up for the members from i on. */
  function MembersRoom(ms: seq<Member>, i: nat, depth: nat, fmt: bool): nat
    requires i <= |ms|
    decreases |ms| - i
  {
    if i == |ms| then 0
    else
      |Print(ms[i].value, depth, fmt)| + |Quoted(ms[i].name)| + 2 + (if fmt then 2 + depth else 0)
      + MembersRoom(ms, i + 1, depth, fmt)
  }

  /** The lengths added up cover names, values, indentation, colons, commas and line ends. */
  lemma {:induction false} MembersFit(ms: seq<Member>, i: nat, depth: nat, fmt: bool)
    requires i <= |ms|
    ensures |PrintMembers(ms[i..], depth, fmt)| <= MembersRoom(ms, i, depth, fmt)
    decreases |ms| - i
  {
    hide PrintMembers, Print, Quoted, Tabs;
    if i < |ms| {
      MembersStep(ms, i, depth, fmt);
      TabsCString(depth);
      MembersFit(ms, i + 1, depth, fmt);
    } else {
      assert ms[i..] == [];
      NoMembers(depth, fmt);
    }
  }

  // ---------------------------------------------------------------- print_value

  /** print_value without a printbuffer. */
  method PrintValue(j: Json, depth: nat, fmt: bool) returns (a: array<char>)
    requires IntTree(j)
    ensures fresh(a) && Holds(a, Print(j, depth, fmt))
    decreases j, 2
  {
    match j
    case Null => a := Duplicate("null");
    case False => a := Duplicate("false");
    case True => a := Duplicate("true");
    case Number(n, _) => a := PrintNumber(n);
    case Text(s) => a := PrintString(s);
    case Array(items) => a := PrintArray(items, depth, fmt);
    case Object(ms) => a := PrintObject(ms, depth, fmt);
  }

  /** print_number for an int. */
  method PrintNumber(n: int) returns (a: array<char>)
    requires -0x8000_0000 <= n < 0x8000_0000
    ensures fresh(a) && Holds(a, Decimal(n))
  {
    hide Decimal;
    DecimalShort(n);
    a := new char[if n == 0 then 2 else 21];
    var _ := AppendC(a, 0, Decimal(n), "");
    assert "" + Decimal(n) == Decimal(n);
  }

  /** print_array without a printbuffer. */
  method PrintArray(items: seq<Json>, depth: nat, fmt: bool) returns (out: array<char>)
    requires IntTree(Array(items))
    ensures fresh(out) && Holds(out, Print(Array(items), depth, fmt))
    decreases items, 4
  {
    if items == [] {
      out := new char[3];
      var _ := AppendC(out, 0, "[]", "");
      return;
    }
    var entries, len := PrintEntries(items, depth + 1, fmt);
    ghost var body := PrintItems(items, depth + 1, fmt);
    ItemsFit(items, 0, depth + 1, fmt);
    assert items[0..] == items;
    out := new char[len];
    var at := AppendC(out, 0, "[", "");
    at := JoinEntries(out, at, items, entries, depth + 1, fmt);
    var _ := AppendC(out, at, "]", "[" + body);
  }

  /** The texts of the entries, and the length to allocate. */
  method PrintEntries(items: seq<Json>, depth: nat, fmt: bool) returns (entries: seq<array<char>>, len: nat)
    requires forall i | 0 <= i < |items| :: IntTree(items[i])
    ensures len == 5 + ItemsRoom(items, 0, depth, fmt) && |entries| == |items| && forall e <- entries :: fresh(e)
    ensures forall k | 0 <= k < |items| :: Holds(entries[k], Print(items[k], depth, fmt))
    decreases items, 3
  {
    hide Print, IntTree, Holds, CString;
    entries, len := [], 5;
    for i := 0 to |items|
      invariant |entries| == i && len + ItemsRoom(items, i, depth, fmt) == 5 + ItemsRoom(items, 0, depth, fmt)
      invariant forall e <- entries :: fresh(e)
      invariant forall k | 0 <= k < i :: Holds(entries[k], Print(items[k], depth, fmt))
    {
      var ret := PrintValue(items[i], depth, fmt);
      PrintCString(items[i], depth, fmt);
      var n := Length(ret, Print(items[i], depth, fmt));
      entries := entries + [ret];
      len := len + n + 2 + if fmt then 1 else 0;
    }
  }

  /** The loop that composes an array behind its bracket. */
  method JoinEntries(out: array<char>, start: nat, items: seq<Json>, entries: seq<array<char>>, depth: nat, fmt: bool)
    returns (at: nat)
    requires start == 1 && Starts(out, "[") && items != [] && |entries| == |items| && out !in entries
    requires forall i | 0 <= i < |items| :: IntTree(items[i])
    requires forall k | 0 <= k < |items| :: Holds(entries[k], Print(items[k], depth, fmt))
    requires |PrintItems(items, depth, fmt)| + 3 <= out.Length
    modifies out
    ensures Starts(out, "[" + PrintItems(items, depth, fmt)) && at == |"[" + PrintItems(items, depth, fmt)|
  {
    hide Print, IntTree, PrintItems, ItemsFrom, Holds, HoldsAt, Starts, CString;
    at := start;
    ghost var whole, u := "[" + PrintItems(items, depth, fmt), "[";
    AllItems(items, depth, fmt);
    NoItems(items, depth, fmt);
    for i := 0 to |items|
      invariant at == |u| && Starts(out, u) && u + ItemsFrom(items, i, depth, fmt) == whole
      invariant forall k | 0 <= k < |items| :: Holds(entries[k], Print(items[k], depth, fmt))
    {
      ghost var head, comma := Print(items[i], depth, fmt), if i + 1 < |items| then (if fmt then ", " else ",") else "";
      ItemsStep(items, i, depth, fmt);
      Regroup(u, head, comma + ItemsFrom(items, i + 1, depth, fmt));
      Regroup(u + head, comma, ItemsFrom(items, i + 1, depth, fmt));
      PrintCString(items[i], depth, fmt);
      var n := Length(entries[i], head);
      at := Append(out, at, entries[i][..n], u);
      if i != |items| - 1 {
        at := AppendC(out, at, if fmt then ", " else ",", u + head);
      } else {
        assert u + head + "" == u + head;
      }
      u := u + head + comma;
    }
    assert u + "" == u;
  }

  /** print_object without a printbuffer. */
  method PrintObject(ms: seq<Member>, depth: nat, fmt: bool) returns (out: array<char>)
    requires IntTree(Object(ms))
    ensures fresh(out) && Holds(out, Print(Object(ms), depth, fmt))
    decreases ms, 4
  {
    hide Print, IntTree, PrintMembers, Holds, HoldsAt, Starts, CString, Tabs, MembersRoom;
    TabsCString(depth - 1);
    TabsCString(depth);
    IntMembers(ms);
    var open, close := if fmt then "{\n" else "{", if fmt then Tabs(if ms == [] then depth - 1 else depth) else "";
    ObjectText(ms, depth, fmt, open, close);
    if ms == [] {
      assert open + "" + close == open + close;
      out := PrintShort(open + close + "}", if fmt then depth + 4 else 3);
      return;
    }
    var names, entries, len := PrintPairs(ms, depth + 1, fmt);
    ghost var body := PrintMembers(ms, depth + 1, fmt);
    MembersFit(ms, 0, depth + 1, fmt);
    assert ms[0..] == ms;
    out := new char[len];
    StartsEmpty(out);
    assert "" + open == open;
    var at := AppendC(out, 0, open, "");
    at := JoinPairs(out, at, ms, names, entries, depth + 1, fmt, open);
    Regroup(open + body, close, "}");
    var _ := AppendC(out, at, close + "}", open + body);
  }

  /** A text written into an allocation of its own. */
  method PrintShort(s: string, len: nat) returns (out: array<char>)
    requires |s| < len
    ensures fresh(out) && Holds(out, s)
  {
    out := new char[len];
    var _ := AppendC(out, 0, s, "");
    assert "" + s == s;
  }

  lemma StartsEmpty(a: array<char>)
    ensures Starts(a, "")
  {
  }

  /** The texts of names and values, and the length to allocate. */
  method PrintPairs(ms: seq<Member>, depth: nat, fmt: bool)
    returns (names: seq<array<char>>, entries: seq<array<char>>, len: nat)
    requires forall i | 0 <= i < |ms| :: CString(ms[i].name) && IntTree(ms[i].value)
    ensures len == 7 + (if fmt then depth else 0) + MembersRoom(ms, 0, depth, fmt)
    ensures |names| == |entries| == |ms| && forall e <- names + entries :: fresh(e)
    ensures forall k | 0 <= k < |ms| :: Holds(names[k], Quoted(ms[k].name)) && Holds(entries[k], Print(ms[k].value, depth, fmt))
    decreases ms, 3
  {
    hide Print, IntTree, Holds, CString, Quoted;
    names, entries, len := [], [], 7 + if fmt then depth else 0;
    ghost var total := len + MembersRoom(ms, 0, depth, fmt);
    for i := 0 to |ms|
      invariant |names| == |entries| == i && len + MembersRoom(ms, i, depth, fmt) == total
      invariant forall e <- names :: fresh(e)
      invariant forall e <- entries :: fresh(e)
      invariant forall k | 0 <= k < i :: Holds(names[k], Quoted(ms[k].name)) && Holds(entries[k], Print(ms[k].value, depth, fmt))
    {
      var str := PrintString(ms[i].name);
      var ret := PrintValue(ms[i].value, depth, fmt);
      QuotedCString(ms[i].name);
      PrintCString(ms[i].value, depth, fmt);
      var n := Length(ret, Print(ms[i].value, depth, fmt));
      var m := Length(str, Quoted(ms[i].name));
      names, entries := names + [str], entries + [ret];
      len := len + n + m + 2 + if fmt then 2 + depth else 0;
    }
  }

  /** The loop that composes an object behind its opening. */
  method JoinPairs(out: array<char>, start: nat, ms: seq<Member>, names: seq<array<char>>, entries: seq<array<char>>,
                   depth: nat, fmt: bool, ghost open: string)
    returns (at: nat)
    requires start == |open| && Starts(out, open)
    requires |names| == |entries| == |ms| && out !in names && out !in entries
    requires forall i | 0 <= i < |ms| :: CString(ms[i].name) && IntTree(ms[i].value)
    requires forall k | 0 <= k < |ms| :: Holds(names[k], Quoted(ms[k].name)) && Holds(entries[k], Print(ms[k].value, depth, fmt))
    requires |open| + |PrintMembers(ms, depth, fmt)| + 1 <= out.Length
    modifies out
    ensures Starts(out, open + PrintMembers(ms, depth, fmt)) && at == |open + PrintMembers(ms, depth, fmt)|
  {
    hide Field, IntTree, PrintMembers, Holds, Starts, CString, Quoted, Print;
    at := start;
    ghost var whole, u := open + PrintMembers(ms, depth, fmt), open;
    assert ms[0..] == ms;
    for i := 0 to |ms|
      invariant at == |u| && Starts(out, u) && u + PrintMembers(ms[i..], depth, fmt) == whole
      invariant forall k | 0 <= k < |ms| :: Holds(names[k], Quoted(ms[k].name)) && Holds(entries[k], Print(ms[k].value, depth, fmt))
    {
      ghost var text := Field(ms[i], i + 1 == |ms|, depth, fmt);
      MembersStep(ms, i, depth, fmt);
      assert u + text + PrintMembers(ms[i + 1..], depth, fmt) == u + (text + PrintMembers(ms[i + 1..], depth, fmt));
      at := JoinPair(out, at, ms[i], i + 1 == |ms|, names[i], entries[i], depth, fmt, u);
      u := u + text;
    }
    NoMembers(depth, fmt);
    assert ms[|ms|..] == [] && u + "" == u;
  }

  /** Composes one name and value. */
  method JoinPair(out: array<char>, start: nat, m: Member, last: bool, name: array<char>, entry: array<char>,
                  depth: nat, fmt: bool, ghost u: string)
    returns (at: nat)
    requires start == |u| && Starts(out, u) && out != name && out != entry
    requires CString(m.name) && IntTree(m.value)
    requires Holds(name, Quoted(m.name)) && Holds(entry, Print(m.value, depth, fmt))
    requires |u| + |Field(m, last, depth, fmt)| + 1 <= out.Length
    modifies out
    ensures Starts(out, u + Field(m, last, depth, fmt)) && at == |u + Field(m, last, depth, fmt)|
  {
    hide IntTree, Holds, Starts, CString, Quoted, Print, Tabs;
    var tabs, colon, sep := if fmt then Tabs(depth) else "", if fmt then ":\t" else ":", Separator(last, fmt);
    ghost var u1 := u + tabs;
    ghost var u2 := u1 + Quoted(m.name);
    ghost var u3 := u2 + colon;
    ghost var u4 := u3 + Print(m.value, depth, fmt);
    assert u4 + sep == u + Field(m, last, depth, fmt);
    QuotedCString(m.name);
    PrintCString(m.value, depth, fmt);
    at := Append(out, start, tabs, u);
    var tmplen := Length(name, Quoted(m.name));
    at := Append(out, at, name[..tmplen], u1);
    at := Append(out, at, colon, u2);
    tmplen := Length(entry, Print(m.value, depth, fmt));
    at := AppendC(out, at, entry[..tmplen], u3);
    at := AppendC(out, at, sep, u4);
  }

  /** cJSON_Print and cJSON_PrintUnformatted. */
  method PrintMeasured(j: Json, fmt: bool) returns (text: array<char>)
    requires IntTree(j)
    ensures Holds(text, Print(j, 0, fmt))
  {
    text := PrintValue(j, 0, fmt);
  }
}
