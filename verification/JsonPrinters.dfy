/**
 The growing-buffer printer of cJSON.c: print_value with a printbuffer writes the text Print,
 whatever size the buffer starts with.
 */
module JsonPrinters {
  import opened Bits
  import opened JsonText

  const LIMIT: nat := 0x4000_0000   // the largest size pow2gt can round an int up to

  // ---------------------------------------------------------------- text facts

  lemma {:induction false} EscapeAllCString(s: string)
    requires CString(s)
    ensures CString(EscapeAll(s))
  {
    hide Escape, CString;
    if s == [] {
      NothingCString();
    } else {
      TailCString(s);
      EscapeAllCString(s[1..]);
      EscapeCString(s[0]);
      CStringBoth(Escape(s[0]), EscapeAll(s[1..]));
    }
  }

  lemma NothingCString()
    ensures CString("")
  {
  }

  lemma TailCString(s: string)
    requires CString(s) && s != []
    ensures s[0] != '\0' && CString(s[1..])
  {
  }

  lemma EscapeCString(c: char)
    requires c != '\0'
    ensures CString(Escape(c))
  {
  }

  function Pow10(k: nat): nat {
    if k == 0 then 1 else 10 * Pow10(k - 1)
  }

  lemma {:induction false} DigitsShort(n: nat, k: nat)
    requires k > 0 && n < Pow10(k)
    ensures 0 < |Digits(n)| <= k && CString(Digits(n))
  {
    if n >= 10 {
      DigitsShort(n / 10, k - 1);
    }
  }

  /** "%d" needs at most eleven bytes for a 32-bit integer. */
  lemma DecimalShort(n: int)
    requires -0x8000_0000 <= n < 0x8000_0000
    ensures 0 < |Decimal(n)| <= 11 && CString(Decimal(n)) && (n == 0 ==> |Decimal(n)| == 1)
  {
    assert Pow10(10) == 10_000_000_000;
    DigitsShort(if n < 0 then -n else n, 10);
  }

  lemma {:induction false} TabsCString(n: int)
    ensures CString(Tabs(n)) && |Tabs(n)| == if n < 0 then 0 else n
  {
    if n > 0 {
      TabsCString(n - 1);
    }
  }

  lemma CStringBoth(a: string, b: string)
    requires CString(a) && CString(b)
    ensures CString(a + b)
  {
  }

  lemma QuotedCString(s: string)
    requires CString(s)
    ensures CString(Quoted(s))
  {
    EscapeAllCString(s);
  }

  /** Printed text holds no NUL, so strlen finds its end. */
  lemma PrintCString(j: Json, depth: nat, fmt: bool)
    requires IntTree(j)
    ensures CString(Print(j, depth, fmt))
    decreases j, 2
  {
    match j
    case Null | False | True =>
    case Number(n, _) => DecimalShort(n);
    case Text(s) => QuotedCString(s);
    case Array(items) =>
      if items != [] {
        ItemsCString(items, depth + 1, fmt);
      }
    case Object(ms) => ObjectCString(ms, depth, fmt);
  }

  lemma ObjectCString(ms: seq<Member>, depth: nat, fmt: bool)
    requires IntTree(Object(ms))
    ensures CString(Print(Object(ms), depth, fmt))
    decreases ms, 1
  {
    hide PrintMembers, Tabs, CString;
    MembersCString(ms, depth + 1, fmt);
    TabsCString(depth - 1);
    TabsCString(depth);
    var open_ := if fmt then "\n" else "";
    ShortCString(open_);
    CStringBoth(open_, Tabs(depth - 1));
    var tail := if fmt then Tabs(depth) else "";
    ShortCString("");
    if ms == [] {
      Braces(if fmt then "\n" + Tabs(depth - 1) else "");
    } else {
      CStringBoth(open_, PrintMembers(ms, depth + 1, fmt));
      CStringBoth(open_ + PrintMembers(ms, depth + 1, fmt), tail);
      Braces(open_ + PrintMembers(ms, depth + 1, fmt) + tail);
      assert "{" + (open_ + PrintMembers(ms, depth + 1, fmt) + tail) + "}" == Print(Object(ms), depth, fmt);
    }
  }

  lemma ShortCString(s: string)
    requires s == "" || s == "\n"
    ensures CString(s)
  {
  }

  lemma Braces(s: string)
    requires CString(s)
    ensures CString("{" + s + "}")
  {
  }

  lemma ItemsCString(items: seq<Json>, depth: nat, fmt: bool)
    requires items != [] && forall i | 0 <= i < |items| :: IntTree(items[i])
    ensures CString(PrintItems(items, depth, fmt))
    decreases items, 0
  {
    hide IntTree, Print;
    PrintCString(items[0], depth, fmt);
    if |items| > 1 {
      ItemsCString(items[1..], depth, fmt);
    }
  }

  lemma MembersCString(ms: seq<Member>, depth: nat, fmt: bool)
    requires forall i | 0 <= i < |ms| :: CString(ms[i].name) && IntTree(ms[i].value)
    ensures CString(PrintMembers(ms, depth, fmt))
    decreases ms, 0
  {
    hide IntTree, Print, Tabs, Quoted;
    if ms != [] {
      QuotedCString(ms[0].name);
      TabsCString(depth);
      PrintCString(ms[0].value, depth, fmt);
      MembersCString(ms[1..], depth, fmt);
    }
  }

  // ---------------------------------------------------------------- writing at a pointer

  /** Memory a changed into a' by writing s at `at`; what lies before is as it was. */
  ghost predicate Wrote(a: seq<char>, a': seq<char>, at: nat, s: string) {
    && |a'| == |a| && at + |s| <= |a|
    && a'[..at] == a[..at] && a'[at..at + |s|] == s
  }

  lemma WroteText(a: seq<char>, a': seq<char>, t: string, s: string)
    requires Wrote(a, a', |t|, s) && a[..|t|] == t
    ensures |t| + |s| <= |a'| && a'[..|t| + |s|] == t + s
  {
    assert a'[..|t| + |s|] == a'[..|t|] + a'[|t|..|t| + |s|];
  }

  /** A run of *ptr++ = byte. */
  method Write(a: array<char>, at: nat, s: string)
    requires at + |s| <= a.Length
    modifies a
    ensures Wrote(old(a[..]), a[..], at, s)
  {
    for i := 0 to |s|
      invariant a[..at] == old(a[..at]) && a[at..at + i] == s[..i]
    {
      a[at + i] := s[i];
      assert a[at..at + i + 1] == a[at..at + i] + [s[i]];
    }
  }

  // ---------------------------------------------------------------- print_string_ptr

  /** The two scans of print_string_ptr: whether anything needs an escape, and the printed length. */
  method MeasureString(s: string) returns (flag: bool, len: nat)
    requires CString(s)
    ensures len == |EscapeAll(s)|
    ensures !flag ==> EscapeAll(s) == s
  {
    hide Escape, EscapeAll;
    flag, len := false, 0;
    NothingToEscape();
    assert s[..0] == "";
    for i := 0 to |s|
      invariant !flag ==> EscapeAll(s[..i]) == s[..i]
    {
      flag := flag || s[i] < ' ' || s[i] == '\"' || s[i] == '\\';
      EscapeAllMore(s, i);
      EscapeLength(s[i]);
      assert s[..i + 1] == s[..i] + [s[i]];
    }
    assert s[..|s|] == s;
    if !flag {
      len := |s|;
    } else {
      for i := 0 to |s|
        invariant len == |EscapeAll(s[..i])|
      {
        len := len + 1;
        if s[i] in "\"\\\U{8}\U{C}\n\r\t" {
          len := len + 1;
        } else if s[i] < ' ' {
          len := len + 5;
        }
        EscapeAllMore(s, i);
        EscapeLength(s[i]);
      }
    }
  }

  lemma NothingToEscape()
    ensures EscapeAll("") == ""
  {
  }

  lemma EscapeLength(c: char)
    requires c != '\0'
    ensures |Escape(c)| == if c in "\"\\\U{8}\U{C}\n\r\t" then 2 else if c < ' ' then 6 else 1
    ensures !(c < ' ' || c == '\"' || c == '\\') ==> Escape(c) == [c]
  {
  }

  lemma EscapeAllMore(s: string, i: nat)
    requires i < |s|
    ensures EscapeAll(s[..i + 1]) == EscapeAll(s[..i]) + Escape(s[i])
  {
    assert s[..i + 1] == s[..i] + [s[i]];
    EscapeAllBoth(s[..i], [s[i]]);
  }

  lemma {:induction false} EscapeAllBoth(s: string, t: string)
    ensures EscapeAll(s + t) == EscapeAll(s) + EscapeAll(t)
  {
    hide Escape;
    if s == [] {
      assert s + t == t;
    } else {
      EscapeAllBoth(s[1..], t);
      assert (s + t)[1..] == s[1..] + t;
      assert EscapeAll(s + t) == Escape(s[0]) + (EscapeAll(s[1..]) + EscapeAll(t));
    }
  }

  /** The loop over a string with escapes; start is what was written before. */
  method WriteEscapes(a: array<char>, at: nat, s: string)
    requires at + |EscapeAll(s)| <= a.Length
    modifies a
    ensures Wrote(old(a[..]), a[..], at, EscapeAll(s))
  {
    hide Wrote, Escape;
    ghost var was := a[..];
    var ptr := at;
    assert EscapeAll(s[..0]) == "";
    WroteNothing(was, at);
    for i := 0 to |s|
      invariant ptr == at + |EscapeAll(s[..i])|
      invariant Wrote(was, a[..], at, EscapeAll(s[..i]))
    {
      EscapeAllMore(s, i);
      EscapeAllFits(s, i);
      ghost var s1 := a[..];
      Write(a, ptr, Escape(s[i]));
      ptr := ptr + |Escape(s[i])|;
      WroteMore(was, s1, a[..], at, EscapeAll(s[..i]), Escape(s[i]));
    }
    assert s[..|s|] == s;
  }

  lemma WroteNothing(a: seq<char>, at: nat)
    requires at <= |a|
    ensures Wrote(a, a, at, "")
  {
  }

  /** The string literal for s, and the terminator behind it. */
  method WriteQuoted(a: array<char>, at: nat, s: string, flag: bool)
    requires at + |EscapeAll(s)| + 3 <= a.Length && (!flag ==> EscapeAll(s) == s)
    modifies a
    ensures Wrote(old(a[..]), a[..], at, Quoted(s) + "\0")
  {
    hide Wrote, EscapeAll;
    ghost var was := a[..];
    Write(a, at, "\"");
    ghost var s0 := a[..];
    if !flag {
      Write(a, at + 1, s);
    } else {
      WriteEscapes(a, at + 1, s);
    }
    ghost var s1 := a[..];
    WroteMore(was, s0, s1, at, "\"", EscapeAll(s));
    Write(a, at + 1 + |EscapeAll(s)|, "\"\0");
    WroteMore(was, s1, a[..], at, "\"" + EscapeAll(s), "\"\0");
    assert "\"" + EscapeAll(s) + "\"\0" == Quoted(s) + "\0";
  }

  lemma EscapeAllFits(s: string, i: nat)
    requires i < |s|
    ensures |EscapeAll(s[..i + 1])| <= |EscapeAll(s)|
  {
    assert s == s[..i + 1] + s[i + 1..];
    EscapeAllBoth(s[..i + 1], s[i + 1..]);
  }

  lemma WroteMore(a: seq<char>, b: seq<char>, c: seq<char>, at: nat, s: string, t: string)
    requires Wrote(a, b, at, s) && Wrote(b, c, at + |s|, t)
    ensures Wrote(a, c, at, s + t)
  {
    assert c[..at] == c[..at + |s|][..at];
    assert b[..at] == b[..at + |s|][..at];
    assert c[at..at + |s|] == c[..at + |s|][at..] == b[..at + |s|][at..] == s;
    assert c[at..at + |s + t|] == c[at..at + |s|] + c[at + |s|..at + |s| + |t|];
  }

  // ---------------------------------------------------------------- the growing buffer

  class PrintBuffer {
    var buffer: array<char>
    var offset: nat

    /** The buffer begins with the text t. */
    ghost predicate Shows(t: string)
      reads this`buffer, buffer
    {
      |t| <= buffer.Length && buffer[..|t|] == t
    }

    /** The buffer holds the C string t. */
    ghost predicate Ends(t: string)
      reads this`buffer, buffer
    {
      Shows(t + "\0")
    }

    /** pow2gt: the least power of two not below x. */
    static function Pow2gt(x: nat): nat
      requires x > 0
    {
      SmearAll(x - 1) + 1
    }

    static lemma Pow2gtIsLeast(x: nat)
      requires 0 < x <= LIMIT
      ensures x <= Pow2gt(x) <= LIMIT
      ensures exists k: nat :: Pow2gt(x) == Pow2(k) && (x > 1 ==> Pow2gt(x) <= 2 * (x - 1))
    {
      hide SmearAll, Pow2;
      LimitIsPower();
      SmearAllFills(x - 1, 30);
      var k: nat :| k <= 30 && Filled(x - 1, k);
      Pow2Monotone(k, 30);
      assert Pow2gt(x) == Pow2(k);
    }

    static lemma LimitIsPower()
      ensures Pow2(30) == LIMIT
    {
      assert Pow2(10) == 0x400 && Pow2(20) == 0x10_0000;
    }

    constructor (size: nat)
      requires size > 0
      ensures buffer.Length == size && offset == 0 && fresh(buffer)
    {
      buffer := new char[size];
      offset := 0;
    }

    /** ensure: room for `needed` bytes at the offset; what was there stays. */
    method Ensure(needed: nat)
      requires 0 < offset + needed <= LIMIT && offset <= buffer.Length
      modifies this
      ensures offset == old(offset) && offset + needed <= buffer.Length
      ensures buffer == old(buffer) || fresh(buffer)
      ensures old(buffer.Length) <= buffer.Length && buffer[..old(buffer.Length)] == old(buffer[..])
    {
      if offset + needed > buffer.Length {
        Pow2gtIsLeast(offset + needed);
        var newsize := Pow2gt(offset + needed);
        var newbuffer := new char[newsize];
        forall i | 0 <= i < buffer.Length {
          newbuffer[i] := buffer[i];
        }
        buffer := newbuffer;
      }
    }

    /** p->buffer is the buffer it was, or a new one. */
    twostate predicate Grown()
      reads this`buffer
    {
      buffer == old(buffer) || fresh(buffer)
    }

    /** ensure, then a run of *ptr++ at the offset, which stays where it is. */
    method Emit(s: string, needed: nat, ghost t: string)
      requires offset == |t| && Shows(t) && |s| <= needed && 0 < |t| + needed <= LIMIT
      modifies this, buffer
      ensures offset == |t| && Shows(t + s) && Grown()
    {
      Ensure(needed);
      ghost var was := buffer[..];
      assert was[..|t|] == t;
      Write(buffer, offset, s);
      WroteText(was, buffer[..], t, s);
    }

    /** update: the offset moves to the terminator. */
    method Update(ghost t: string)
      requires Ends(t) && offset <= |t| && CString(t[offset..])
      modifies this`offset
      ensures offset == |t|
    {
      ghost var u := t + "\0";
      assert forall i | offset <= i < |t| :: t[i] == t[offset..][i - offset];
      var n := offset;
      while buffer[n] != '\0'
        invariant offset <= n <= |t|
        decreases |t| - n
      {
        assert buffer[n] == buffer[..|u|][n] == u[n];
        n := n + 1;
      }
      assert buffer[n] == buffer[..|u|][n] == u[n];
      offset := n;
    }

    /** print_string_ptr into the buffer. */
    method PrintString(s: string, ghost t: string)
      requires CString(s) && offset == |t| && Shows(t) && |t| + |EscapeAll(s)| + 3 <= LIMIT
      modifies this, buffer
      ensures offset == |t| && Ends(t + Quoted(s)) && Grown()
    {
      var flag, len := MeasureString(s);
      Ensure(len + 3);
      ghost var was := buffer[..];
      assert was[..|t|] == t;
      WriteQuoted(buffer, offset, s, flag);
      WroteText(was, buffer[..], t, Quoted(s) + "\0");
      assert t + (Quoted(s) + "\0") == t + Quoted(s) + "\0";
    }

    /** print_value with a printbuffer. */
    method PrintValue(j: Json, depth: nat, fmt: bool, ghost t: string)
      requires IntTree(j) && offset == |t| && Shows(t) && |t| + |Print(j, depth, fmt)| + 21 <= LIMIT
      modifies this, buffer
      ensures Ends(t + Print(j, depth, fmt)) && |t| <= offset <= |t| + |Print(j, depth, fmt)| && Grown()
      decreases j, 2
    {
      ghost var s := Print(j, depth, fmt);
      assert t + s + "\0" == t + (s + "\0");
      match j
      case Null => Emit("null\0", 5, t);
      case False => Emit("false\0", 6, t);
      case True => Emit("true\0", 5, t);
      case Number(n, _) =>
        DecimalShort(n);
        Emit(Decimal(n) + "\0", if n == 0 then 2 else 21, t);
      case Text(chars) => PrintString(chars, t);
      case Array(items) => PrintArray(items, depth, fmt, t);
      case Object(ms) => PrintObject(ms, depth, fmt, t);
    }

    /** print_value of a child, then update. */
    method PrintChild(j: Json, depth: nat, fmt: bool, ghost t: string)
      requires IntTree(j) && offset == |t| && Shows(t) && |t| + |Print(j, depth, fmt)| + 21 <= LIMIT
      modifies this, buffer
      ensures offset == |t + Print(j, depth, fmt)| && Shows(t + Print(j, depth, fmt)) && Grown()
      decreases j, 3
    {
      ghost var u := t + Print(j, depth, fmt);
      PrintValue(j, depth, fmt, t);
      PrintCString(j, depth, fmt);
      assert CString(u[offset..]) by {
        assert forall i | 0 <= i < |u[offset..]| :: u[offset..][i] == Print(j, depth, fmt)[i + offset - |t|];
      }
      Update(u);
      EndsShows(u);
    }

    lemma EndsShows(t: string)
      requires Ends(t)
      ensures Shows(t)
    {
      assert buffer[..|t|] == buffer[..|t + "\0"|][..|t|];
    }

    /** print_array with a printbuffer. */
    method PrintArray(items: seq<Json>, depth: nat, fmt: bool, ghost t: string)
      requires IntTree(Array(items)) && offset == |t| && Shows(t)
      requires |t| + |Print(Array(items), depth, fmt)| + 21 <= LIMIT
      modifies this, buffer
      ensures Ends(t + Print(Array(items), depth, fmt)) && |t| <= offset <= |t| + |Print(Array(items), depth, fmt)| && Grown()
      decreases items, 4
    {
      hide Shows, Print, PrintItems, IntTree;
      ghost var s := Print(Array(items), depth, fmt);
      assert t + s + "\0" == t + (s + "\0");
      ArrayText(items, depth, fmt);
      IntItems(items);
      if items == [] {
        assert "[]" + "\0" == "[]\0";
        Emit("[]\0", 3, t);
        return;
      }
      Emit("[", 1, t);
      offset := offset + 1;
      ghost var body := PrintItems(items, depth + 1, fmt);
      PrintElements(items, depth + 1, fmt, t + "[");
      Emit("]\0", 2, t + "[" + body);
      assert t + "[" + body + "]\0" == t + s + "\0";
    }

    /** The loop of print_array. */
    method PrintElements(items: seq<Json>, depth: nat, fmt: bool, ghost t: string)
      requires items != [] && forall i | 0 <= i < |items| :: IntTree(items[i])
      requires offset == |t| && Shows(t) && |t| + |PrintItems(items, depth, fmt)| + 21 <= LIMIT
      modifies this, buffer
      ensures offset == |t + PrintItems(items, depth, fmt)| && Shows(t + PrintItems(items, depth, fmt)) && Grown()
      decreases items, 3
    {
      hide Print, IntTree, PrintItems, Shows;
      ghost var whole, u := t + PrintItems(items, depth, fmt), t;
      assert items[0..] == items;
      for i := 0 to |items|
        invariant Grown() && offset == |u| && Shows(u)
        invariant u + ItemsFrom(items, i, depth, fmt) == whole
      {
        ghost var head, comma := Print(items[i], depth, fmt), if i + 1 < |items| then (if fmt then ", " else ",") else "";
        ItemsStep(items, i, depth, fmt);
        assert u + (head + (comma + ItemsFrom(items, i + 1, depth, fmt))) == u + head + comma + ItemsFrom(items, i + 1, depth, fmt);
        PrintChild(items[i], depth, fmt, u);
        if i + 1 < |items| {
          var len := if fmt then 2 else 1;
          EmitC(if fmt then ", " else ",", len + 1, u + head);
          offset := offset + len;
        } else {
          assert u + head + "" == u + head;
        }
        u := u + head + comma;
      }
      assert u + "" == u;
    }

    /** print_object with a printbuffer. */
    method PrintObject(ms: seq<Member>, depth: nat, fmt: bool, ghost t: string)
      requires IntTree(Object(ms)) && offset == |t| && Shows(t)
      requires |t| + |Print(Object(ms), depth, fmt)| + 21 <= LIMIT
      modifies this, buffer
      ensures Ends(t + Print(Object(ms), depth, fmt)) && |t| <= offset <= |t| + |Print(Object(ms), depth, fmt)| && Grown()
      decreases ms, 4
    {
      hide Shows, Print, PrintMembers, Tabs, CString, IntTree;
      ghost var s := Print(Object(ms), depth, fmt);
      assert t + s + "\0" == t + (s + "\0");
      TabsCString(depth - 1);
      TabsCString(depth);
      IntMembers(ms);
      var open, close := if fmt then "{\n" else "{", if fmt then Tabs(if ms == [] then depth - 1 else depth) else "";
      ObjectText(ms, depth, fmt, open, close);
      if ms == [] {
        assert t + (open + close + "}\0") == t + s + "\0" by {
          assert open + "" + close + "}" == s;
        }
        Emit(open + close + "}\0", if fmt then depth + 4 else 3, t);
        return;
      }
      ghost var body := PrintMembers(ms, depth + 1, fmt);
      EmitC(open, |open| + 1, t);
      offset := offset + |open|;
      PrintFields(ms, depth + 1, fmt, t + open);
      assert (t + open + body) + (close + "}\0") == t + s + "\0";
      Emit(close + "}\0", if fmt then depth + 2 else 2, t + open + body);
    }

    /** The loop of print_object. */
    method PrintFields(ms: seq<Member>, depth: nat, fmt: bool, ghost t: string)
      requires forall i | 0 <= i < |ms| :: CString(ms[i].name) && IntTree(ms[i].value)
      requires depth > 0 && offset == |t| && Shows(t) && |t| + |PrintMembers(ms, depth, fmt)| + 21 <= LIMIT
      modifies this, buffer
      ensures offset == |t + PrintMembers(ms, depth, fmt)| && Shows(t + PrintMembers(ms, depth, fmt)) && Grown()
      decreases ms, 3
    {
      hide Field, IntTree, PrintMembers, Shows, CString;
      ghost var whole, u := t + PrintMembers(ms, depth, fmt), t;
      assert ms[0..] == ms;
      for i := 0 to |ms|
        invariant Grown() && offset == |u| && Shows(u)
        invariant u + PrintMembers(ms[i..], depth, fmt) == whole
      {
        ghost var text := Field(ms[i], i + 1 == |ms|, depth, fmt);
        MembersStep(ms, i, depth, fmt);
        assert u + text + PrintMembers(ms[i + 1..], depth, fmt) == u + (text + PrintMembers(ms[i + 1..], depth, fmt));
        PrintField(ms[i], i + 1 == |ms|, depth, fmt, u);
        u := u + text;
      }
      NoMembers(depth, fmt);
      assert ms[|ms|..] == [] && u + "" == u;
    }

    /** One name and value. */
    method PrintField(m: Member, last: bool, depth: nat, fmt: bool, ghost t: string)
      requires CString(m.name) && IntTree(m.value)
      requires depth > 0 && offset == |t| && Shows(t) && |t| + |Field(m, last, depth, fmt)| + 21 <= LIMIT
      modifies this, buffer
      ensures offset == |t + Field(m, last, depth, fmt)| && Shows(t + Field(m, last, depth, fmt)) && Grown()
      decreases m, 3
    {
      hide Print, IntTree, Shows, Quoted, Tabs;
      var tabs, colon, sep := if fmt then Tabs(depth) else "", if fmt then ":\t" else ":", Separator(last, fmt);
      ghost var t1 := t + tabs;
      ghost var t2 := t1 + Quoted(m.name);
      ghost var t3 := t2 + colon;
      ghost var t4 := t3 + Print(m.value, depth, fmt);
      assert t4 + sep == t + Field(m, last, depth, fmt);
      if fmt {
        TabsCString(depth);
        EmitTabs(depth, t);
      } else {
        assert t1 == t;
      }
      PrintName(m.name, t1);
      Emit(colon, |colon|, t2);
      offset := offset + |colon|;
      PrintChild(m.value, depth, fmt, t3);
      EmitC(sep, |sep| + 1, t4);
      offset := offset + |sep|;
    }

    /** ensure(depth), the tabs, and the offset past them. */
    method EmitTabs(depth: nat, ghost t: string)
      requires offset == |t| && Shows(t) && 0 < depth && |t| + depth <= LIMIT
      modifies this, buffer
      ensures offset == |t + Tabs(depth)| && Shows(t + Tabs(depth)) && Grown()
    {
      TabsCString(depth);
      Emit(Tabs(depth), depth, t);
      offset := offset + depth;
    }

    /** print_string_ptr of a name, then update. */
    method PrintName(s: string, ghost t: string)
      requires CString(s) && offset == |t| && Shows(t) && |t| + |Quoted(s)| + 1 <= LIMIT
      modifies this, buffer
      ensures offset == |t + Quoted(s)| && Shows(t + Quoted(s)) && Grown()
    {
      hide Shows, EscapeAll;
      ghost var u := t + Quoted(s);
      PrintString(s, t);
      QuotedCString(s);
      assert u[offset..] == Quoted(s);
      Update(u);
      EndsShows(u);
    }

    /** Emit with a terminator behind the bytes written. */
    method EmitC(s: string, needed: nat, ghost t: string)
      requires offset == |t| && Shows(t) && |s| < needed && |t| + needed <= LIMIT
      modifies this, buffer
      ensures offset == |t| && Shows(t + s) && Ends(t + s) && Grown()
    {
      Emit(s + "\0", needed, t);
      assert t + (s + "\0") == t + s + "\0";
      EndsShows(t + s);
    }
  }

  /** The array holds the C string t. */
  ghost predicate Holds(a: array<char>, t: string)
    reads a
  {
    HoldsAt(a[..], 0, t)
  }

  /** cJSON_PrintBuffered. */
  method PrintBuffered(j: Json, prebuffer: nat, fmt: bool) returns (text: array<char>)
    requires IntTree(j) && 0 < prebuffer && |Print(j, 0, fmt)| + 21 <= LIMIT
    ensures Holds(text, Print(j, 0, fmt))
  {
    hide Print, IntTree;
    var p := new PrintBuffer(prebuffer);
    p.PrintValue(j, 0, fmt, "");
    text := p.buffer;
    assert "" + Print(j, 0, fmt) == Print(j, 0, fmt);
  }

  /** What print_array still has to print from entry i on. */
  function ItemsFrom(items: seq<Json>, i: nat, depth: nat, fmt: bool): string
    requires i <= |items|
  {
    if i < |items| then PrintItems(items[i..], depth, fmt) else ""
  }

  lemma ItemsStep(items: seq<Json>, i: nat, depth: nat, fmt: bool)
    requires i < |items|
    ensures ItemsFrom(items, i, depth, fmt)
         == Print(items[i], depth, fmt) + ((if i + 1 < |items| then (if fmt then ", " else ",") else "")
                                           + ItemsFrom(items, i + 1, depth, fmt))
  {
    assert items[i..][1..] == items[i + 1..];
  }

  lemma ArrayText(items: seq<Json>, depth: nat, fmt: bool)
    ensures Print(Array(items), depth, fmt) == if items == [] then "[]" else "[" + PrintItems(items, depth + 1, fmt) + "]"
  {
  }

  lemma IntItems(items: seq<Json>)
    requires IntTree(Array(items))
    ensures forall i | 0 <= i < |items| :: IntTree(items[i])
  {
  }

  lemma ObjectText(ms: seq<Member>, depth: nat, fmt: bool, open: string, close: string)
    requires open == (if fmt then "{\n" else "{") && close == if fmt then Tabs(if ms == [] then depth - 1 else depth) else ""
    ensures Print(Object(ms), depth, fmt) == open + (if ms == [] then "" else PrintMembers(ms, depth + 1, fmt)) + close + "}"
  {
    hide PrintMembers, Tabs;
    assert open == "{" + if fmt then "\n" else "";
    if ms == [] && fmt {
      assert "{" + ("\n" + close) + "}" == open + "" + close + "}";
    }
  }

  lemma IntMembers(ms: seq<Member>)
    requires IntTree(Object(ms))
    ensures forall i | 0 <= i < |ms| :: CString(ms[i].name) && IntTree(ms[i].value)
  {
    hide CString;
  }

  function Separator(last: bool, fmt: bool): string {
    (if last then "" else ",") + (if fmt then "\n" else "")
  }

  /** One name and value of a printed object, with what separates it from the next. */
  function Field(m: Member, last: bool, depth: nat, fmt: bool): string {
    (if fmt then Tabs(depth) else "") + Quoted(m.name) + (if fmt then ":\t" else ":")
    + Print(m.value, depth, fmt) + Separator(last, fmt)
  }

  lemma MembersStep(ms: seq<Member>, i: nat, depth: nat, fmt: bool)
    requires i < |ms|
    ensures PrintMembers(ms[i..], depth, fmt) == Field(ms[i], i + 1 == |ms|, depth, fmt) + PrintMembers(ms[i + 1..], depth, fmt)
  {
    hide Print, Quoted, Tabs;
    assert ms[i..][1..] == ms[i + 1..];
  }

  lemma NoMembers(depth: nat, fmt: bool)
    ensures PrintMembers([], depth, fmt) == ""
  {
  }
}
