/**
 The recursive-descent parser of cJSON.c as it walks a text with a pointer.  The pointer is an
 index; the index |t| is the terminator.  Every method finds what the parse functions of
 JsonText say about the text from the pointer on.
 */
module JsonParser {
  import opened JsonText

  /** What a parse function hands back: the value and the pointer behind it, or the global ep. */
  datatype Outcome<+T> = Found(value: T, at: nat) | Failed(ep: nat) | Overran

  /** The outcome on t is the parse result r. */
  predicate Means<T(==)>(t: string, o: Outcome<T>, r: Parse<T>) {
    match o
    case Found(v, at) => at <= |t| && r == Ok(v, t[at..])
    case Failed(ep) => ep <= |t| && r == Parse.Fail(t[ep..])
    case Overran => r == Parse.Overrun
  }

  function Prepend<T>(xs: seq<T>, r: Parse<seq<T>>): Parse<seq<T>> {
    if r.Ok? then Ok(xs + r.value, r.rest) else r
  }

  // ---------------------------------------------------------------- skip and parse_number

  method SkipAt(t: string, i: nat) returns (k: nat)
    requires i <= |t|
    ensures i <= k <= |t| && t[k..] == Skip(t[i..])
  {
    k := i;
    while k < |t| && t[k] <= ' '
      invariant i <= k <= |t| && Skip(t[k..]) == Skip(t[i..])
    {
      assert t[k..][1..] == t[k + 1..];
      k := k + 1;
    }
  }

  /** The digit loops of parse_number. */
  method DigitsAt(t: string, i: nat, start: nat) returns (n: nat, k: nat)
    requires i <= |t|
    ensures i <= k <= |t| && (n, t[k..]) == TakeDigits(t[i..], start)
  {
    n, k := start, i;
    while k < |t| && IsDigit(t[k])
      invariant i <= k <= |t| && TakeDigits(t[k..], n) == TakeDigits(t[i..], start)
    {
      assert t[k..][1..] == t[k + 1..];
      n := n * 10 + (t[k] as int - '0' as int);
      k := k + 1;
    }
  }

  /** parse_number. */
  method ParseNumberAt(t: string, i: nat) returns (j: Json, k: nat)
    requires i <= |t|
    ensures i <= k <= |t| && (j, t[k..]) == ParseNumber(t[i..])
  {
    hide TakeDigits, ParseFraction;
    var neg, n := false, 0;
    k := i;
    if k < |t| && t[k] == '-' {
      neg, k := true, k + 1;
    }
    assert t[k..] == if At(t[i..], '-') then t[i..][1..] else t[i..];
    ghost var t1 := t[k..];
    if k < |t| && t[k] == '0' {
      k := k + 1;
    }
    assert t[k..] == if At(t1, '0') then t1[1..] else t1;
    if k < |t| && '1' <= t[k] <= '9' {
      n, k := DigitsAt(t, k, 0);
    }
    j, k := ParseFractionAt(t, k, neg, n);
  }

  method ParseFractionAt(t: string, i: nat, neg: bool, start: nat) returns (j: Json, k: nat)
    requires i <= |t|
    ensures i <= k <= |t| && (j, t[k..]) == ParseFraction(neg, start, t[i..])
  {
    hide TakeDigits, ParseExponent;
    var n, scale := start, 0;
    k := i;
    if k + 1 < |t| && t[k] == '.' && IsDigit(t[k + 1]) {
      assert t[k + 1..] == t[k..][1..];
      n, k := DigitsAt(t, i + 1, n);
      scale := i + 1 - k;
    }
    var e: int;
    e, k := ParseExponentAt(t, k);
    j := Number(Signed(neg, n), scale + e);
  }

  method ParseExponentAt(t: string, i: nat) returns (e: int, k: nat)
    requires i <= |t|
    ensures i <= k <= |t| && (e, t[k..]) == ParseExponent(t[i..])
  {
    hide TakeDigits;
    k := i;
    if k == |t| || (t[k] != 'e' && t[k] != 'E') {
      return 0, k;
    }
    var neg := false;
    k := k + 1;
    assert t[k..] == t[i..][1..];
    if k < |t| && t[k] == '+' {
      k := k + 1;
      assert t[k..] == t[i..][2..];
    } else if k < |t| && t[k] == '-' {
      neg, k := true, k + 1;
      assert t[k..] == t[i..][2..];
    }
    var n: nat;
    n, k := DigitsAt(t, k, 0);
    e := Signed(neg, n);
  }

  // ---------------------------------------------------------------- parse_string

  /** The first loop of parse_string: how much to allocate. */
  method ScanAt(t: string, i: nat) returns (len: int)
    requires i <= |t|
    ensures len == ScanLength(t[i..])
  {
    len := 0;
    var ptr := i;
    while ptr < |t| && t[ptr] != '\"'
      invariant i <= ptr <= |t| && len >= 0
      invariant ScanLength(t[i..]) == if ScanLength(t[ptr..]) < 0 then -1 else len + ScanLength(t[ptr..])
    {
      assert t[ptr..][1..] == t[ptr + 1..];
      len := len + 1;
      if t[ptr] == '\\' {
        if ptr + 1 == |t| {
          return -1;
        }
        assert t[ptr..][2..] == t[ptr + 2..];
        ptr := ptr + 1;
      }
      ptr := ptr + 1;
    }
  }

  method ParseStringAt(t: string, i: nat) returns (o: Outcome<string>)
    requires i <= |t|
    ensures Means(t, o, ParseString(t[i..]))
  {
    hide ScanLength, ReadChars;
    if i == |t| || t[i] != '\"' {
      return Failed(i);
    }
    assert t[i..][1..] == t[i + 1..];
    var len := ScanAt(t, i + 1);
    if len < 0 {
      return Overran;
    }
    o := ReadAt(t, i + 1);
  }

  /** One round of the second loop of parse_string: the bytes it writes and how far the pointer moves. */
  method CharAt(t: string, ptr: nat) returns (over: bool, bytes: string, step: nat)
    requires ptr < |t| && t[ptr] != '\"'
    ensures over ==> ReadChars(t[ptr..]) == Parse.Overrun
    ensures !over ==> step > 0 && ptr + step <= |t| && ReadChars(t[ptr..]) == Put(bytes, ReadChars(t[ptr + step..]))
  {
    hide Unicode, Unescape;
    over, bytes, step := false, [t[ptr]], 1;
    if t[ptr] != '\\' {
      assert t[ptr..][1..] == t[ptr + 1..];
      return;
    }
    if ptr + 1 == |t| {
      return true, bytes, step;
    }
    assert t[ptr..][2..] == t[ptr + 2..];
    if t[ptr + 1] != 'u' {
      return false, [Unescape(t[ptr + 1])], 2;
    }
    var u := Unicode(t[ptr + 2..]);
    if |t| < ptr + 2 + u.1 {
      return true, bytes, step;
    }
    assert t[ptr..][2 + u.1..] == t[ptr + 2 + u.1..];
    return false, u.0, 2 + u.1;
  }

  /** The second loop of parse_string, and the step over the closing quote. */
  method ReadAt(t: string, i: nat) returns (o: Outcome<string>)
    requires i <= |t|
    ensures Means(t, o, ReadChars(t[i..]))
  {
    hide ReadChars;
    var ptr, out := i, "";
    PutNothing(ReadChars(t[i..]));
    while ptr < |t| && t[ptr] != '\"'
      invariant i <= ptr <= |t| && ReadChars(t[i..]) == Put(out, ReadChars(t[ptr..]))
    {
      var over, bytes, step := CharAt(t, ptr);
      if over {
        return Overran;
      }
      PutPut(out, bytes, ReadChars(t[ptr + step..]));
      out, ptr := out + bytes, ptr + step;
    }
    ReadStops(t, ptr, out);
    o := Found(out, if ptr < |t| then ptr + 1 else ptr);
  }

  lemma ReadStops(t: string, ptr: nat, out: string)
    requires ptr == |t| || (ptr < |t| && t[ptr] == '\"')
    ensures Put(out, ReadChars(t[ptr..])) == Ok(out, if ptr < |t| then t[ptr + 1..] else [])
  {
    assert out + "" == out;
    if ptr < |t| {
      assert t[ptr..][1..] == t[ptr + 1..];
    }
  }

  lemma PutNothing(r: Parse<string>)
    ensures Put("", r) == r
  {
    if r.Ok? {
      assert "" + r.value == r.value;
    }
  }

  lemma PutPut(a: string, b: string, r: Parse<string>)
    ensures Put(a, Put(b, r)) == Put(a + b, r)
  {
    if r.Ok? {
      assert a + (b + r.value) == a + b + r.value;
    }
  }

  // ---------------------------------------------------------------- parse_value, arrays, objects

  /** parse_value. */
  method ParseValueAt(t: string, i: nat) returns (o: Outcome<Json>)
    requires i <= |t|
    ensures Means(t, o, ParseValue(t[i..]))
    decreases |t| - i, 1
  {
    hide ParseString, ParseNumber, ParseItems, ParseMembers, Skip;
    ghost var u := t[i..];
    if i + 4 <= |t| && t[i..i + 4] == "null" {
      Literal(t, i, "null");
      return Found(Null, i + 4);
    }
    if i + 5 <= |t| && t[i..i + 5] == "false" {
      Literal(t, i, "false");
      return Found(False, i + 5);
    }
    if i + 4 <= |t| && t[i..i + 4] == "true" {
      Literal(t, i, "true");
      return Found(True, i + 4);
    }
    NoLiteral(t, i, "null");
    NoLiteral(t, i, "false");
    NoLiteral(t, i, "true");
    if i < |t| && t[i] == '\"' {
      var s := ParseStringAt(t, i);
      match s
      case Found(chars, at) => o := Found(Text(chars), at);
      case Failed(ep) => o := Failed(ep);
      case Overran => o := Overran;
    } else if i < |t| && (t[i] == '-' || IsDigit(t[i])) {
      var j, k := ParseNumberAt(t, i);
      o := Found(j, k);
    } else if i < |t| && t[i] == '[' {
      o := ParseArrayAt(t, i);
    } else if i < |t| && t[i] == '{' {
      o := ParseObjectAt(t, i);
    } else {
      o := Failed(i);
    }
  }

  lemma Literal(t: string, i: nat, w: string)
    requires i + |w| <= |t| && t[i..i + |w|] == w
    ensures w <= t[i..] && t[i..][|w|..] == t[i + |w|..]
  {
    assert t[i..][..|w|] == t[i..i + |w|];
  }

  lemma NoLiteral(t: string, i: nat, w: string)
    requires i <= |t| && !(i + |w| <= |t| && t[i..i + |w|] == w)
    ensures !(w <= t[i..])
  {
    if i + |w| <= |t| {
      assert t[i..][..|w|] == t[i..i + |w|];
    }
  }

  /** What parse_array still expects after a value. */
  function ItemsTail(u: string): Parse<seq<Json>> {
    if At(u, ',') then ParseItems(u[1..]) else if At(u, ']') then Ok([], u[1..]) else Fail(u)
  }

  lemma ItemsUnroll(u: string)
    requires ParseValue(Skip(u)).Ok?
    ensures ParseItems(u) == Prepend([ParseValue(Skip(u)).value], ItemsTail(Skip(ParseValue(Skip(u)).rest)))
  {
    hide ParseValue, Skip;
    var x := [ParseValue(Skip(u)).value];
    assert x + [] == x;
  }

  lemma ItemsFails(u: string)
    requires !ParseValue(Skip(u)).Ok?
    ensures ParseItems(u) == if ParseValue(Skip(u)).Fail? then Fail(ParseValue(Skip(u)).ep) else Overrun
  {
    hide ParseValue, Skip;
  }

  lemma Prepended<T>(xs: seq<T>, x: T, r: Parse<seq<T>>)
    ensures Prepend(xs, Prepend([x], r)) == Prepend(xs + [x], r)
  {
    if r.Ok? {
      assert xs + ([x] + r.value) == xs + [x] + r.value;
    }
  }

  /** parse_array on a text that has its bracket. */
  method ParseArrayAt(t: string, i: nat) returns (o: Outcome<Json>)
    requires i < |t| && t[i] == '['
    ensures Means(t, o, ParseValue(t[i..]))
    decreases |t| - i, 0
  {
    hide ParseValue, ParseItems, Skip;
    assert t[i..][1..] == t[i + 1..];
    ArrayValue(t[i..]);
    var k := SkipAt(t, i + 1);
    if k < |t| && t[k] == ']' {
      assert t[k..][1..] == t[k + 1..];
      return Found(Array([]), k + 1);
    }
    var items := ParseItemsAt(t, k);
    match items
    case Found(xs, at) => o := Found(Array(xs), at);
    case Failed(ep) => o := Failed(ep);
    case Overran => o := Overran;
  }

  lemma ArrayValue(u: string)
    requires At(u, '[')
    ensures ParseValue(u) ==
            var v := Skip(u[1..]);
            if At(v, ']') then Ok(Array([]), v[1..])
            else
              match ParseItems(v)
              case Ok(items, rest) => Ok(Array(items), rest)
              case Fail(ep) => Fail(ep)
              case Overrun => Overrun
  {
    hide ParseItems, Skip;
    assert "null"[0] == 'n' && "false"[0] == 'f' && "true"[0] == 't';
  }

  /** The loop of parse_array. */
  method ParseItemsAt(t: string, i: nat) returns (o: Outcome<seq<Json>>)
    requires i <= |t|
    ensures Means(t, o, ParseItems(t[i..]))
    decreases |t| - i, 2
  {
    hide ParseValue, ParseItems, Skip;
    var k := SkipAt(t, i);
    var v := ParseValueAt(t, k);
    if !v.Found? {
      ItemsFails(t[i..]);
      return if v.Failed? then Failed(v.ep) else Overran;
    }
    ItemsUnroll(t[i..]);
    var items := [v.value];
    k := SkipAt(t, v.at);
    while k < |t| && t[k] == ','
      invariant i < k <= |t| && ParseItems(t[i..]) == Prepend(items, ItemsTail(t[k..]))
    {
      assert t[k..][1..] == t[k + 1..];
      ghost var was, u := items, t[k + 1..];
      k := SkipAt(t, k + 1);
      v := ParseValueAt(t, k);
      if !v.Found? {
        ItemsFails(u);
        return if v.Failed? then Failed(v.ep) else Overran;
      }
      ItemsUnroll(u);
      items := items + [v.value];
      k := SkipAt(t, v.at);
      Prepended(was, v.value, ItemsTail(t[k..]));
    }
    if k < |t| && t[k] == ']' {
      assert t[k..][1..] == t[k + 1..] && items + [] == items;
      o := Found(items, k + 1);
    } else {
      o := Failed(k);
    }
  }

  /** What parse_object still expects after a member. */
  function MembersTail(u: string): Parse<seq<Member>> {
    if At(u, ',') then ParseMembers(u[1..]) else if At(u, '}') then Ok([], u[1..]) else Fail(u)
  }

  lemma MembersUnroll(u: string)
    requires ParseMember(u).Ok?
    ensures ParseMembers(u) == Prepend([ParseMember(u).value], MembersTail(Skip(ParseMember(u).rest)))
  {
    hide ParseMember, Skip;
    var x := [ParseMember(u).value];
    assert x + [] == x;
  }

  lemma MembersFails(u: string)
    requires !ParseMember(u).Ok?
    ensures ParseMembers(u) == if ParseMember(u).Fail? then Fail(ParseMember(u).ep) else Overrun
  {
    hide ParseMember, Skip;
  }

  /** parse_object on a text that has its brace. */
  method ParseObjectAt(t: string, i: nat) returns (o: Outcome<Json>)
    requires i < |t| && t[i] == '{'
    ensures Means(t, o, ParseValue(t[i..]))
    decreases |t| - i, 0
  {
    hide ParseValue, ParseMembers, Skip;
    assert t[i..][1..] == t[i + 1..];
    ObjectValue(t[i..]);
    var k := SkipAt(t, i + 1);
    if k < |t| && t[k] == '}' {
      assert t[k..][1..] == t[k + 1..];
      return Found(Object([]), k + 1);
    }
    var ms := ParseMembersAt(t, k);
    match ms
    case Found(xs, at) => o := Found(Object(xs), at);
    case Failed(ep) => o := Failed(ep);
    case Overran => o := Overran;
  }

  lemma ObjectValue(u: string)
    requires At(u, '{')
    ensures ParseValue(u) ==
            var v := Skip(u[1..]);
            if At(v, '}') then Ok(Object([]), v[1..])
            else
              match ParseMembers(v)
              case Ok(ms, rest) => Ok(Object(ms), rest)
              case Fail(ep) => Fail(ep)
              case Overrun => Overrun
  {
    hide ParseMembers, Skip;
    assert "null"[0] == 'n' && "false"[0] == 'f' && "true"[0] == 't';
  }

  /** The loop of parse_object. */
  method ParseMembersAt(t: string, i: nat) returns (o: Outcome<seq<Member>>)
    requires i <= |t|
    ensures Means(t, o, ParseMembers(t[i..]))
    decreases |t| - i, 3
  {
    hide ParseMember, ParseMembers, Skip;
    var m := ParseMemberAt(t, i);
    if !m.Found? {
      MembersFails(t[i..]);
      return if m.Failed? then Failed(m.ep) else Overran;
    }
    MembersUnroll(t[i..]);
    var ms := [m.value];
    var k := SkipAt(t, m.at);
    while k < |t| && t[k] == ','
      invariant i < k <= |t| && ParseMembers(t[i..]) == Prepend(ms, MembersTail(t[k..]))
    {
      assert t[k..][1..] == t[k + 1..];
      ghost var was, u := ms, t[k + 1..];
      m := ParseMemberAt(t, k + 1);
      if !m.Found? {
        MembersFails(u);
        return if m.Failed? then Failed(m.ep) else Overran;
      }
      MembersUnroll(u);
      ms := ms + [m.value];
      k := SkipAt(t, m.at);
      Prepended(was, m.value, MembersTail(t[k..]));
    }
    if k < |t| && t[k] == '}' {
      assert t[k..][1..] == t[k + 1..] && ms + [] == ms;
      o := Found(ms, k + 1);
    } else {
      o := Failed(k);
    }
  }

  /** A name, the colon and a value. */
  method ParseMemberAt(t: string, i: nat) returns (o: Outcome<Member>)
    requires i <= |t|
    ensures Means(t, o, ParseMember(t[i..]))
    decreases |t| - i, 2
  {
    hide ParseString, ParseValue, Skip;
    var k := SkipAt(t, i);
    var s := ParseStringAt(t, k);
    if !s.Found? {
      return if s.Failed? then Failed(s.ep) else Overran;
    }
    k := SkipAt(t, s.at);
    if k == |t| || t[k] != ':' {
      return Failed(k);
    }
    assert t[k..][1..] == t[k + 1..];
    k := SkipAt(t, k + 1);
    var v := ParseValueAt(t, k);
    if !v.Found? {
      return if v.Failed? then Failed(v.ep) else Overran;
    }
    o := Found(Member(s.value, v.value), v.at);
  }

  /** cJSON_ParseWithOpts. */
  method ParseWithOpts(t: string, whole: bool) returns (o: Outcome<Json>)
    ensures Means(t, o, ParseDocument(t, whole))
  {
    hide ParseValue, Skip;
    assert t[0..] == t;
    var k := SkipAt(t, 0);
    o := ParseValueAt(t, k);
    if o.Found? && whole {
      k := SkipAt(t, o.at);
      o := if k < |t| then Failed(k) else Found(o.value, k);
    }
  }
}
