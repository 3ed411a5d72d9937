/**
 The JSON printer and parser of drivers/cjson/cJSON.c on values.  A text is the bytes of a
 C string before its NUL; the parser's pointer is the rest of the text it still has to read,
 and the empty rest is the terminator.
 */
module JsonText {

  /** Mirrors struct cJSON; the children of an array or object are a sequence.  A number is
      mant * 10^exp, the exact value the parser computes from its decimal text. */
  datatype Json =
    | Null
    | False
    | True
    | Number(mant: int, exp: int)
    | Text(chars: string)
    | Array(items: seq<Json>)
    | Object(members: seq<Member>)

  datatype Member = Member(name: string, value: Json)

  // ---------------------------------------------------------------- printing

  const HEX := "0123456789abcdef"

  /** One byte inside a printed string literal. */
  function Escape(c: char): string {
    if c == '\"' || c == '\\' then ['\\', c]
    else if c == '\U{8}' then "\\b"
    else if c == '\U{C}' then "\\f"
    else if c == '\n' then "\\n"
    else if c == '\r' then "\\r"
    else if c == '\t' then "\\t"
    else if c < ' ' then "\\u00" + [HEX[c as int / 16], HEX[c as int % 16]]
    else [c]
  }

  function EscapeAll(s: string): string {
    if s == [] then [] else Escape(s[0]) + EscapeAll(s[1..])
  }

  function Quoted(s: string): string {
    "\"" + EscapeAll(s) + "\""
  }

  function Digits(n: nat): string {
    if n < 10 then [HEX[n]] else Digits(n / 10) + [HEX[n % 10]]
  }

  /** "%d". */
  function Decimal(n: int): string {
    if n < 0 then "-" + Digits(-n) else Digits(n)
  }

  function Tabs(n: int): string {
    if n <= 0 then [] else "\t" + Tabs(n - 1)
  }

  /** print_value at a depth; fmt asks for whitespace.  Numbers print as "%d" here: see IntTree. */
  function Print(j: Json, depth: nat, fmt: bool): string {
    match j
    case Null => "null"
    case False => "false"
    case True => "true"
    case Number(mant, _) => Decimal(mant)
    case Text(s) => Quoted(s)
    case Array(items) => if items == [] then "[]" else "[" + PrintItems(items, depth + 1, fmt) + "]"
    case Object(ms) =>
      if ms == [] then "{" + (if fmt then "\n" + Tabs(depth - 1) else "") + "}"
      else "{" + (if fmt then "\n" else "") + PrintMembers(ms, depth + 1, fmt) + (if fmt then Tabs(depth) else "") + "}"
  }

  function PrintItems(items: seq<Json>, depth: nat, fmt: bool): string
    requires items != []
  {
    Print(items[0], depth, fmt)
    + if |items| == 1 then "" else (if fmt then ", " else ",") + PrintItems(items[1..], depth, fmt)
  }

  function PrintMembers(ms: seq<Member>, depth: nat, fmt: bool): string {
    if ms == [] then []
    else
      (if fmt then Tabs(depth) else "") + Quoted(ms[0].name) + (if fmt then ":\t" else ":")
      + Print(ms[0].value, depth, fmt)
      + (if |ms| == 1 then "" else ",") + (if fmt then "\n" else "")
      + PrintMembers(ms[1..], depth, fmt)
  }

  /** Trees whose numbers are 32-bit integers and whose strings are C strings. */
  predicate IntTree(j: Json) {
    match j
    case Number(mant, exp) => exp == 0 && -0x8000_0000 <= mant < 0x8000_0000
    case Text(s) => CString(s)
    case Array(items) => forall i | 0 <= i < |items| :: IntTree(items[i])
    case Object(ms) => forall i | 0 <= i < |ms| :: CString(ms[i].name) && IntTree(ms[i].value)
    case _ => true
  }

  predicate CString(s: string) {
    forall i | 0 <= i < |s| :: s[i] != '\0'
  }

  /** Memory holds t and a terminator behind it from index i on. */
  ghost predicate HoldsAt(a: seq<char>, i: nat, t: string) {
    i + |t| < |a| && a[i..i + |t|] == t && a[i + |t|] == '\0'
  }

  lemma HoldsAtStart(a: seq<char>, t: string)
    ensures HoldsAt(a, 0, t) <==> |t| < |a| && a[..|t| + 1] == t + "\0"
  {
    if |t| < |a| {
      assert a[..|t| + 1] == a[0..|t|] + [a[|t|]];
    }
  }

  lemma Regroup(a: string, b: string, c: string)
    ensures a + b + c == a + (b + c)
  {
  }

  // ---------------------------------------------------------------- parsing

  /** A parse result: the value and the rest of the text, the rest at which parsing failed (ep),
      or Overrun when the code would read past the terminator. */
  datatype Parse<+T> = Ok(value: T, rest: string) | Fail(ep: string) | Overrun

  /** Text starts with c. */
  predicate At(t: string, c: char) {
    t != [] && t[0] == c
  }

  predicate IsDigit(c: char) {
    '0' <= c <= '9'
  }

  function Skip(t: string): (r: string)
    ensures |r| <= |t|
  {
    if t != [] && t[0] <= ' ' then Skip(t[1..]) else t
  }

  /** Reads digits onto n: n*10 + digit for each. */
  function TakeDigits(t: string, n: nat): (r: (nat, string))
    ensures |r.1| <= |t|
  {
    if t != [] && IsDigit(t[0]) then TakeDigits(t[1..], n * 10 + (t[0] as int - '0' as int)) else (n, t)
  }

  function Signed(neg: bool, n: int): int {
    if neg then -n else n
  }

  /** parse_number on a text that starts with '-' or a digit. */
  function ParseNumber(t: string): (Json, string) {
    var neg := At(t, '-');
    var t1 := if neg then t[1..] else t;
    var t2 := if At(t1, '0') then t1[1..] else t1;
    var (n, t3) := if t2 != [] && '1' <= t2[0] <= '9' then TakeDigits(t2, 0) else (0, t2);
    ParseFraction(neg, n, t3)
  }

  /** The rest of parse_number behind the digits n. */
  function ParseFraction(neg: bool, n: nat, t: string): (r: (Json, string))
    ensures |r.1| <= |t|
  {
    var point := |t| > 1 && t[0] == '.' && IsDigit(t[1]);
    var (m, t') := if point then TakeDigits(t[1..], n) else (n, t);
    var scale := if point then |t'| - (|t| - 1) else 0;
    var (e, rest) := ParseExponent(t');
    (Number(Signed(neg, m), scale + e), rest)
  }

  function ParseExponent(t: string): (r: (int, string))
    ensures |r.1| <= |t|
  {
    if At(t, 'e') || At(t, 'E') then
      var neg := !At(t[1..], '+') && At(t[1..], '-');
      var t1 := if At(t[1..], '+') || At(t[1..], '-') then t[2..] else t[1..];
      var (n, t2) := TakeDigits(t1, 0);
      (Signed(neg, n), t2)
    else (0, t)
  }

  function HexDigit(c: char): int {
    if '0' <= c <= '9' then c as int - '0' as int
    else if 'A' <= c <= 'F' then 10 + c as int - 'A' as int
    else if 'a' <= c <= 'f' then 10 + c as int - 'a' as int
    else -1
  }

  /** parse_hex4: 0 when one of the four is not a hexadecimal digit. */
  function Hex4(t: string): (r: nat)
    ensures r < 0x1_0000 && (r > 0 ==> |t| >= 4)
  {
    if |t| >= 4 && HexDigit(t[0]) >= 0 && HexDigit(t[1]) >= 0 && HexDigit(t[2]) >= 0 && HexDigit(t[3]) >= 0 then
      0x1000 * HexDigit(t[0]) + 0x100 * HexDigit(t[1]) + 0x10 * HexDigit(t[2]) + HexDigit(t[3])
    else 0
  }

  /** The UTF-8 bytes of a code point. */
  function Utf8(uc: nat): string
    requires uc < 0x20_0000
  {
    if uc < 0x80 then [uc as char]
    else if uc < 0x800 then [(0xC0 + uc / 64) as char, (0x80 + uc % 64) as char]
    else if uc < 0x1_0000 then [(0xE0 + uc / 4096) as char, (0x80 + uc / 64 % 64) as char, (0x80 + uc % 64) as char]
    else [(0xF0 + uc / 262144) as char, (0x80 + uc / 4096 % 64) as char, (0x80 + uc / 64 % 64) as char, (0x80 + uc % 64) as char]
  }

  /** What \u stands for, and how many bytes after the 'u' it takes; t follows the 'u'. */
  function Unicode(t: string): (r: (string, nat)) {
    var uc := Hex4(t);
    if uc == 0 || 0xDC00 <= uc <= 0xDFFF then ([], 4)
    else if 0xD800 <= uc <= 0xDBFF then
      if !(|t| > 5 && t[4] == '\\' && t[5] == 'u') then ([], 4)
      else
        var uc2 := Hex4(t[6..]);
        if uc2 < 0xDC00 || uc2 > 0xDFFF then ([], 10)
        else (Utf8(0x1_0000 + uc % 0x400 * 0x400 + uc2 % 0x400), 10)
    else (Utf8(uc), 4)
  }

  /** The byte an escape other than \u stands for. */
  function Unescape(c: char): char {
    match c
    case 'b' => '\U{8}'
    case 'f' => '\U{C}'
    case 'n' => '\n'
    case 'r' => '\r'
    case 't' => '\t'
    case _ => c
  }

  /** The second loop of parse_string: reads bytes up to the closing quote or the terminator. */
  function ReadChars(t: string): (r: Parse<string>)
    ensures r.Ok? ==> |r.rest| <= |t|
    decreases |t|
  {
    if t == [] then Ok([], [])
    else if t[0] == '\"' then Ok([], t[1..])
    else if t[0] != '\\' then Put([t[0]], ReadChars(t[1..]))
    else if |t| == 1 then Overrun
    else if t[1] == 'u' then
      var (bytes, n) := Unicode(t[2..]);
      if |t| < 2 + n then Overrun else Put(bytes, ReadChars(t[2 + n..]))
    else Put([Unescape(t[1])], ReadChars(t[2..]))
  }

  function Put(s: string, r: Parse<string>): (r': Parse<string>)
    ensures r'.Ok? <==> r.Ok?
    ensures r.Ok? ==> r'.rest == r.rest && r'.value == s + r.value
  {
    if r.Ok? then Ok(s + r.value, r.rest) else r
  }

  /** The first loop of parse_string: the bytes to allocate before the terminator, or -1 when the
      loop runs past the terminator of the text. */
  function ScanLength(t: string): (n: int)
    ensures n >= -1
    decreases |t|
  {
    if t == [] || t[0] == '\"' then 0
    else if t[0] != '\\' then (var n := ScanLength(t[1..]); if n < 0 then n else n + 1)
    else if |t| == 1 then -1
    else (var n := ScanLength(t[2..]); if n < 0 then n else n + 1)
  }

  function ParseString(t: string): (r: Parse<string>)
    ensures r.Ok? ==> |r.rest| < |t|
  {
    if !At(t, '\"') then Fail(t)
    else if ScanLength(t[1..]) < 0 then Overrun
    else ReadChars(t[1..])
  }

  function ParseValue(t: string): (r: Parse<Json>)
    ensures r.Ok? ==> |r.rest| < |t|
    decreases |t|, 1
  {
    if "null" <= t then Ok(Null, t[4..])
    else if "false" <= t then Ok(False, t[5..])
    else if "true" <= t then Ok(True, t[4..])
    else if At(t, '\"') then
      match ParseString(t)
      case Ok(s, rest) => Ok(Text(s), rest)
      case Fail(ep) => Fail(ep)
      case Overrun => Overrun
    else if t != [] && (t[0] == '-' || IsDigit(t[0])) then
      NumberShrinks(t);
      var (j, rest) := ParseNumber(t);
      Ok(j, rest)
    else if At(t, '[') then
      var u := Skip(t[1..]);
      if At(u, ']') then Ok(Array([]), u[1..])
      else
        match ParseItems(u)
        case Ok(items, rest) => Ok(Array(items), rest)
        case Fail(ep) => Fail(ep)
        case Overrun => Overrun
    else if At(t, '{') then
      var u := Skip(t[1..]);
      if At(u, '}') then Ok(Object([]), u[1..])
      else
        match ParseMembers(u)
        case Ok(ms, rest) => Ok(Object(ms), rest)
        case Fail(ep) => Fail(ep)
        case Overrun => Overrun
    else Fail(t)
  }

  /** The elements of an array up to its bracket. */
  function ParseItems(t: string): (r: Parse<seq<Json>>)
    ensures r.Ok? ==> |r.rest| < |t|
    decreases |t|, 2
  {
    match ParseValue(Skip(t))
    case Fail(ep) => Fail(ep)
    case Overrun => Overrun
    case Ok(j, rest) =>
      var u := Skip(rest);
      if At(u, ',') then
        match ParseItems(u[1..])
        case Ok(items, rest') => Ok([j] + items, rest')
        case Fail(ep) => Fail(ep)
        case Overrun => Overrun
      else if At(u, ']') then Ok([j], u[1..])
      else Fail(u)
  }

  /** One name, colon and value of an object. */
  function ParseMember(t: string): (r: Parse<Member>)
    ensures r.Ok? ==> |r.rest| < |t|
    decreases |t|, 2
  {
    match ParseString(Skip(t))
    case Fail(ep) => Fail(ep)
    case Overrun => Overrun
    case Ok(name, rest) =>
      var u := Skip(rest);
      if !At(u, ':') then Fail(u)
      else
        match ParseValue(Skip(u[1..]))
        case Fail(ep) => Fail(ep)
        case Overrun => Overrun
        case Ok(j, rest') => Ok(Member(name, j), rest')
  }

  /** The members of an object up to its brace. */
  function ParseMembers(t: string): (r: Parse<seq<Member>>)
    ensures r.Ok? ==> |r.rest| < |t|
    decreases |t|, 3
  {
    match ParseMember(t)
    case Fail(ep) => Fail(ep)
    case Overrun => Overrun
    case Ok(m, rest) =>
      var u := Skip(rest);
      if At(u, ',') then
        match ParseMembers(u[1..])
        case Ok(ms, rest') => Ok([m] + ms, rest')
        case Fail(ep) => Fail(ep)
        case Overrun => Overrun
      else if At(u, '}') then Ok([m], u[1..])
      else Fail(u)
  }

  /** cJSON_ParseWithOpts. */
  function ParseDocument(t: string, whole: bool): Parse<Json> {
    match ParseValue(Skip(t))
    case Fail(ep) => Fail(ep)
    case Overrun => Overrun
    case Ok(j, rest) =>
      if whole && Skip(rest) != [] then Fail(Skip(rest))
      else Ok(j, if whole then Skip(rest) else rest)
  }

  /** A number consumes at least its sign or first digit. */
  lemma NumberShrinks(t: string)
    requires t != [] && (t[0] == '-' || IsDigit(t[0]))
    ensures |ParseNumber(t).1| < |t|
  {
    hide TakeDigits, ParseFraction;
    var t1 := if At(t, '-') then t[1..] else t;
    var t2 := if At(t1, '0') then t1[1..] else t1;
    if t2 != [] && '1' <= t2[0] <= '9' {
      DigitTaken(t2);
    }
  }

  lemma DigitTaken(t: string)
    requires t != [] && IsDigit(t[0])
    ensures |TakeDigits(t, 0).1| < |t|
  {
  }
}
