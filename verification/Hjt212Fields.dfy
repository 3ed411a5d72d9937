/**
 The fields of an HJ/T 212 message in sdccp/hjt212.c: Hjt212Encode writes them into a frame, and
 __HJT212_ParsePack finds them again with strstr and sscanf.  Strings are C strings.
 */
module Hjt212Fields {
  import opened Common
  import opened Hjt212

  const QN_LEN: nat := 20
  const ST_LEN: nat := 5
  const CN_LEN: nat := 7
  const PW_LEN: nat := 9
  const MN_LEN: nat := 27
  const FLAG_LEN: nat := 8
  const CP_LEN: nat := 1024

  /** The arguments of Hjt212Encode; None is a null pointer. */
  datatype Fields = Fields(qn: Option<string>, st: Option<string>, cn: Option<string>, pw: Option<string>,
                           mn: Option<string>, flag: Option<string>, cp: Option<string>)

  /** The fields of HJT212_Data_t that the parser fills; a field not found stays empty. */
  datatype Data = Data(qn: string, st: string, cn: string, pw: string, mn: string, flag: string, cp: string)

  // ---------------------------------------------------------------- encoding

  function Take(s: string, n: nat): (r: string)
    ensures |r| <= n && r <= s
  {
    if |s| <= n then s else s[..n]
  }

  /** A tag, a value and a semicolon. */
  datatype Part = Part(tag: string, value: Option<string>)

  function PartText(p: Part): string {
    if p.value.None? then "" else p.tag + p.value.value + ";"
  }

  function Cut(v: Option<string>, n: nat): Option<string> {
    if v.None? then None else Some(Take(v.value, n))
  }

  /** Flag[0]. */
  function First(v: Option<string>): Option<string> {
    if v.None? then None else if v.value == "" then Some("\0") else Some(v.value[..1])
  }

  function Parts(f: Fields): seq<Part> {
    [Part("QN=", Cut(f.qn, QN_LEN)), Part("ST=", Cut(f.st, ST_LEN)), Part("CN=", Cut(f.cn, CN_LEN)),
     Part("PW=", Cut(f.pw, PW_LEN)), Part("MN=", Cut(f.mn, MN_LEN)), Part("Flag=", First(f.flag))]
  }

  function Text(ps: seq<Part>): string {
    if ps == [] then "" else PartText(ps[0]) + Text(ps[1..])
  }

  function CpText(cp: Option<string>): string {
    if cp.None? then "" else "CP=&&" + cp.value + "&&"
  }

  function Payload(f: Fields): string {
    Text(Parts(f)) + CpText(f.cp)
  }

  /** The layout of a payload with all its fields, none longer than its place. */
  lemma PayloadLayout(qn: string, st: string, cn: string, pw: string, mn: string, flag: char, cp: string)
    requires |qn| <= 20 && |st| <= 5 && |cn| <= 7 && |pw| <= 9 && |mn| <= 27
    ensures Payload(Fields(Some(qn), Some(st), Some(cn), Some(pw), Some(mn), Some([flag]), Some(cp)))
            == ("QN=" + qn + ";") + ("ST=" + st + ";") + ("CN=" + cn + ";") + ("PW=" + pw + ";") + ("MN=" + mn + ";")
               + ("Flag=" + [flag] + ";") + ("CP=&&" + cp + "&&")
  {
    var f := Fields(Some(qn), Some(st), Some(cn), Some(pw), Some(mn), Some([flag]), Some(cp));
    hide Text;
    SixParts(Parts(f));
  }

  lemma SixParts(ps: seq<Part>)
    requires |ps| == 6
    ensures Text(ps) == PartText(ps[0]) + PartText(ps[1]) + PartText(ps[2]) + PartText(ps[3]) + PartText(ps[4]) + PartText(ps[5])
  {
    hide PartText;
    assert ps[5..][1..] == [] && ps[4..][1..] == ps[5..] && ps[3..][1..] == ps[4..] && ps[2..][1..] == ps[3..] && ps[1..][1..] == ps[2..];
    assert Text(ps[5..]) == PartText(ps[5]);
    assert Text(ps[4..]) == PartText(ps[4]) + PartText(ps[5]);
    assert Text(ps[3..]) == PartText(ps[3]) + (PartText(ps[4]) + PartText(ps[5]));
    assert Text(ps[2..]) == PartText(ps[2]) + (PartText(ps[3]) + (PartText(ps[4]) + PartText(ps[5])));
    assert Text(ps[1..]) == PartText(ps[1]) + (PartText(ps[2]) + (PartText(ps[3]) + (PartText(ps[4]) + PartText(ps[5]))));
  }

  // ---------------------------------------------------------------- parsing

  /** strstr: where tag first occurs. */
  function Find(t: string, tag: string): (i: Option<nat>)
    ensures i.Some? ==> i.value + |tag| <= |t|
  {
    if tag <= t then Some(0)
    else if t == "" then None
    else
      match Find(t[1..], tag)
      case None => None
      case Some(i) => Some(i + 1)
  }

  /** sscanf "%<width>[^c]". */
  function Scan(t: string, c: char, width: nat): (r: string)
    ensures r <= t
  {
    if width == 0 || t == "" || t[0] == c then "" else [t[0]] + Scan(t[1..], c, width - 1)
  }

  /** What the parser stores for a tag. */
  function Field(t: string, tag: string, width: nat): string {
    match Find(t, tag)
    case None => ""
    case Some(i) => Scan(t[i + |tag|..], ';', width)
  }

  /** The CP field: skipped only if exactly thirteen characters are left, as the comparison is unsigned. */
  function CpField(t: string): string {
    match Find(t, "CP=&&")
    case None => ""
    case Some(i) => CpFrom(t[i..])
  }

  function CpFrom(t: string): string
    requires |t| >= 5
  {
    if |t| == 13 then "" else Scan(t[5..], '&', CP_LEN)
  }

  /** __HJT212_ParsePack up to the password check. */
  function ParsePack(t: string): Data {
    Data(Field(t, "QN=", QN_LEN), Field(t, "ST=", ST_LEN), Field(t, "CN=", CN_LEN), Field(t, "PW=", PW_LEN),
         Field(t, "MN=", MN_LEN), Field(t, "Flag=", FLAG_LEN), CpField(t))
  }

  // ---------------------------------------------------------------- a tag is found only in its own part

  /** A value that the encoding keeps apart: a C string without '=' and ';'. */
  predicate Plain(v: Option<string>) {
    v.Some? ==> forall i | 0 <= i < |v.value| :: v.value[i] != ';' && v.value[i] != '=' && v.value[i] != '\0'
  }

  /** The tag t cannot occur where the tag u is followed by a plain value and a semicolon: their
      only '=' signs would have to coincide. */
  ghost predicate Apart(t: string, u: string) {
    exists e :: EqualsAt(t, e) && EqualsAt(u, |u| - 1) && (e < |u| ==> u[|u| - 1 - e..] != t[..e + 1])
  }

  /** e is the first '=' of t, and t has no semicolon. */
  predicate EqualsAt(t: string, e: int) {
    0 <= e < |t| && t[e] == '=' && (forall i | 0 <= i < e :: t[i] != '=') && (forall i | 0 <= i < |t| :: t[i] != ';')
  }

  lemma Misses(t: string, p: Part, rest: string, i: nat)
    requires Apart(t, p.tag) && Plain(p.value) && i < |PartText(p)|
    ensures !(t <= (PartText(p) + rest)[i..])
  {
    hide PartText, Plain;
    var e :| EqualsAt(t, e) && EqualsAt(p.tag, |p.tag| - 1) && (e < |p.tag| ==> p.tag[|p.tag| - 1 - e..] != t[..e + 1]);
    MissesAt(t, p, rest, i, e);
  }

  lemma MissesAt(t: string, p: Part, rest: string, i: nat, e: int)
    requires EqualsAt(t, e) && EqualsAt(p.tag, |p.tag| - 1) && (e < |p.tag| ==> p.tag[|p.tag| - 1 - e..] != t[..e + 1])
    requires Plain(p.value) && i < |PartText(p)|
    ensures !(t <= (PartText(p) + rest)[i..])
  {
    hide Plain;
    var s, u := PartText(p), p.tag;
    var w := (s + rest)[i..];
    PartShape(p);
    if |t| <= |w| {
      if i + e >= |s| {
        assert w[|s| - 1 - i] == s[|s| - 1];
        SemicolonBlocks(t, w, |s| - 1 - i);
      } else if i + e == |u| - 1 {
        assert w[..e + 1] == s[..|u|][i..];
        TagBlocks(t, w, e);
      } else {
        OnlyEquals(p, i + e);
        assert w[e] == s[i + e];
      }
    }
  }

  lemma PartShape(p: Part)
    requires PartText(p) != []
    ensures p.value.Some? && |p.tag| < |PartText(p)| && PartText(p)[..|p.tag|] == p.tag
    ensures PartText(p)[|PartText(p)| - 1] == ';'
  {
  }

  lemma TagBlocks(t: string, w: string, e: nat)
    requires e < |t| <= |w| && w[..e + 1] != t[..e + 1]
    ensures !(t <= w)
  {
    assert w[..e + 1] == w[..|t|][..e + 1];
  }

  lemma SemicolonBlocks(t: string, w: string, k: nat)
    requires k < |t| <= |w| && t[k] != ';' && w[k] == ';'
    ensures !(t <= w)
  {
    assert w[..|t|][k] != t[k];
  }

  lemma OnlyEquals(p: Part, j: nat)
    requires p.value.Some? && Plain(p.value) && EqualsAt(p.tag, |p.tag| - 1) && j < |PartText(p)| && j != |p.tag| - 1
    ensures PartText(p)[j] != '='
  {
    var s, u, v := PartText(p), p.tag, p.value.value;
    if j >= |u| && j < |s| - 1 {
      assert s[j] == v[j - |u|];
    }
  }

  lemma {:induction false} FindSkips(s: string, rest: string, t: string)
    requires forall i | 0 <= i < |s| :: !(t <= (s + rest)[i..])
    ensures Find(s + rest, t) == match Find(rest, t) case None => None case Some(i) => Some(i + |s|)
  {
    if s == "" {
      assert s + rest == rest;
    } else {
      assert (s + rest)[0..] == s + rest && (s + rest)[1..] == s[1..] + rest;
      forall i | 0 <= i < |s[1..]|
        ensures !(t <= (s[1..] + rest)[i..])
      {
        assert (s[1..] + rest)[i..] == (s + rest)[i + 1..];
      }
      FindSkips(s[1..], rest, t);
    }
  }

  /** Searching behind a part that is not the tag's own gives the same as searching from it. */
  lemma FindBehind(t: string, p: Part, rest: string)
    requires Apart(t, p.tag) && Plain(p.value)
    ensures Find(PartText(p) + rest, t) == match Find(rest, t) case None => None case Some(i) => Some(i + |PartText(p)|)
  {
    hide Apart, PartText;
    forall i | 0 <= i < |PartText(p)|
      ensures !(t <= (PartText(p) + rest)[i..])
    {
      Misses(t, p, rest, i);
    }
    FindSkips(PartText(p), rest, t);
  }

  lemma FieldBehind(t: string, p: Part, rest: string, width: nat)
    requires Apart(t, p.tag) && Plain(p.value)
    ensures Field(PartText(p) + rest, t, width) == Field(rest, t, width)
  {
    hide Apart, PartText, Plain, Scan, Find;
    FindBehind(t, p, rest);
    match Find(rest, t)
    case None =>
    case Some(i) =>
      assert (PartText(p) + rest)[i + |PartText(p)| + |t|..] == rest[i + |t|..];
  }

  lemma {:induction false} ScanReads(v: string, c: char, rest: string, width: nat)
    requires forall i | 0 <= i < |v| :: v[i] != c
    ensures Scan(v + [c] + rest, c, width) == Take(v, width)
  {
    if v != "" && width > 0 {
      assert (v + [c] + rest)[1..] == v[1..] + [c] + rest;
      ScanReads(v[1..], c, rest, width - 1);
    }
  }

  lemma FieldHit(p: Part, rest: string, width: nat)
    requires p.value.Some? && Plain(p.value) && |p.value.value| <= width
    ensures Field(PartText(p) + rest, p.tag, width) == p.value.value
  {
    var t := PartText(p) + rest;
    assert p.tag <= t;
    assert Find(t, p.tag) == Some(0);
    assert t[|p.tag|..] == p.value.value + [';'] + rest;
    ScanReads(p.value.value, ';', rest, width);
  }

  // ---------------------------------------------------------------- all parts

  /** What the encoder wrote for a tag, or None. */
  function Given(ps: seq<Part>, t: string): Option<string> {
    if ps == [] then None
    else if ps[0].tag == t && ps[0].value.Some? then ps[0].value
    else Given(ps[1..], t)
  }

  ghost predicate Readable(ps: seq<Part>, t: string) {
    forall p <- ps :: Plain(p.value) && (p.tag == t || Apart(t, p.tag))
  }

  /** Every given field is found as it was written; one not given, only behind all the parts. */
  lemma {:induction false} FieldOf(ps: seq<Part>, t: string, rest: string, width: nat)
    requires Readable(ps, t) && (Given(ps, t).Some? ==> |Given(ps, t).value| <= width)
    ensures Field(Text(ps) + rest, t, width) == match Given(ps, t) case Some(v) => v case None => Field(rest, t, width)
  {
    hide Apart, Plain, Field, PartText;
    if ps == [] {
      assert Text(ps) + rest == rest;
    } else {
      var p := ps[0];
      assert p in ps;
      assert Text(ps) + rest == PartText(p) + (Text(ps[1..]) + rest);
      if p.tag == t && p.value.Some? {
        FieldHit(p, Text(ps[1..]) + rest, width);
      } else {
        ReadableRest(ps, t);
        FieldOf(ps[1..], t, rest, width);
        if p.value.None? {
          AbsentText(p);
          assert PartText(p) + (Text(ps[1..]) + rest) == Text(ps[1..]) + rest;
        } else {
          FieldBehind(t, p, Text(ps[1..]) + rest, width);
        }
      }
    }
  }

  lemma AbsentText(p: Part)
    requires p.value.None?
    ensures PartText(p) == ""
  {
  }

  lemma ReadableRest(ps: seq<Part>, t: string)
    requires ps != [] && Readable(ps, t)
    ensures Readable(ps[1..], t)
  {
    hide Apart, Plain;
  }

  lemma {:induction false} FindCp(ps: seq<Part>, rest: string)
    requires forall p <- ps :: Plain(p.value) && Apart("CP=&&", p.tag)
    ensures Find(Text(ps) + rest, "CP=&&") == match Find(rest, "CP=&&") case None => None case Some(i) => Some(i + |Text(ps)|)
  {
    hide Apart, Plain, Find, PartText;
    if ps == [] {
      assert Text(ps) + rest == rest;
    } else {
      var p := ps[0];
      assert p in ps;
      assert Text(ps) + rest == PartText(p) + (Text(ps[1..]) + rest);
      FindCp(ps[1..], rest);
      FindBehind("CP=&&", p, Text(ps[1..]) + rest);
    }
  }

  // ---------------------------------------------------------------- the tags of the protocol

  lemma TwoLetters(a: char, b: char, c: char, d: char)
    requires a != ';' && b != ';' && c != ';' && d != ';' && a != '=' && b != '=' && c != '=' && d != '='
    requires (a, b) != (c, d)
    ensures Apart([a, b, '='], [c, d, '='])
  {
    var t, u := [a, b, '='], [c, d, '='];
    assert EqualsAt(t, 2) && EqualsAt(u, |u| - 1);
    assert u[|u| - 1 - 2..][0] == c && u[|u| - 1 - 2..][1] == d && t[..2 + 1][0] == a && t[..2 + 1][1] == b;
  }

  lemma FlagTag(a: char, b: char)
    requires a != ';' && b != ';' && a != '=' && b != '=' && b != 'g'
    ensures Apart([a, b, '='], "Flag=") && Apart("Flag=", [a, b, '='])
  {
    var t, u := [a, b, '='], "Flag=";
    assert EqualsAt(t, 2) && EqualsAt(u, 4);
    assert u[|u| - 1 - 2..][1] == 'g' && t[..2 + 1][1] == b;
    assert EqualsAt(t, |t| - 1) && EqualsAt(u, |u| - 1);
  }

  lemma CpTag(c: char, d: char)
    requires c != ';' && d != ';' && c != '=' && d != '=' && d != 'P'
    ensures Apart("CP=&&", [c, d, '='])
  {
    var t, u := "CP=&&", [c, d, '='];
    assert EqualsAt(t, 2) && EqualsAt(u, |u| - 1);
    assert u[|u| - 1 - 2..][1] == d && t[..2 + 1][1] == 'P';
  }

  lemma CpFlagTag()
    ensures Apart("CP=&&", "Flag=")
  {
    var t, u := "CP=&&", "Flag=";
    assert EqualsAt(t, 2) && EqualsAt(u, |u| - 1);
    assert u[|u| - 1 - 2..][1] == 'g' && t[..2 + 1][1] == 'P';
  }

  /** The tags of Parts, in order. */
  function Tag(k: nat): string
    requires k < 6
  {
    ["QN=", "ST=", "CN=", "PW=", "MN=", "Flag="][k]
  }

  lemma TagsApart(j: nat, k: nat)
    requires j < 6 && k < 6 && j != k
    ensures Apart(Tag(j), Tag(k))
  {
    hide Apart;
    TwoLetters('Q', 'N', 'S', 'T'); TwoLetters('Q', 'N', 'C', 'N'); TwoLetters('Q', 'N', 'P', 'W'); TwoLetters('Q', 'N', 'M', 'N');
    TwoLetters('S', 'T', 'Q', 'N'); TwoLetters('S', 'T', 'C', 'N'); TwoLetters('S', 'T', 'P', 'W'); TwoLetters('S', 'T', 'M', 'N');
    TwoLetters('C', 'N', 'Q', 'N'); TwoLetters('C', 'N', 'S', 'T'); TwoLetters('C', 'N', 'P', 'W'); TwoLetters('C', 'N', 'M', 'N');
    TwoLetters('P', 'W', 'Q', 'N'); TwoLetters('P', 'W', 'S', 'T'); TwoLetters('P', 'W', 'C', 'N'); TwoLetters('P', 'W', 'M', 'N');
    TwoLetters('M', 'N', 'Q', 'N'); TwoLetters('M', 'N', 'S', 'T'); TwoLetters('M', 'N', 'C', 'N'); TwoLetters('M', 'N', 'P', 'W');
    FlagTag('Q', 'N'); FlagTag('S', 'T'); FlagTag('C', 'N'); FlagTag('P', 'W'); FlagTag('M', 'N');
  }

  lemma CpApart(k: nat)
    requires k < 6
    ensures Apart("CP=&&", Tag(k))
  {
    hide Apart;
    CpTag('Q', 'N'); CpTag('S', 'T'); CpTag('C', 'N'); CpTag('P', 'W'); CpTag('M', 'N');
    CpFlagTag();
  }

  /** Arguments that can be told apart again.  CP may hold anything but '&', tags included. */
  predicate Separable(f: Fields) {
    && Plain(f.qn) && Plain(f.st) && Plain(f.cn) && Plain(f.pw) && Plain(f.mn) && Plain(First(f.flag))
    && (f.cp.Some? ==> forall i | 0 <= i < |f.cp.value| :: f.cp.value[i] != '&' && f.cp.value[i] != '\0')
  }

  /** What the parser is to find for an argument: its first n characters, or what stands behind. */
  function Recovered(v: Option<string>, n: nat, behind: string): string {
    if v.Some? then Take(v.value, n) else behind
  }

  lemma PartsReadable(f: Fields, k: nat)
    requires Separable(f) && k < 6
    ensures Readable(Parts(f), Tag(k))
    ensures Given(Parts(f), Tag(k)) == Parts(f)[k].value
    ensures forall p <- Parts(f) :: Plain(p.value) && Apart("CP=&&", p.tag)
  {
    hide Apart, Plain;
    var ps := Parts(f);
    CutsPlain(f);
    assert forall j | 0 <= j < 6 :: ps[j].tag == Tag(j);
    forall j | 0 <= j < 6
      ensures Plain(ps[j].value) && (ps[j].tag == Tag(k) || Apart(Tag(k), ps[j].tag)) && Apart("CP=&&", ps[j].tag)
    {
      if j != k {
        TagsApart(k, j);
      }
      CpApart(j);
    }
    GivenAt(ps, k);
  }

  lemma CutsPlain(f: Fields)
    requires Separable(f)
    ensures forall j | 0 <= j < 6 :: Plain(Parts(f)[j].value)
  {
  }

  lemma GivenAt(ps: seq<Part>, k: nat)
    requires |ps| == 6 && k < 6 && forall j | 0 <= j < 6 :: ps[j].tag == Tag(j)
    ensures Given(ps, Tag(k)) == ps[k].value
  {
    forall j | 0 <= j < 6 && j != k
      ensures ps[j].tag != Tag(k)
    {
      TagsDiffer(j, k);
    }
    GivenFrom(ps, Tag(k), k);
  }

  lemma TagsDiffer(j: nat, k: nat)
    requires j < 6 && k < 6 && j != k
    ensures Tag(j) != Tag(k)
  {
    assert Tag(j)[0] != Tag(k)[0];
  }

  lemma {:induction false} GivenFrom(ps: seq<Part>, t: string, k: nat)
    requires k < |ps| && ps[k].tag == t && forall j | 0 <= j < |ps| && j != k :: ps[j].tag != t
    ensures Given(ps, t) == ps[k].value
  {
    if k > 0 {
      GivenFrom(ps[1..], t, k - 1);
    } else {
      GivenNone(ps[1..], t);
    }
  }

  lemma {:induction false} GivenNone(ps: seq<Part>, t: string)
    requires forall j | 0 <= j < |ps| :: ps[j].tag != t
    ensures Given(ps, t) == None
  {
    if ps != [] {
      GivenNone(ps[1..], t);
    }
  }

  /** The parser undoes the encoder: every argument given is found, cut to its length, whatever
      text follows; an argument not given is looked for in CP and behind. */
  lemma FieldsRecovered(f: Fields, tail: string)
    requires Separable(f) && |tail| >= 6
    ensures
      var t, d := CpText(f.cp) + tail, ParsePack(Payload(f) + tail);
      && d.qn == Recovered(f.qn, QN_LEN, Field(t, "QN=", QN_LEN))
      && d.st == Recovered(f.st, ST_LEN, Field(t, "ST=", ST_LEN))
      && d.cn == Recovered(f.cn, CN_LEN, Field(t, "CN=", CN_LEN))
      && d.pw == Recovered(f.pw, PW_LEN, Field(t, "PW=", PW_LEN))
      && d.mn == Recovered(f.mn, MN_LEN, Field(t, "MN=", MN_LEN))
      && d.flag == Recovered(First(f.flag), FLAG_LEN, Field(t, "Flag=", FLAG_LEN))
      && d.cp == Recovered(f.cp, CP_LEN, CpField(tail))
  {
    hide Separable, Field, Readable, Apart, Plain, Given, CpField, Text;
    var ps, t := Parts(f), CpText(f.cp) + tail;
    assert Payload(f) + tail == Text(ps) + t;
    PartsReadable(f, 0);
    FieldOf(ps, Tag(0), t, QN_LEN);
    PartsReadable(f, 1);
    FieldOf(ps, Tag(1), t, ST_LEN);
    PartsReadable(f, 2);
    FieldOf(ps, Tag(2), t, CN_LEN);
    PartsReadable(f, 3);
    FieldOf(ps, Tag(3), t, PW_LEN);
    PartsReadable(f, 4);
    FieldOf(ps, Tag(4), t, MN_LEN);
    PartsReadable(f, 5);
    FieldOf(ps, Tag(5), t, FLAG_LEN);
    CpRecovered(f, tail);
  }

  lemma CpRecovered(f: Fields, tail: string)
    requires Separable(f) && |tail| >= 6
    ensures CpField(Payload(f) + tail) == Recovered(f.cp, CP_LEN, CpField(tail))
  {
    hide Find, Text, Apart, Plain, Parts, CpField, CpText, Take;
    var ps, t := Parts(f), CpText(f.cp) + tail;
    PartsReadable(f, 0);
    FindCp(ps, t);
    assert Payload(f) + tail == Text(ps) + t;
    if f.cp.None? {
      NoCp();
      assert t == tail;
      CpBehind(Text(ps), tail);
    } else {
      CpHere(Text(ps), f.cp.value, tail);
    }
  }

  lemma NoCp()
    ensures CpText(None) == ""
  {
  }

  lemma CpBehind(s: string, tail: string)
    requires Find(s + tail, "CP=&&") == match Find(tail, "CP=&&") case None => None case Some(i) => Some(i + |s|)
    ensures CpField(s + tail) == CpField(tail)
  {
    hide Find, CpFrom;
    match Find(tail, "CP=&&")
    case None =>
    case Some(i) => assert (s + tail)[i + |s|..] == tail[i..];
  }

  lemma CpHere(s: string, cp: string, tail: string)
    requires |tail| >= 6 && forall i | 0 <= i < |cp| :: cp[i] != '&'
    requires
      var t := CpText(Some(cp)) + tail;
      Find(s + t, "CP=&&") == match Find(t, "CP=&&") case None => None case Some(i) => Some(i + |s|)
    ensures CpField(s + (CpText(Some(cp)) + tail)) == Take(cp, CP_LEN)
  {
    hide Find, CpFrom, Take;
    var t := CpText(Some(cp)) + tail;
    FindAtOnce(t, "CP=&&");
    assert (s + t)[|s|..] == t;
    CpOf(cp, tail);
  }

  lemma CpOf(cp: string, tail: string)
    requires |tail| >= 6 && forall i | 0 <= i < |cp| :: cp[i] != '&'
    ensures CpFrom(CpText(Some(cp)) + tail) == Take(cp, CP_LEN)
  {
    hide Scan;
    var t := CpText(Some(cp)) + tail;
    assert t[5..] == cp + ['&'] + ("&" + tail);
    ScanReads(cp, '&', "&" + tail, CP_LEN);
  }

  lemma FindAtOnce(t: string, tag: string)
    requires tag <= t
    ensures Find(t, tag) == Some(0)
  {
  }

  // ---------------------------------------------------------------- Hjt212Encode

  /** A run of sBuf[index++] = c. */
  method PutChars(sBuf: array<char>, index: nat, s: string) returns (next: nat)
    requires index + |s| <= sBuf.Length
    modifies sBuf
    ensures next == index + |s| && sBuf[..next] == old(sBuf[..index]) + s
  {
    next := index;
    for i := 0 to |s|
      invariant next == index + i && sBuf[..next] == old(sBuf[..index]) + s[..i]
    {
      ghost var before := sBuf[..next];
      sBuf[next] := s[i];
      next := next + 1;
      assert sBuf[..next] == before + [s[i]];
      assert s[..i + 1] == s[..i] + [s[i]];
    }
  }

  /** A tag, the value up to len characters, a semicolon; nothing for a null pointer. */
  method PutField(sBuf: array<char>, index: nat, tag: string, value: Option<string>, len: nat) returns (next: nat)
    requires index + |PartText(Part(tag, Cut(value, len)))| <= sBuf.Length
    modifies sBuf
    ensures next == index + |PartText(Part(tag, Cut(value, len)))|
    ensures sBuf[..next] == old(sBuf[..index]) + PartText(Part(tag, Cut(value, len)))
  {
    next := index;
    if value.Some? {
      next := PutChars(sBuf, next, tag);
      next := PutChars(sBuf, next, Take(value.value, len));
      next := PutChars(sBuf, next, ";");
    }
  }

  /** The loop for the length, last digit first. */
  method PutLength(sBuf: array<char>, length: nat)
    requires sBuf.Length >= 6
    modifies sBuf
    ensures sBuf[2..6] == LengthDigits(length) && sBuf[..2] == old(sBuf[..2]) && sBuf[6..] == old(sBuf[6..])
  {
    hide Digit;
    var n := length;
    sBuf[5] := Digit(n % 10);
    n := n / 10;
    sBuf[4] := Digit(n % 10);
    n := n / 10;
    assert n == length / 100;
    sBuf[3] := Digit(n % 10);
    n := n / 10;
    assert n == length / 1000;
    sBuf[2] := Digit(n % 10);
  }

  /** Hex2Str. */
  method Hex2Str(hex: nat) returns (s: string)
    requires hex < 256
    ensures s == [UpperHex(hex / 16), UpperHex(hex % 16)]
  {
    s := [UpperHex(hex / 16), UpperHex(hex % 16)];
  }

  /** The two bytes of the CRC as Hjt212Encode prints them. */
  method CheckText(p: string) returns (s: string)
    ensures s == Check(p)
  {
    hide UpperHex, Crc;
    var crc := GetCrc16(p);
    var v := CrcValue(p);
    assert v == crc as int < 0x1_0000;
    hide CrcValue;
    Nibbles(v);
    var high := Hex2Str(v / 256);
    var low := Hex2Str(v % 256);
    s := high + low;
  }

  lemma Nibbles(v: nat)
    requires v < 0x1_0000
    ensures v / 256 < 256 && v / 256 / 16 == v / 4096 % 16 && v % 256 / 16 == v / 16 % 16 && v % 256 % 16 == v % 16
  {
    assert v / 256 / 16 == v / 4096;
    assert v == 256 * (v / 256) + v % 256;
    assert v / 16 == 16 * (v / 256) + v % 256 / 16;
  }

  /** The data part of Hjt212Encode, behind the first six bytes. */
  method EncodeData(f: Fields, sBuf: array<char>) returns (index: nat)
    requires 6 + |Payload(f)| <= sBuf.Length
    modifies sBuf
    ensures index == 6 + |Payload(f)| && sBuf[6..index] == Payload(f)
  {
    hide PartText, Cut, CpText, Text;
    ghost var head := sBuf[..6];
    PayloadOf(f);
    index := PutField(sBuf, 6, "QN=", f.qn, QN_LEN);
    index := PutField(sBuf, index, "ST=", f.st, ST_LEN);
    index := PutField(sBuf, index, "CN=", f.cn, CN_LEN);
    index := PutField(sBuf, index, "PW=", f.pw, PW_LEN);
    index := PutField(sBuf, index, "MN=", f.mn, MN_LEN);
    index := PutField(sBuf, index, "Flag=", First(f.flag), 1);
    index := PutCp(sBuf, index, f.cp);
    Behind(sBuf[..index], head, Payload(f));
    assert sBuf[6..index] == sBuf[..index][6..];
  }

  /** The payload, piece by piece. */
  lemma PayloadOf(f: Fields)
    ensures Payload(f) == PartText(Part("QN=", Cut(f.qn, QN_LEN))) + PartText(Part("ST=", Cut(f.st, ST_LEN)))
                          + PartText(Part("CN=", Cut(f.cn, CN_LEN))) + PartText(Part("PW=", Cut(f.pw, PW_LEN)))
                          + PartText(Part("MN=", Cut(f.mn, MN_LEN))) + PartText(Part("Flag=", Cut(First(f.flag), 1)))
                          + CpText(f.cp)
  {
    hide PartText, Cut, CpText, Text;
    TextOf(Parts(f));
    CutFirst(First(f.flag));
  }

  method PutCp(sBuf: array<char>, index: nat, cp: Option<string>) returns (next: nat)
    requires index + |CpText(cp)| <= sBuf.Length
    modifies sBuf
    ensures next == index + |CpText(cp)| && sBuf[..next] == old(sBuf[..index]) + CpText(cp)
  {
    next := index;
    if cp.Some? {
      next := PutChars(sBuf, next, "CP=&&");
      next := PutChars(sBuf, next, cp.value);
      next := PutChars(sBuf, next, "&&");
    }
  }

  lemma Behind(all: string, head: string, s: string)
    requires |head| == 6 && all == head + s
    ensures all[6..] == s
  {
  }

  lemma CutFirst(v: Option<string>)
    requires v.Some? ==> |v.value| == 1
    ensures Cut(v, 1) == v
  {
  }

  lemma TextOf(ps: seq<Part>)
    requires |ps| == 6
    ensures Text(ps) == PartText(ps[0]) + (PartText(ps[1]) + (PartText(ps[2]) + (PartText(ps[3]) + (PartText(ps[4]) + PartText(ps[5])))))
  {
    hide PartText;
    assert Text(ps[6..]) == "";
    TextFrom(ps, 5);
    TextFrom(ps, 4);
    TextFrom(ps, 3);
    TextFrom(ps, 2);
    TextFrom(ps, 1);
    TextFrom(ps, 0);
    assert ps[0..] == ps && PartText(ps[5]) + "" == PartText(ps[5]);
  }

  lemma TextFrom(ps: seq<Part>, k: nat)
    requires k < |ps|
    ensures Text(ps[k..]) == PartText(ps[k]) + Text(ps[k + 1..])
  {
    hide PartText;
    assert ps[k..][1..] == ps[k + 1..];
  }

  /** Hjt212Encode: the frame of the payload. */
  method Encode(f: Fields, sBuf: array<char>) returns (index: nat)
    requires |Payload(f)| + 12 <= sBuf.Length
    modifies sBuf
    ensures index == |Frame(Payload(f))| && sBuf[..index] == Frame(Payload(f))
  {
    hide Payload, Check, LengthDigits;
    ghost var p := Payload(f);
    index := EncodeData(f, sBuf);
    sBuf[0], sBuf[1] := '#', '#';
    assert sBuf[6..index] == p;
    PutLength(sBuf, index - 6);
    assert sBuf[6..index] == sBuf[6..][..index - 6] == p;
    var check := CheckText(sBuf[6..index]);
    ghost var start := sBuf[..index];
    assert start == "##" + LengthDigits(|p|) + p;
    index := PutChars(sBuf, index, check);
    index := PutChars(sBuf, index, "\r\n");
  }

  // ---------------------------------------------------------------- from encoder to parser

  lemma {:induction false} UntilBehind(a: string, b: string, c: char)
    requires forall i | 0 <= i < |a| :: a[i] != c
    ensures Until(a + b, c) == a + Until(b, c)
  {
    if a == "" {
      assert a + b == b;
    } else {
      assert (a + b)[1..] == a[1..] + b;
      UntilBehind(a[1..], b, c);
    }
  }

  lemma {:induction false} TextPlain(ps: seq<Part>)
    requires forall p <- ps :: Plain(p.value) && forall i | 0 <= i < |p.tag| :: p.tag[i] != '\0'
    ensures forall i | 0 <= i < |Text(ps)| :: Text(ps)[i] != '\0'
  {
    if ps != [] {
      TextPlain(ps[1..]);
      PartPlain(ps[0]);
      hide PartText;
    }
  }

  lemma PartPlain(p: Part)
    requires Plain(p.value) && forall i | 0 <= i < |p.tag| :: p.tag[i] != '\0'
    ensures forall i | 0 <= i < |PartText(p)| :: PartText(p)[i] != '\0'
  {
  }

  lemma PayloadPlain(f: Fields)
    requires Separable(f)
    ensures forall i | 0 <= i < |Payload(f)| :: Payload(f)[i] != '\0'
  {
    hide Text, Plain;
    CutsPlain(f);
    TextPlain(Parts(f));
    CpPlain(f.cp);
  }

  lemma CpPlain(cp: Option<string>)
    requires cp.Some? ==> forall i | 0 <= i < |cp.value| :: cp.value[i] != '\0'
    ensures forall i | 0 <= i < |CpText(cp)| :: CpText(cp)[i] != '\0'
  {
  }

  lemma CheckPlain(p: string)
    ensures forall i | 0 <= i < 6 :: (Check(p) + "\r\n")[i] != '\0'
  {
    hide Crc;
  }

  /** From the encoder through the receiver to the parser: with all arguments given, a clean
      receiver hands over one package, in which every field is found again, whatever stale bytes
      the receive buffer holds. */
  lemma EncodedIsUnderstood(r: Rx, f: Fields)
    requires r.Clean() && Separable(f) && Carried(Payload(f))
    requires f.qn.Some? && f.st.Some? && f.cn.Some? && f.pw.Some? && f.mn.Some? && f.flag.Some? && f.cp.Some?
    ensures
      var out := Put(r, Frame(Payload(f)));
      && out.0.Clean() && |out.1| == 1 && out.1[0].payload == Payload(f)
      && ParsePack(out.1[0].text)
         == Data(Take(f.qn.value, QN_LEN), Take(f.st.value, ST_LEN), Take(f.cn.value, CN_LEN), Take(f.pw.value, PW_LEN),
                 Take(f.mn.value, MN_LEN), Take(First(f.flag).value, FLAG_LEN), Take(f.cp.value, CP_LEN))
  {
    hide Frame, Put, Separable, Payload, Check, Until, Take, ParsePack, Field, CpField, CpText;
    var p := Payload(f);
    var stale := r.buffer[|p| + 12..];
    FrameDelivered(r, p);
    PayloadPlain(f);
    CheckPlain(p);
    var end := Check(p) + "\r\n";
    UntilBehind(p, end + stale, '\0');
    UntilBehind(end, stale, '\0');
    assert p + Check(p) + "\r\n" + stale == p + (end + stale);
    FieldsRecovered(f, end + Until(stale, '\0'));
    DataOf(ParsePack(p + (end + Until(stale, '\0'))));
  }

  lemma DataOf(d: Data)
    ensures d == Data(d.qn, d.st, d.cn, d.pw, d.mn, d.flag, d.cp)
  {
  }
}
