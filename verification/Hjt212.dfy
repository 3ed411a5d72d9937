/**
 The HJ/T 212 framing of sdccp/hjt212.c: the frames that Hjt212Encode builds, and the receiver
 that HJT212_PutBytes runs a byte at a time.  Bytes are characters below 256.
 */
module Hjt212 {
  import opened Common
  import opened CrcTables

  const BUF_SIZE: nat := 2048

  // ---------------------------------------------------------------- frames

  /** hjt212_GetCrc16: unlike the Modbus CRC, each byte meets the high byte of the register, and
      the low byte is dropped. */
  function Crc(s: string): bv16 {
    if s == [] then 0xFFFF else ShiftBy8(Feed(Crc(s[..|s| - 1]) >> 8, Byte(s[|s| - 1])))
  }

  function Byte(c: char): bv8 {
    (c as int % 256) as bv8
  }

  function CrcValue(s: string): nat {
    Crc(s) as int
  }

  function UpperHex(n: nat): (c: char)
    requires n < 16
    ensures c != '\r' && c != '\n'
  {
    if n < 10 then ('0' as int + n) as char else ('A' as int + n - 10) as char
  }

  /** The CRC of a payload as Hex2Str prints its two bytes. */
  function Check(p: string): (s: string)
    ensures |s| == 4 && forall i | 0 <= i < 4 :: s[i] != '\r' && s[i] != '\n'
  {
    var v := CrcValue(p);
    [UpperHex(v / 4096 % 16), UpperHex(v / 256 % 16), UpperHex(v / 16 % 16), UpperHex(v % 16)]
  }

  function Digit(n: nat): char
    requires n < 10
  {
    ('0' as int + n) as char
  }

  /** The four digits of a length. */
  function LengthDigits(n: nat): (s: string)
    ensures |s| == 4
  {
    [Digit(n / 1000 % 10), Digit(n / 100 % 10), Digit(n / 10 % 10), Digit(n % 10)]
  }

  /** What the receiver makes of four characters. */
  function LengthOf(s: string): int
    requires |s| == 4
  {
    (s[0] as int - '0' as int) * 1000 + (s[1] as int - '0' as int) * 100 + (s[2] as int - '0' as int) * 10
    + (s[3] as int - '0' as int)
  }

  lemma LengthRead(n: nat)
    requires n < 10000
    ensures LengthOf(LengthDigits(n)) == n
  {
    hide Digit;
    var a, b, c, d := n / 1000 % 10, n / 100 % 10, n / 10 % 10, n % 10;
    assert n / 100 == n / 10 / 10 && n / 1000 == n / 100 / 10 && n / 1000 < 10;
    DigitValue(a);
    DigitValue(b);
    DigitValue(c);
    DigitValue(d);
  }

  lemma DigitValue(n: nat)
    requires n < 10
    ensures Digit(n) as int - '0' as int == n
  {
  }

  function Frame(p: string): (f: string)
    ensures |f| == |p| + 12
  {
    "##" + LengthDigits(|p|) + p + Check(p) + "\r\n"
  }

  // ---------------------------------------------------------------- the receiver on values

  /** pBuffer, nPos, and whether the receiver waits for the end of a frame. */
  datatype Rx = Rx(buffer: string, pos: nat, eom: bool) {
    predicate Valid() {
      |buffer| == BUF_SIZE && pos < BUF_SIZE
    }

    /** At position 0, waiting for a head. */
    predicate Clean() {
      Valid() && pos == 0 && !eom
    }
  }

  /** A frame handed to __HJT212_ParsePack: its payload, and the C string at pData, which runs on
      behind the payload to the first NUL in the buffer. */
  datatype Package = Package(payload: string, text: string)

  function Until(s: string, c: char): (r: string)
    ensures |r| <= |s|
  {
    if s == [] || s[0] == c then [] else [s[0]] + Until(s[1..], c)
  }

  /** The test of length and check behind an end-of-message. */
  function Judge(buffer: string, n: nat): seq<Package>
    requires |buffer| == BUF_SIZE && 18 <= n < BUF_SIZE
  {
    if LengthOf(buffer[2..6]) + 12 == n && buffer[n - 6..n - 2] == Check(buffer[6..n - 6])
    then [Package(buffer[6..n - 6], Until(buffer[6..], '\0'))]
    else []
  }

  /** One byte. */
  function Step(r: Rx, c: char): (r': (Rx, seq<Package>))
    requires r.Valid()
    ensures r'.0.Valid()
  {
    var b := r.buffer[r.pos := c];
    var n := if r.pos + 1 >= BUF_SIZE then 0 else r.pos + 1;
    if !r.eom then
      if n == 2 then (if b[..2] == "##" then Rx(b, 2, true) else Rx(b, 1, false), [])
      else (Rx(b, n, false), [])
    else if n >= 18 && b[n - 2] == '\r' && b[n - 1] == '\n' then (Rx(b, 0, false), Judge(b, n))
    else (Rx(b, n, true), [])
  }

  /** A run of bytes. */
  function Put(r: Rx, s: string): (r': (Rx, seq<Package>))
    requires r.Valid()
    ensures r'.0.Valid()
  {
    if s == [] then (r, [])
    else
      var before := Put(r, s[..|s| - 1]);
      var last := Step(before.0, s[|s| - 1]);
      (last.0, before.1 + last.1)
  }

  lemma {:induction false} PutBoth(r: Rx, s: string, t: string)
    requires r.Valid()
    ensures Put(r, s + t) == (Put(Put(r, s).0, t).0, Put(r, s).1 + Put(Put(r, s).0, t).1)
  {
    hide Step;
    if t == [] {
      assert s + t == s && Put(r, s).1 + [] == Put(r, s).1;
    } else {
      var t' := t[..|t| - 1];
      assert (s + t)[..|s + t| - 1] == s + t';
      PutBoth(r, s, t');
      var last := Step(Put(r, s + t').0, t[|t| - 1]);
      assert Put(r, s).1 + Put(Put(r, s).0, t').1 + last.1 == Put(r, s).1 + (Put(Put(r, s).0, t').1 + last.1);
    }
  }

  // ---------------------------------------------------------------- frames through the receiver

  /** A payload the framing carries: long enough, short enough for the buffer, and no CR LF where
      the receiver would take it for the end. */
  predicate Carried(p: string) {
    6 <= |p| && |p| + 12 < BUF_SIZE && forall i | 10 <= i < |p| - 1 :: !(p[i] == '\r' && p[i + 1] == '\n')
  }

  /** An end-of-message behind j bytes. */
  predicate EndsAt(f: string, j: nat) {
    2 <= j <= |f| && f[j - 2] == '\r' && f[j - 1] == '\n'
  }

  /** No end-of-message that the receiver would look at in the first n bytes. */
  predicate NoEnd(f: string, n: nat) {
    forall j | 18 <= j <= n :: !EndsAt(f, j)
  }

  lemma FrameHasNoEnd(p: string)
    requires Carried(p)
    ensures NoEnd(Frame(p), |Frame(p)| - 1)
  {
    hide Check, LengthDigits;
    var f := Frame(p);
    forall j | 18 <= j <= |f| - 1
      ensures !EndsAt(f, j)
    {
      if j - 7 < |p| {
        assert f[j - 2] == p[j - 8] && f[j - 1] == p[j - 7];
      } else if j - 7 < |p| + 4 {
        assert f[j - 1] == Check(p)[j - 7 - |p|];
      } else {
        assert f[j - 1] == '\r';
      }
    }
  }

  lemma PutOne(r: Rx, c: char)
    requires r.Valid()
    ensures Put(r, [c]) == Step(r, c)
  {
    hide Step;
    assert [c][..0] == [] && Put(r, []) == (r, []);
    assert [] + Step(r, c).1 == Step(r, c).1;
  }

  /** Inside a frame the receiver collects bytes. */
  lemma {:induction false} Collects(r: Rx, f: string, n: nat)
    requires r.Clean() && 2 <= n <= |f| && n < BUF_SIZE && f[..2] == "##" && NoEnd(f, n)
    ensures Put(r, f[..n]) == (Rx(f[..n] + r.buffer[n..], n, true), [])
  {
    hide Judge;
    assert f[..n][..n - 1] == f[..n - 1];
    if n == 2 {
      assert f[..1][..0] == [] && f[0] == '#' && f[1] == '#';
      var r1 := Step(r, f[0]).0;
      PutOne(r, f[0]);
      assert f[..1] == [f[0]];
      assert r1.buffer[1 := f[1]][..2] == "##";
      assert r1.buffer[1 := f[1]] == f[..2] + r.buffer[2..];
    } else {
      Collects(r, f, n - 1);
      var b := f[..n - 1] + r.buffer[n - 1..];
      assert b[n - 1 := f[n - 1]] == f[..n] + r.buffer[n..];
      if n >= 18 {
        assert !EndsAt(f, n);
      }
    }
  }

  /** What is handed over of the frame of p: the payload, and the text from it on, which runs into
      what the buffer held before. */
  function Handed(r: Rx, p: string): Package
    requires r.Valid() && |p| + 12 <= BUF_SIZE
  {
    Package(p, Until(p + Check(p) + "\r\n" + r.buffer[|p| + 12..], '\0'))
  }

  /** A frame put into a clean receiver is handed over once, as it was encoded. */
  lemma FrameDelivered(r: Rx, p: string)
    requires r.Clean() && Carried(p)
    ensures Put(r, Frame(p)).0.Clean()
    ensures Put(r, Frame(p)).1 == [Handed(r, p)]
  {
    hide Check, Frame, NoEnd, Put, Step, Until, Handed;
    var f := Frame(p);
    var n := |f|;
    FrameHasNoEnd(p);
    FrameStarts(p);
    Collects(r, f, n - 1);
    PutBehind(r, f, Rx(f[..n - 1] + r.buffer[n - 1..], n - 1, true));
    LastByte(r, p);
  }

  /** The last byte of s, when nothing was handed over before it. */
  lemma PutBehind(r: Rx, s: string, before: Rx)
    requires r.Valid() && s != [] && before.Valid() && Put(r, s[..|s| - 1]) == (before, [])
    ensures Put(r, s).0 == Step(before, s[|s| - 1]).0 && Put(r, s).1 == Step(before, s[|s| - 1]).1
  {
    hide Step, Put;
    PutLast(r, s);
    NothingMore(Step(before, s[|s| - 1]).1);
  }

  lemma NothingMore(out: seq<Package>)
    ensures [] + out == out
  {
  }

  lemma PutLast(r: Rx, s: string)
    requires r.Valid() && s != []
    ensures
      var before := Put(r, s[..|s| - 1]);
      var last := Step(before.0, s[|s| - 1]);
      Put(r, s) == (last.0, before.1 + last.1)
  {
  }

  lemma FrameStarts(p: string)
    ensures Frame(p)[..2] == "##"
  {
  }

  lemma LastByte(r: Rx, p: string)
    requires r.Clean() && 6 <= |p| && |p| + 12 < BUF_SIZE
    ensures
      var f := Frame(p);
      var n := |f|;
      var last := Step(Rx(f[..n - 1] + r.buffer[n - 1..], n - 1, true), f[n - 1]);
      last.0.Clean() && last.1 == [Handed(r, p)]
  {
    hide Check, LengthDigits, LengthOf, Until, Frame, Handed, Judge;
    var f := Frame(p);
    var n := |f|;
    FrameEnds(p);
    LastOf(f, r.buffer);
    JudgedWhole(r, p);
  }

  lemma FrameEnds(p: string)
    ensures Frame(p)[|p| + 10] == '\r' && Frame(p)[|p| + 11] == '\n'
  {
    hide Check, LengthDigits;
  }

  lemma LastOf(f: string, buffer: string)
    requires 0 < |f| <= |buffer|
    ensures (f[..|f| - 1] + buffer[|f| - 1..])[|f| - 1 := f[|f| - 1]] == f + buffer[|f|..]
  {
  }

  /** The test behind a whole frame. */
  lemma JudgedWhole(r: Rx, p: string)
    requires r.Valid() && 6 <= |p| && |p| + 12 < BUF_SIZE
    ensures Judge(Frame(p) + r.buffer[|p| + 12..], |p| + 12) == [Handed(r, p)]
  {
    hide Check, LengthDigits, LengthOf, Until;
    var b := Frame(p) + r.buffer[|p| + 12..];
    assert b[6..] == p + Check(p) + "\r\n" + r.buffer[|p| + 12..];
    assert b[2..6] == LengthDigits(|p|) && b[6..|p| + 6] == p && b[|p| + 6..|p| + 10] == Check(p);
    LengthRead(|p|);
  }

  // ---------------------------------------------------------------- exactly these frames

  /** What is handed over never exceeds what was put in. */
  lemma {:induction false} DeliversNoMore(r: Rx, s: string)
    requires r.Valid()
    ensures Put(r, s).0.pos <= r.pos + |s|
    ensures forall q <- Put(r, s).1 :: 6 <= |q.payload| && |q.payload| + 12 <= r.pos + |s| && |q.payload| + 12 < BUF_SIZE
  {
    if s != [] {
      DeliversNoMore(r, s[..|s| - 1]);
    }
  }

  /** The first end-of-message of a frame that has one too early. */
  lemma {:induction false} FirstEnd(f: string, n: nat) returns (k: nat)
    requires !NoEnd(f, n)
    ensures 18 <= k <= n && EndsAt(f, k) && NoEnd(f, k - 1)
  {
    if NoEnd(f, n - 1) {
      k := n;
    } else {
      k := FirstEnd(f, n - 1);
    }
  }

  /** A clean receiver hands over a frame as it was encoded, and is clean again, for exactly the
      payloads that the framing carries. */
  lemma DeliveredExactly(r: Rx, p: string)
    requires r.Clean()
    ensures Carried(p) <==> Put(r, Frame(p)).0.Clean() && Payloads(Put(r, Frame(p)).1) == [p]
  {
    hide Put, NoEnd;
    var out := Put(r, Frame(p));
    DeliversNoMore(r, Frame(p));
    if Carried(p) {
      FrameDelivered(r, p);
    } else if Payloads(out.1) == [p] {
      OnlyPayload(out.1, p);
      EarlyEnd(r, p);
    }
  }

  function Payloads(out: seq<Package>): seq<string> {
    seq(|out|, i requires 0 <= i < |out| => out[i].payload)
  }

  lemma OnlyPayload(out: seq<Package>, p: string)
    requires Payloads(out) == [p]
    ensures |out| == 1 && out[0].payload == p
  {
    assert Payloads(out)[0] == p;
  }

  lemma PayloadsBoth(a: seq<Package>, b: seq<Package>)
    ensures Payloads(a + b) == Payloads(a) + Payloads(b)
  {
  }

  lemma OnePayload(k: Package)
    ensures Payloads([k]) == [k.payload]
  {
  }

  /** An end-of-message inside a payload ends the frame there, unrecognised. */
  lemma EarlyEnd(r: Rx, p: string)
    requires r.Clean() && 6 <= |p| && |p| + 12 < BUF_SIZE && !Carried(p)
    ensures Payloads(Put(r, Frame(p)).1) != [p]
  {
    hide Check, LengthDigits, Put;
    var f := Frame(p);
    var i :| 10 <= i < |p| - 1 && p[i] == '\r' && p[i + 1] == '\n';
    assert f[i + 6] == '\r' && f[i + 7] == '\n';
    assert EndsAt(f, i + 8) && !NoEnd(f, |f| - 5);
    var k := FirstEnd(f, |f| - 5);
    assert f[..2] == "##";
    hide NoEnd;
    Collects(r, f, k - 1);
    CutShort(r, f, p, k);
    assert f[..k] + f[k..] == f;
    PutBoth(r, f[..k], f[k..]);
    DeliversNoMore(Put(r, f[..k]).0, f[k..]);
    if Payloads(Put(r, f).1) == [p] {
      OnlyPayload(Put(r, f).1, p);
    }
  }

  lemma CutShort(r: Rx, f: string, p: string, k: nat)
    requires r.Clean() && f == Frame(p) && 18 <= k < |f| < BUF_SIZE && EndsAt(f, k)
    requires Put(r, f[..k - 1]) == (Rx(f[..k - 1] + r.buffer[k - 1..], k - 1, true), [])
    ensures Put(r, f[..k]).0.Clean() && Put(r, f[..k]).1 == []
  {
    hide Check, LengthDigits, LengthOf, Until, Put, Judge, Frame;
    var g := f[..k];
    assert g[..k - 1] == f[..k - 1] && g[k - 1] == f[k - 1] && g[k - 2] == f[k - 2];
    PutBehind(r, g, Rx(f[..k - 1] + r.buffer[k - 1..], k - 1, true));
    LastOf(g, r.buffer);
    JudgedShort(p, k, r.buffer);
  }

  /** The length field gives a frame that is cut short away. */
  lemma JudgedShort(p: string, k: nat, buffer: string)
    requires 18 <= k < |Frame(p)| < BUF_SIZE == |buffer|
    ensures Judge(Frame(p)[..k] + buffer[k..], k) == []
  {
    hide Check, LengthDigits, LengthOf, Until;
    var b := Frame(p)[..k] + buffer[k..];
    assert b[2..6] == Frame(p)[2..6] == LengthDigits(|p|);
    LengthRead(|p|);
  }

  // ---------------------------------------------------------------- streams of frames

  function Frames(ps: seq<string>): string {
    if ps == [] then [] else Frames(ps[..|ps| - 1]) + Frame(ps[|ps| - 1])
  }

  /** Frames back to back are handed over one by one, in order, each once. */
  lemma {:induction false} StreamDelivered(r: Rx, ps: seq<string>)
    requires r.Clean() && forall p <- ps :: Carried(p)
    ensures Put(r, Frames(ps)).0.Clean() && Payloads(Put(r, Frames(ps)).1) == ps
  {
    if ps != [] {
      hide Carried, Frame, Put, Check, Until, Payloads;
      var n := |ps| - 1;
      StreamDelivered(r, ps[..n]);
      PutBoth(r, Frames(ps[..n]), Frame(ps[n]));
      assert Carried(ps[n]);
      var before := Put(r, Frames(ps[..n]));
      FrameDelivered(before.0, ps[n]);
      PayloadsBoth(before.1, Put(before.0, Frame(ps[n])).1);
      OnePayload(Put(before.0, Frame(ps[n])).1[0]);
      assert ps == ps[..n] + [ps[n]];
    } else {
      assert Payloads([]) == [];
    }
  }

  // ---------------------------------------------------------------- a receiver that stays deaf

  /** Waiting for a head with a first byte that is not one. */
  predicate Stuck(r: Rx) {
    r.Valid() && !r.eom && r.pos == 1 && r.buffer[0] != '#'
  }

  /** The receiver hands nothing over for the bytes s. */
  predicate Silent(r: Rx, s: string)
    requires r.Valid()
  {
    Put(r, s).1 == []
  }

  /** Some bytes make the receiver hand something over. */
  ghost predicate Hears(r: Rx) {
    r.Valid() && exists s: string :: !Silent(r, s)
  }

  lemma StaysStuck(r: Rx, c: char)
    requires Stuck(r)
    ensures r.Valid() && Stuck(Step(r, c).0) && Step(r, c).1 == []
  {
    assert r.buffer[1 := c][..2][0] != '#';
  }

  lemma {:induction false} StuckForever(r: Rx, s: string)
    requires Stuck(r)
    ensures r.Valid() && Stuck(Put(r, s).0) && Put(r, s).1 == []
  {
    hide Step, Stuck;
    StuckIsValid(r);
    if s != [] {
      StuckForever(r, s[..|s| - 1]);
      StaysStuck(Put(r, s[..|s| - 1]).0, s[|s| - 1]);
    }
  }

  lemma StuckIsValid(r: Rx)
    requires Stuck(r)
    ensures r.Valid()
  {
  }

  lemma HearsLater(r: Rx, c: char)
    requires r.Valid() && Hears(Step(r, c).0)
    ensures Hears(r)
  {
    hide Step, Put;
    var next := Step(r, c).0;
    var s: string :| !Silent(next, s);
    PutOne(r, c);
    PutBoth(r, [c], s);
    assert !Silent(r, [c] + s);
  }

  lemma CleanHears(r: Rx)
    requires r.Clean()
    ensures Hears(r)
  {
    hide Put, Until, Check, Frame;
    var p := "ABCDEF";
    FrameDelivered(r, p);
    assert !Silent(r, Frame(p));
  }

  /** With the first byte of a head, what a frame has behind it is enough. */
  lemma HeadHears(r: Rx)
    requires r.Valid() && !r.eom && r.pos == 1 && r.buffer[0] == '#'
    ensures Hears(r)
  {
    hide Put, Until, Check, LengthDigits;
    var p := "ABCDEF";
    var c := Rx(r.buffer, 0, false);
    assert r.buffer[0 := '#'] == r.buffer;
    assert Step(c, '#') == (r, []);
    FrameDelivered(c, p);
    PutOne(c, '#');
    PutBoth(c, "#", Frame(p)[1..]);
    assert Frame(p) == "#" + Frame(p)[1..];
    assert !Silent(r, Frame(p)[1..]);
  }

  /** Waiting for a head past its place, the receiver comes round to the start of the buffer. */
  lemma {:induction false} PastHeadHears(r: Rx)
    requires r.Valid() && !r.eom && r.pos != 1
    ensures Hears(r)
    decreases if r.pos == 0 then 0 else BUF_SIZE - r.pos
  {
    hide Put, Hears, Judge;
    if r.pos == 0 {
      CleanHears(r);
    } else {
      PastHeadHears(Step(r, 'x').0);
      HearsLater(r, 'x');
    }
  }

  /** Waiting for an end, bytes lead to a place where an end is looked at. */
  lemma {:induction false} InFrameHears(r: Rx)
    requires r.Valid() && r.eom
    ensures Hears(r)
    decreases if r.pos <= 20 then 20 - r.pos else 20 + BUF_SIZE - r.pos
  {
    hide Put, Hears, Judge;
    if r.pos == 20 {
      var r1 := Step(r, '\r').0;
      assert r1 == Rx(r.buffer[20 := '\r'], 21, true);
      assert Step(r1, '\n').0.Clean();
      CleanHears(Step(r1, '\n').0);
      HearsLater(r1, '\n');
      HearsLater(r, '\r');
    } else {
      InFrameHears(Step(r, 'x').0);
      HearsLater(r, 'x');
    }
  }

  /** In any state whatever, the receiver hands nothing over for any bytes exactly if it is stuck. */
  lemma DeafExactly(r: Rx)
    requires r.Valid()
    ensures Stuck(r) <==> forall s: string :: Silent(r, s)
  {
    hide Put;
    if Stuck(r) {
      forall s: string ensures Silent(r, s) {
        StuckForever(r, s);
      }
    } else if r.eom {
      InFrameHears(r);
    } else if r.pos == 1 {
      HeadHears(r);
    } else {
      PastHeadHears(r);
    }
  }

  /** A clean receiver is deaf from a first byte on exactly if that is not the first byte of a head. */
  lemma BadFirstByte(r: Rx, c: char)
    requires r.Clean()
    ensures (forall s: string :: Silent(r, [c] + s)) <==> c != '#'
  {
    hide Put;
    var r1 := Step(r, c).0;
    DeafExactly(r1);
    PutOne(r, c);
    assert Stuck(r1) <==> c != '#';
    forall s: string ensures Silent(r, [c] + s) <==> Silent(r1, s) {
      PutBoth(r, [c], s);
      assert [] + Put(r1, s).1 == Put(r1, s).1;
    }
    if c == '#' {
      var s: string :| !Silent(r1, s);
      assert !Silent(r, [c] + s);
    }
  }

  // ---------------------------------------------------------------- the functions on buffers

  /** The loops of hjt212_GetCrc16. */
  method GetCrc16(ptr: string) returns (crc: bv16)
    ensures crc == Crc(ptr)
  {
    hide Byte, Feed, Shift;
    crc := 0xFFFF;
    for i := 0 to |ptr|
      invariant crc == Crc(ptr[..i])
    {
      assert ptr[..i + 1][..i] == ptr[..i];
      ghost var start := Feed(crc >> 8, Byte(ptr[i]));
      crc := Feed(crc >> 8, Byte(ptr[i]));
      for j := 0 to 8
        invariant crc == Shifts(start, j)
      {
        crc := Shift(crc);
      }
      EightShifts(start);
    }
    assert ptr[..|ptr|] == ptr;
  }

  function Shifts(c: bv16, j: nat): bv16 {
    if j == 0 then c else Shift(Shifts(c, j - 1))
  }

  lemma EightShifts(c: bv16)
    ensures Shifts(c, 8) == ShiftBy8(c)
  {
    hide Shift;
    assert Shifts(c, 1) == Shift(Shifts(c, 0)) && Shifts(c, 2) == Shift(Shifts(c, 1));
    assert Shifts(c, 3) == Shift(Shifts(c, 2)) && Shifts(c, 4) == Shift(Shifts(c, 3));
    assert Shifts(c, 5) == Shift(Shifts(c, 4)) && Shifts(c, 6) == Shift(Shifts(c, 5));
    assert Shifts(c, 7) == Shift(Shifts(c, 6));
  }

  /** Mirrors s_pCCBuffer[index], s_CCBufferPos[index] and s_eRcvState[index]. */
  class Receiver {
    const buffer: array<char>
    var pos: nat
    var eom: bool

    ghost predicate Valid()
      reads this
    {
      buffer.Length == BUF_SIZE && pos < BUF_SIZE
    }

    ghost function Model(): Rx
      reads this, buffer
    {
      Rx(buffer[..], pos, eom)
    }

    constructor ()
      ensures Valid() && Model().Clean() && fresh(buffer)
    {
      buffer := new char[BUF_SIZE];
      pos, eom := 0, false;
    }

    /** The loop body of HJT212_PutBytes. */
    method PutByte(c: char) returns (delivered: seq<Package>)
      requires Valid()
      modifies this, buffer
      ensures Valid() && (Model(), delivered) == Step(old(Model()), c)
    {
      hide Check, LengthOf, Until;
      delivered := [];
      buffer[pos] := c;
      ghost var b := old(buffer[..])[old(pos) := c];
      assert buffer[..] == b;
      pos := pos + 1;
      if pos >= BUF_SIZE {
        pos := 0;
      }
      if !eom {
        if pos == 2 {
          if buffer[0] == '#' && buffer[1] == '#' {
            assert b[..2] == "##";
            eom := true;
          } else {
            assert b[..2] != "##" by {
              assert b[..2][0] == buffer[0] && b[..2][1] == buffer[1];
            }
            pos := 1;
          }
        }
      } else if pos >= 4 {
        if buffer[pos - 2] == '\r' && buffer[pos - 1] == '\n' && pos >= 18 {
          var ulLen := LengthOf(buffer[2..6]);
          assert b[2..6] == buffer[2..6] && b[6..] == buffer[6..];
          assert b[6..pos - 6] == buffer[6..pos - 6] && b[pos - 6..pos - 2] == buffer[pos - 6..pos - 2];
          if ulLen + 12 == pos && buffer[pos - 6..pos - 2] == Check(buffer[6..pos - 6]) {
            delivered := [Package(buffer[6..pos - 6], Until(buffer[6..], '\0'))];
          }
          eom, pos := false, 0;
        }
      }
    }

    /** HJT212_PutBytes. */
    method PutBytes(bytes: string) returns (delivered: seq<Package>)
      requires Valid()
      modifies this, buffer
      ensures Valid() && (Model(), delivered) == Put(old(Model()), bytes)
    {
      hide Step;
      delivered := [];
      ghost var start := Model();
      for n := 0 to |bytes|
        invariant Valid() && (Model(), delivered) == Put(start, bytes[..n])
      {
        assert bytes[..n + 1][..n] == bytes[..n];
        var more := PutByte(bytes[n]);
        delivered := delivered + more;
      }
      assert bytes[..|bytes|] == bytes;
    }
  }

  /** However the transport cuts a stream of frames into calls, a new receiver hands over the
      payloads in order, each exactly once. */
  method Receive(chunks: seq<string>, ghost ps: seq<string>) returns (payloads: seq<string>)
    requires Concat(chunks) == Frames(ps) && forall p <- ps :: Carried(p)
    ensures payloads == ps
  {
    hide Put, Frames, Carried;
    var rx := new Receiver();
    ghost var start := rx.Model();
    var out: seq<Package> := [];
    NothingPut(start);
    assert chunks[..0] == [];
    for i := 0 to |chunks|
      invariant fresh(rx) && fresh(rx.buffer) && rx.Valid() && (rx.Model(), out) == Put(start, Concat(chunks[..i]))
    {
      assert chunks[..i + 1][..i] == chunks[..i];
      PutBoth(start, Concat(chunks[..i]), chunks[i]);
      var more := rx.PutBytes(chunks[i]);
      out := out + more;
    }
    assert chunks[..|chunks|] == chunks;
    StreamDelivered(start, ps);
    payloads := Payloads(out);
  }

  lemma NothingPut(r: Rx)
    requires r.Valid()
    ensures Put(r, []) == (r, [])
  {
  }
}
