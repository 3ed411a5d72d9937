/**
 What the HJ/T 212 receiver refuses, and what it takes for a frame: nothing is handed over that does
 not stand in front of its own check, but the head of a frame may be missing.
 */
module Hjt212Checks {
  import opened Common
  import opened CrcTables
  import opened Hjt212

  // ---------------------------------------------------------------- the check as text

  function HexValue(c: char): int {
    if '0' <= c <= '9' then c as int - '0' as int
    else if 'A' <= c <= 'F' then 10 + c as int - 'A' as int
    else -1
  }

  lemma UpperHexReads(n: nat)
    requires n < 16
    ensures HexValue(UpperHex(n)) == n
  {
  }

  /** Four upper-case hexadecimal digits of the value v, most significant first. */
  predicate IsHexOf(s: string, v: nat) {
    && |s| == 4 && (forall i | 0 <= i < 4 :: HexValue(s[i]) >= 0)
    && v == 0x1000 * HexValue(s[0]) + 0x100 * HexValue(s[1]) + 0x10 * HexValue(s[2]) + HexValue(s[3])
  }

  lemma HexUnique(c: char, d: char)
    requires HexValue(c) == HexValue(d) >= 0
    ensures c == d
  {
  }

  /** The check is the one text of four digits that reads as the CRC. */
  lemma CheckIsHex(p: string, s: string)
    ensures s == Check(p) <==> IsHexOf(s, CrcValue(p))
  {
    hide CrcValue, UpperHex, HexValue;
    var v := CrcValue(p);
    CrcIsWord(p);
    Nibbles(v);
    var a, b, c, d := v / 4096 % 16, v / 256 % 16, v / 16 % 16, v % 16;
    UpperHexReads(a);
    UpperHexReads(b);
    UpperHexReads(c);
    UpperHexReads(d);
    if IsHexOf(s, v) {
      ValueBelow(s[0]);
      ValueBelow(s[1]);
      ValueBelow(s[2]);
      ValueBelow(s[3]);
      SameNibbles(HexValue(s[0]), HexValue(s[1]), HexValue(s[2]), HexValue(s[3]), v);
      HexUnique(s[0], UpperHex(a));
      HexUnique(s[1], UpperHex(b));
      HexUnique(s[2], UpperHex(c));
      HexUnique(s[3], UpperHex(d));
    }
  }

  lemma CrcIsWord(p: string)
    ensures CrcValue(p) < 0x1_0000
  {
  }

  lemma ValueBelow(c: char)
    ensures HexValue(c) < 16
  {
  }

  lemma Nibbles(v: nat)
    requires v < 0x1_0000
    ensures v == 0x1000 * (v / 4096 % 16) + 0x100 * (v / 256 % 16) + 0x10 * (v / 16 % 16) + v % 16
  {
    assert v / 256 == v / 16 / 16 && v / 4096 == v / 256 / 16;
  }

  lemma SameNibbles(a: nat, b: nat, c: nat, d: nat, v: nat)
    requires a < 16 && b < 16 && c < 16 && d < 16 && v == 0x1000 * a + 0x100 * b + 0x10 * c + d
    ensures a == v / 4096 % 16 && b == v / 256 % 16 && c == v / 16 % 16 && d == v % 16
  {
    LastNibble(0x100 * a + 0x10 * b + c, d);
    LastNibble(0x10 * a + b, c);
    LastNibble(a, b);
    assert v / 256 == v / 16 / 16 && v / 4096 == v / 256 / 16;
  }

  lemma LastNibble(q: nat, d: nat)
    requires d < 16
    ensures (0x10 * q + d) / 16 == q && (0x10 * q + d) % 16 == d
  {
  }

  // ---------------------------------------------------------------- a wrong check

  /** A frame whose check is any four characters. */
  function FrameWith(p: string, check: string): (f: string)
    requires |check| == 4
    ensures |f| == |p| + 12
  {
    "##" + LengthDigits(|p|) + p + check + "\r\n"
  }

  /** A clean receiver hands over a payload that the framing carries exactly if the four characters
      behind it are the digits of its CRC. */
  lemma CheckedExactly(r: Rx, p: string, check: string)
    requires r.Clean() && Carried(p) && |check| == 4
    ensures Payloads(Put(r, FrameWith(p, check)).1) == [p] <==> IsHexOf(check, CrcValue(p))
    ensures !IsHexOf(check, CrcValue(p)) ==> Put(r, FrameWith(p, check)).1 == []
  {
    hide Put, IsHexOf, Check;
    CheckIsHex(p, check);
    var f := FrameWith(p, check);
    if check == Check(p) {
      assert f == Frame(p);
      DeliveredExactly(r, p);
    } else if NoEnd(f, |f| - 1) {
      EndReached(r, p, check);
      assert Payloads([]) == [];
    } else {
      EndTooSoon(r, p, check);
      assert Payloads([]) == [];
    }
  }

  lemma EndReached(r: Rx, p: string, check: string)
    requires r.Clean() && Carried(p) && |check| == 4 && check != Check(p) && NoEnd(FrameWith(p, check), |p| + 11)
    ensures Put(r, FrameWith(p, check)).1 == []
  {
    hide Check, LengthDigits, LengthOf, Until, Judge, Put, NoEnd;
    var f := FrameWith(p, check);
    var n := |f|;
    assert f[..2] == "##";
    Collects(r, f, n - 1);
    PutBehind(r, f, Rx(f[..n - 1] + r.buffer[n - 1..], n - 1, true));
    LastOf(f, r.buffer);
    assert f[n - 2] == '\r' && f[n - 1] == '\n';
    JudgedWrong(p, check, r.buffer);
  }

  lemma JudgedWrong(p: string, check: string, buffer: string)
    requires 6 <= |p| && |p| + 12 < BUF_SIZE == |buffer| && |check| == 4 && check != Check(p)
    ensures Judge(FrameWith(p, check) + buffer[|p| + 12..], |p| + 12) == []
  {
    hide Check, LengthDigits, LengthOf, Until;
    var b := FrameWith(p, check) + buffer[|p| + 12..];
    assert b[6..|p| + 6] == p && b[|p| + 6..|p| + 10] == check;
  }

  /** A CR LF in the check ends the frame there, and too little follows for another. */
  lemma EndTooSoon(r: Rx, p: string, check: string)
    requires r.Clean() && Carried(p) && |check| == 4 && !NoEnd(FrameWith(p, check), |p| + 11)
    ensures Put(r, FrameWith(p, check)).1 == []
  {
    hide Check, LengthDigits, LengthOf, Until, Judge, Put, NoEnd, Carried;
    var f := FrameWith(p, check);
    var k := FirstEnd(f, |f| - 1);
    assert f[..2] == "##";
    CarriedLength(p);
    Collects(r, f, k - 1);
    var g := f[..k];
    assert g[..k - 1] == f[..k - 1] && g[k - 1] == f[k - 1] && g[k - 2] == f[k - 2];
    PutBehind(r, g, Rx(f[..k - 1] + r.buffer[k - 1..], k - 1, true));
    LastOf(g, r.buffer);
    JudgedCut(p, check, k, r.buffer);
    EndsLate(p, check, k);
    PutBoth(r, g, f[k..]);
    assert g + f[k..] == f;
    DeliversNoMore(Put(r, g).0, f[k..]);
    Nothing(Put(Put(r, g).0, f[k..]).1, 5);
  }

  lemma CarriedLength(p: string)
    requires Carried(p)
    ensures 6 <= |p| && |p| + 12 < BUF_SIZE
  {
  }

  lemma Nothing(out: seq<Package>, n: nat)
    requires n < 18 && forall q <- out :: 6 <= |q.payload| && |q.payload| + 12 <= n
    ensures out == []
  {
    if out != [] {
      FirstIn(out);
    }
  }

  lemma FirstIn(out: seq<Package>)
    requires out != []
    ensures out[0] in out
  {
  }

  lemma JudgedCut(p: string, check: string, k: nat, buffer: string)
    requires |check| == 4 && |p| + 12 < BUF_SIZE == |buffer| && 18 <= k < |p| + 12
    ensures Judge(FrameWith(p, check)[..k] + buffer[k..], k) == []
  {
    hide Check, LengthDigits, LengthOf, Until;
    var b := FrameWith(p, check)[..k] + buffer[k..];
    assert b[2..6] == FrameWith(p, check)[2..6] == LengthDigits(|p|);
    LengthRead(|p|);
  }

  /** Of a carried payload an early end lies in the check, or half in it. */
  lemma EndsLate(p: string, check: string, k: nat)
    requires Carried(p) && |check| == 4 && 18 <= k < |p| + 12 && EndsAt(FrameWith(p, check), k)
    ensures k >= |p| + 7
  {
    hide FrameWith;
    if k - 7 < |p| {
      PayloadBytes(p, check, k);
    }
  }

  lemma PayloadBytes(p: string, check: string, k: nat)
    requires |check| == 4 && 8 <= k < |p| + 7
    ensures FrameWith(p, check)[k - 2] == p[k - 8] && FrameWith(p, check)[k - 1] == p[k - 7]
  {
    hide LengthDigits;
  }

  // ---------------------------------------------------------------- what is handed over

  /** t is a segment of s. */
  ghost predicate Within(t: string, s: string) {
    exists i :: StandsAt(t, s, i)
  }

  predicate StandsAt(t: string, s: string, i: int) {
    0 <= i && i + |t| <= |s| && s[i..i + |t|] == t
  }

  /** What the receiver takes for a frame behind its first byte: any byte, four that read as the
      length, the payload, its check and CR LF. */
  ghost predicate FrameIn(q: string, s: string) {
    exists c: char, l: string :: |l| == 4 && LengthOf(l) == |q| && Within([c] + l + q + Check(q) + "\r\n", s)
  }

  /** The buffer behind its first byte holds the last bytes put. */
  predicate Tracks(r: Rx, s: string) {
    r.Valid() && (r.pos >= 1 ==> |s| >= r.pos - 1 && r.buffer[1..r.pos] == s[|s| - (r.pos - 1)..])
  }

  /** One byte: the buffer goes on tracking, and what is handed over is a frame that ends with it. */
  lemma StepTracks(r: Rx, s: string, c: char)
    requires Tracks(r, s)
    ensures Tracks(Step(r, c).0, s + [c])
    ensures forall q <- Step(r, c).1 :: FrameIn(q.payload, s + [c])
  {
    hide Judge, FrameIn;
    var b, n := r.buffer[r.pos := c], r.pos + 1;
    if n < BUF_SIZE && r.pos >= 1 {
      TracksMore(r.buffer, r.pos, s, c);
      if r.eom && n >= 18 && b[n - 2] == '\r' && b[n - 1] == '\n' {
        JudgeSound(b, n, s + [c]);
      }
    }
  }

  lemma TracksMore(b: string, pos: nat, s: string, c: char)
    requires 1 <= pos < |b| && |s| >= pos - 1 && b[1..pos] == s[|s| - (pos - 1)..]
    ensures b[pos := c][1..pos + 1] == (s + [c])[|s| + 1 - pos..]
  {
    assert b[pos := c][1..pos + 1] == b[1..pos] + [c];
  }

  lemma JudgeSound(b: string, n: nat, s: string)
    requires |b| == BUF_SIZE && 18 <= n < BUF_SIZE && |s| >= n - 1 && b[1..n] == s[|s| - (n - 1)..]
    requires b[n - 2] == '\r' && b[n - 1] == '\n'
    ensures forall q <- Judge(b, n) :: FrameIn(q.payload, s)
  {
    hide Check, LengthOf, Until;
    var p, l := b[6..n - 6], b[2..6];
    if Judge(b, n) != [] {
      var t := [b[1]] + l + p + Check(p) + "\r\n";
      assert b[1..n] == t by {
        assert b[1..n] == [b[1]] + b[2..6] + b[6..n - 6] + b[n - 6..n - 2] + [b[n - 2], b[n - 1]];
      }
      assert StandsAt(t, s, |s| - (n - 1));
    }
  }

  /** Whatever a receiver hands over of a stream stands in it, whole, in front of its own check. */
  lemma {:induction false} HandedStands(r: Rx, s: string)
    requires r.Clean()
    ensures Tracks(Put(r, s).0, s)
    ensures forall q <- Put(r, s).1 :: FrameIn(q.payload, s)
  {
    hide Step, FrameIn, Tracks;
    if s == [] {
      CleanTracks(r);
    } else {
      var t, c := s[..|s| - 1], s[|s| - 1];
      assert s == t + [c];
      HandedStands(r, t);
      StepTracks(Put(r, t).0, t, c);
      forall q <- Put(r, t).1 ensures FrameIn(q.payload, s) {
        FrameStays(q.payload, t, [c]);
      }
    }
  }

  lemma CleanTracks(r: Rx)
    requires r.Clean()
    ensures Tracks(r, [])
  {
  }

  lemma FrameStays(q: string, s: string, u: string)
    requires FrameIn(q, s)
    ensures FrameIn(q, s + u)
  {
    hide Check, LengthOf;
    var c: char, l: string :| |l| == 4 && LengthOf(l) == |q| && Within([c] + l + q + Check(q) + "\r\n", s);
    var t := [c] + l + q + Check(q) + "\r\n";
    var i :| StandsAt(t, s, i);
    assert (s + u)[i..i + |t|] == s[i..i + |t|];
    assert StandsAt(t, s + u, i);
  }

  // ---------------------------------------------------------------- frames without a whole head

  /** Bytes between the two of a head are lost without a trace: the frame is taken all the same. */
  lemma {:induction false} HeadApart(r: Rx, j: string, p: string)
    requires r.Valid() && !r.eom && r.pos == 1 && r.buffer[0] == '#' && Carried(p) && '#' !in j
    ensures Payloads(Put(r, j + Frame(p)[1..]).1) == [p]
    decreases |j|
  {
    hide Put, Step, Judge, Check, LengthDigits, Carried;
    if j == [] {
      assert j + Frame(p)[1..] == Frame(p)[1..];
      SecondHalf(r, p);
    } else {
      JunkLost(r, j[0]);
      var r1 := Step(r, j[0]).0;
      HeadApart(r1, j[1..], p);
      PutOne(r, j[0]);
      PutBoth(r, [j[0]], j[1..] + Frame(p)[1..]);
      assert j + Frame(p)[1..] == [j[0]] + (j[1..] + Frame(p)[1..]);
      assert [] + Put(r1, j[1..] + Frame(p)[1..]).1 == Put(r1, j[1..] + Frame(p)[1..]).1;
    }
  }

  lemma JunkLost(r: Rx, c: char)
    requires r.Valid() && !r.eom && r.pos == 1 && r.buffer[0] == '#' && c != '#'
    ensures var (r1, out) := Step(r, c);
            out == [] && !r1.eom && r1.pos == 1 && r1.buffer[0] == '#'
  {
    var b := r.buffer[1 := c];
    assert b[..2][1] == c && b[..2] != "##";
  }

  lemma SecondHalf(r: Rx, p: string)
    requires r.Valid() && !r.eom && r.pos == 1 && r.buffer[0] == '#' && Carried(p)
    ensures Payloads(Put(r, Frame(p)[1..]).1) == [p]
  {
    hide Put, Judge, Check, LengthDigits, Carried;
    var c := Rx(r.buffer, 0, false);
    assert r.buffer[0 := '#'] == r.buffer;
    assert Step(c, '#') == (r, []);
    DeliveredExactly(c, p);
    PutOne(c, '#');
    PutBoth(c, "#", Frame(p)[1..]);
    assert Frame(p) == "#" + Frame(p)[1..];
    assert [] + Put(r, Frame(p)[1..]).1 == Put(r, Frame(p)[1..]).1;
  }

  /** A frame that fills the buffer without an end leaves the receiver waiting for an end at the
      start of the buffer: the next frame is taken whatever stands for its head. */
  lemma Headless(r: Rx, h: string, p: string)
    requires r.Valid() && r.eom && r.pos == 0 && |h| == 2 && Carried(p)
    ensures Payloads(Put(r, h + Frame(p)[2..]).1) == [p]
  {
    hide Put, Check, LengthDigits, LengthOf, Until, Judge, NoEnd, Frame, Carried;
    var f := h + Frame(p)[2..];
    var n := |f|;
    CarriedLength(p);
    NoEndBehind(h, p);
    CollectsOn(r, f, n - 1);
    PutBehind(r, f, Rx(f[..n - 1] + r.buffer[n - 1..], n - 1, true));
    LastOf(f, r.buffer);
    FrameEnds(p);
    assert f[n - 2] == '\r' && f[n - 1] == '\n';
    JudgedHeadless(r, h, p);
    OnePayload(Handed(r, p));
  }

  lemma NoEndBehind(h: string, p: string)
    requires |h| == 2 && Carried(p)
    ensures NoEnd(h + Frame(p)[2..], |p| + 11)
  {
    hide Frame;
    FrameHasNoEnd(p);
    var f := h + Frame(p)[2..];
    forall j | 18 <= j <= |p| + 11 ensures !EndsAt(f, j) {
      assert !EndsAt(Frame(p), j);
      assert f[j - 2] == Frame(p)[j - 2] && f[j - 1] == Frame(p)[j - 1];
    }
  }

  lemma {:induction false} CollectsOn(r: Rx, f: string, n: nat)
    requires r.Valid() && r.eom && r.pos == 0 && n <= |f| && n < BUF_SIZE && NoEnd(f, n)
    ensures Put(r, f[..n]) == (Rx(f[..n] + r.buffer[n..], n, true), [])
  {
    hide Judge, Step, Put, NoEnd;
    if n == 0 {
      assert f[..0] + r.buffer[0..] == r.buffer && f[..0] == [];
      NothingPut(r);
    } else {
      NoEndBefore(f, n);
      CollectsOn(r, f, n - 1);
      var b := f[..n - 1] + r.buffer[n - 1..];
      assert f[..n][..n - 1] == f[..n - 1];
      PutBehind(r, f[..n], Rx(b, n - 1, true));
      assert b[n - 1 := f[n - 1]] == f[..n] + r.buffer[n..];
      StepInFrame(b, n - 1, f[n - 1]);
    }
  }

  lemma NoEndBefore(f: string, n: nat)
    requires NoEnd(f, n) && 0 < n <= |f|
    ensures NoEnd(f, n - 1) && (n >= 18 ==> !(f[n - 2] == '\r' && f[n - 1] == '\n'))
  {
    assert n >= 18 ==> !EndsAt(f, n);
  }

  lemma StepInFrame(b: string, m: nat, c: char)
    requires |b| == BUF_SIZE && m + 1 < BUF_SIZE && (m >= 17 ==> !(b[m - 1] == '\r' && c == '\n'))
    ensures Step(Rx(b, m, true), c) == (Rx(b[m := c], m + 1, true), [])
  {
    hide Judge;
  }

  lemma JudgedHeadless(r: Rx, h: string, p: string)
    requires r.Valid() && |h| == 2 && 6 <= |p| && |p| + 12 < BUF_SIZE
    ensures Judge(h + Frame(p)[2..] + r.buffer[|p| + 12..], |p| + 12) == [Handed(r, p)]
  {
    hide Check, LengthDigits, LengthOf, Until;
    var b, b' := h + Frame(p)[2..] + r.buffer[|p| + 12..], Frame(p) + r.buffer[|p| + 12..];
    JudgedWhole(r, p);
    assert b[6..] == b'[6..];
    assert b[2..6] == b'[2..6] && b[6..|p| + 6] == b'[6..|p| + 6] && b[|p| + 6..|p| + 10] == b'[|p| + 6..|p| + 10];
  }

  function Xs(n: nat): (s: string)
    ensures |s| == n && forall i | 0 <= i < n :: s[i] == 'x'
  {
    seq(n, _ => 'x')
  }

  /** Such a state is reached: a head and as many bytes as the buffer holds. */
  lemma LosesItsHead(r: Rx)
    requires r.Clean()
    ensures var w := Put(r, "##" + Xs(BUF_SIZE - 2)).0; w.Valid() && w.eom && w.pos == 0
  {
    hide Put, Judge, Xs;
    var f := "##" + Xs(BUF_SIZE - 2);
    var n := BUF_SIZE - 1;
    assert f[..2] == "##";
    assert NoEnd(f, n);
    Collects(r, f, n);
    assert f[..|f| - 1] == f[..n];
    PutBehind(r, f, Rx(f[..n] + r.buffer[n..], n, true));
  }

  // ---------------------------------------------------------------- known values

  /** Digits in base ten, the last counting once. */
  function Decimal(s: string): int {
    if s == "" then 0 else 10 * Decimal(s[..|s| - 1]) + (s[|s| - 1] as int - '0' as int)
  }

  /** The length field of a frame is a decimal number, the highest digit first. */
  lemma LengthIsDecimal(n: nat)
    requires n < 10000
    ensures Decimal(LengthDigits(n)) == n
  {
    hide LengthDigits;
    var s := LengthDigits(n);
    LengthRead(n);
    DecimalOfFour(s);
  }

  lemma DecimalOfFour(s: string)
    requires |s| == 4
    ensures Decimal(s) == LengthOf(s)
  {
    assert s[..3][..2] == s[..2] && s[..2][..1] == s[..1] && s[..1][..0] == "";
    assert Decimal(s[..1]) == s[0] as int - '0' as int;
    assert Decimal(s[..2]) == 10 * Decimal(s[..1]) + (s[1] as int - '0' as int);
    assert Decimal(s[..3]) == 10 * Decimal(s[..2]) + (s[2] as int - '0' as int);
  }

  lemma CrcStep(s: string, k: nat, d: bv16)
    requires k < |s| && ShiftBy8(Feed(Crc(s[..k]) >> 8, Byte(s[k]))) == d
    ensures Crc(s[..k + 1]) == d
  {
    assert s[..k + 1][..k] == s[..k];
  }

  lemma NoBytes()
    ensures Crc("") == 0xFFFF
  {
  }

  /** The loops of hjt212_GetCrc16 on the three bytes 31 32 33, by hand. */
  lemma KnownValue(s: string)
    requires |s| == 3 && Byte(s[0]) == 0x31 && Byte(s[1]) == 0x32 && Byte(s[2]) == 0x33
    ensures Crc(s) == 0xF6C1
  {
    hide Crc, Byte;
    assert s[..0] == "" && s[..3] == s;
    NoBytes();
    CrcStep(s, 0, 0x9481);
    CrcStep(s, 1, 0x7A80);
    CrcStep(s, 2, 0xF6C1);
  }
}
