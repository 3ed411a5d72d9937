/**
 The padding of both hashes and the words they take from it and give back, told by reading them: bytes as
 numbers in either order, and what a padded message says about the message.
 */
module HashPadding {
  import opened Blocks
  import opened Common
  import Md5
  import Sha1

  /** Bytes as a number, low byte first. */
  function LittleEndian(s: seq<byte>): nat {
    if s == [] then 0 else s[0] + 256 * LittleEndian(s[1..])
  }

  /** Bytes as a number, high byte first. */
  function BigEndian(s: seq<byte>): nat {
    if s == [] then 0 else 256 * BigEndian(s[..|s| - 1]) + s[|s| - 1]
  }

  /** p is m, the byte 0x80, and as few zeros as make whole blocks with eight bytes at the end. */
  predicate Pads(p: seq<byte>, m: seq<byte>) {
    && |p| % 64 == 0
    && |m| + 9 <= |p| < |m| + 73
    && p[..|m|] == m
    && p[|m|] == 0x80
    && forall i | |m| < i < |p| - 8 :: p[i] == 0
  }

  lemma FillPads(m: seq<byte>, tail: seq<byte>)
    requires |tail| == 8
    ensures Pads(m + Fill(|m|) + tail, m) && (m + Fill(|m|) + tail)[|m + Fill(|m|)|..] == tail
  {
    var f := Fill(|m|);
    var p := m + f + tail;
    assert p[..|m|] == m;
    assert p[|m|] == f[0];
    forall i | |m| < i < |p| - 8 ensures p[i] == 0 {
      assert p[i] == f[i - |m|];
    }
  }

  // ---------------------------------------------------------------- MD5

  lemma LowRead(w: word)
    ensures LittleEndian(Md5.Low(w, 4)) == w
  {
    hide Md5.Low, LittleEndian;
    Md5.LowFour(w);
    FourBytes(Md5.Low(w, 4));
    Md5.SumOfBytes(w);
  }

  /** 256^n. */
  function Power(n: nat): nat
    ensures Power(n) > 0
  {
    if n == 0 then 1 else 256 * Power(n - 1)
  }

  lemma {:induction false} LittleJoins(s: seq<byte>, t: seq<byte>)
    ensures LittleEndian(s + t) == LittleEndian(s) + Power(|s|) * LittleEndian(t)
  {
    if s == [] {
      assert s + t == t;
    } else {
      LittleJoins(s[1..], t);
      assert (s + t)[1..] == s[1..] + t;
      assert 256 * (Power(|s| - 1) * LittleEndian(t)) == Power(|s|) * LittleEndian(t);
    }
  }

  lemma Powers()
    ensures Power(4) == WORD && Power(8) == WORD * WORD
  {
    assert Power(1) == 256 && Power(2) == 0x1_0000 && Power(3) == 0x100_0000;
    assert Power(4) == WORD;
    assert Power(5) == 256 * WORD && Power(6) == 0x1_0000 * WORD && Power(7) == 0x100_0000 * WORD;
  }

  lemma TwoWords(v: nat)
    ensures v % WORD + WORD * (v / WORD % WORD) == v % (WORD * WORD)
  {
    var a := v / WORD;
    Divided(a, a / WORD, a % WORD);
    Divided(v, a, v % WORD);
    LongRemainder(v, a / WORD, WORD * (a % WORD) + v % WORD);
  }

  lemma Divided(v: nat, q: nat, r: nat)
    requires q == v / WORD && r == v % WORD
    ensures v == WORD * q + r && r < WORD
  {
  }

  lemma LongRemainder(v: nat, q: nat, r: nat)
    requires v == q * (WORD * WORD) + r && r < WORD * WORD
    ensures v % (WORD * WORD) == r
  {
  }

  /** A message padded for MD5: the last eight bytes, low byte first, are its length in bits mod 2^64. */
  lemma Md5Pads(m: seq<byte>)
    ensures var p := Md5.Padded(m);
            Pads(p, m) && LittleEndian(p[|p| - 8..]) == 8 * |m| % (WORD * WORD)
  {
    hide Fill, LittleEndian, Md5.Low, Power, Pads;
    var n := 8 * |m|;
    var low, high := Md5.Low(n % WORD, 4), Md5.Low(n / WORD % WORD, 4);
    FillPads(m, low + high);
    LowRead(n % WORD);
    LowRead(n / WORD % WORD);
    Powers();
    LittleJoins(low, high);
    TwoWords(n);
  }

  /** So messages of less than 2^61 bytes with the same padding are the same. */
  lemma Md5PadsApart(m: seq<byte>, m': seq<byte>)
    requires 8 * |m| < WORD * WORD && 8 * |m'| < WORD * WORD && Md5.Padded(m) == Md5.Padded(m')
    ensures m == m'
  {
    hide LittleEndian, Md5.Padded;
    Md5Pads(m);
    Md5Pads(m');
    assert 8 * |m| % (WORD * WORD) == 8 * |m|;
    assert 8 * |m'| % (WORD * WORD) == 8 * |m'|;
  }

  /** The words of a block are its bytes by four, low byte first. */
  lemma {:induction false} WordsRead(s: seq<byte>, i: nat)
    requires |s| % 4 == 0 && 4 * i + 4 <= |s|
    ensures Md5.Words(s)[i] == LittleEndian(s[4 * i..4 * i + 4])
  {
    if i == 0 {
      FourBytes(s[..4]);
      assert s[0..4] == s[..4];
    } else {
      WordsRead(s[4..], i - 1);
      assert s[4..][4 * (i - 1)..4 * (i - 1) + 4] == s[4 * i..4 * i + 4];
    }
  }

  lemma FourBytes(s: seq<byte>)
    requires |s| == 4
    ensures LittleEndian(s) == ToInt(s[3], s[2], s[1], s[0]) && BigEndian(s) == ToInt(s[0], s[1], s[2], s[3])
  {
    assert s[1..][1..] == s[2..] && s[2..][1..] == s[3..] && s[3..][1..] == [];
    assert LittleEndian(s[3..]) == ToInt(0, 0, 0, s[3]);
    assert LittleEndian(s[2..]) == ToInt(0, 0, s[3], s[2]);
    assert LittleEndian(s[1..]) == ToInt(0, s[3], s[2], s[1]);
    assert s[..3][..2] == s[..2] && s[..2][..1] == s[..1] && s[..1][..0] == [];
    assert BigEndian(s[..1]) == ToInt(0, 0, 0, s[0]);
    assert BigEndian(s[..2]) == ToInt(0, 0, s[0], s[1]);
    assert BigEndian(s[..3]) == ToInt(0, s[0], s[1], s[2]);
  }

  function ToInt(b3: int, b2: int, b1: int, b0: int): int {
    0x100_0000 * b3 + 0x1_0000 * b2 + 0x100 * b1 + b0
  }

  /** The digest is the four chaining words over the blocks of the padded message, low byte first. */
  lemma Md5DigestRead(f: Md5.Transformer, m: seq<byte>)
    ensures var d, p := Md5.Digest(f, m), Md5.Padded(m);
            var b := Md5.Chain(f, p, |p| / 64);
            && LittleEndian(d[..4]) == b.a && LittleEndian(d[4..8]) == b.b
            && LittleEndian(d[8..12]) == b.c && LittleEndian(d[12..]) == b.d
  {
    hide Md5.Padded, Md5.Chain, Md5.Low, LittleEndian, Power;
    var p := Md5.Padded(m);
    var b := Md5.Chain(f, p, |p| / 64);
    var d := Md5.Digest(f, m);
    assert d[..4] == Md5.Low(b.a, 4) && d[4..8] == Md5.Low(b.b, 4) && d[8..12] == Md5.Low(b.c, 4) && d[12..] == Md5.Low(b.d, 4);
    LowRead(b.a);
    LowRead(b.b);
    LowRead(b.c);
    LowRead(b.d);
    Powers();
  }

  // ---------------------------------------------------------------- SHA-1

  lemma HighRead(w: word)
    ensures BigEndian(Sha1.High(w)) == w
  {
    FourBytes(Sha1.High(w));
    Md5.SumOfBytes(w);
  }

  lemma {:induction false} BigJoins(s: seq<byte>, t: seq<byte>)
    ensures BigEndian(s + t) == Power(|t|) * BigEndian(s) + BigEndian(t)
  {
    if t == [] {
      assert s + t == s;
    } else {
      var u := t[..|t| - 1];
      BigJoins(s, u);
      assert (s + t)[..|s + t| - 1] == s + u;
      assert 256 * (Power(|u|) * BigEndian(s)) == Power(|t|) * BigEndian(s);
    }
  }

  /** A message padded for SHA-1: the last eight bytes, high byte first, are its length in bits. */
  lemma Sha1Pads(m: seq<byte>)
    requires |m| < Sha1.MAX
    ensures var p := Sha1.Padded(m);
            Pads(p, m) && BigEndian(p[|p| - 8..]) == 8 * |m|
  {
    hide Fill, BigEndian, Sha1.High, Power, Pads;
    var n := 8 * |m|;
    var high, low := Sha1.High(n / WORD), Sha1.High(n % WORD);
    FillPads(m, high + low);
    HighRead(n / WORD);
    HighRead(n % WORD);
    Powers();
    BigJoins(high, low);
  }

  lemma Sha1PadsApart(m: seq<byte>, m': seq<byte>)
    requires |m| < Sha1.MAX && |m'| < Sha1.MAX && Sha1.Padded(m) == Sha1.Padded(m')
    ensures m == m'
  {
    hide BigEndian, Sha1.Padded;
    Sha1Pads(m);
    Sha1Pads(m');
  }

  /** The digest is the five chaining words over the blocks of the padded message, high byte first. */
  lemma Sha1DigestRead(f: Sha1.Transformer, m: seq<byte>)
    requires |m| < Sha1.MAX
    ensures var d, p := Sha1.Digest(f, m), Sha1.Padded(m);
            var h := Fold(f, Sha1.INIT, p, |p| / 64);
            && BigEndian(d[..4]) == h.h0 && BigEndian(d[4..8]) == h.h1 && BigEndian(d[8..12]) == h.h2
            && BigEndian(d[12..16]) == h.h3 && BigEndian(d[16..]) == h.h4
  {
    hide Sha1.Padded, Fold, Sha1.High, BigEndian;
    var p := Sha1.Padded(m);
    var h := Fold(f, Sha1.INIT, p, |p| / 64);
    var d := Sha1.Digest(f, m);
    assert d[..4] == Sha1.High(h.h0) && d[4..8] == Sha1.High(h.h1) && d[8..12] == Sha1.High(h.h2)
        && d[12..16] == Sha1.High(h.h3) && d[16..] == Sha1.High(h.h4);
    HighRead(h.h0);
    HighRead(h.h1);
    HighRead(h.h2);
    HighRead(h.h3);
    HighRead(h.h4);
  }
}
