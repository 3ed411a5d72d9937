/**
 The streaming part of sdccp/cc_md5.c, and of reg/rtu_md5.c, which has the same Init, Update and
 Final.  The block transform is a parameter here; Md5Transform.dfy opens it.
 */
module Md5 {
  import opened Common
  import opened Blocks

  /** The chaining words buf[0] to buf[3]. */
  datatype Buf = Buf(a: word, b: word, c: word, d: word)

  const INIT: Buf := Buf(0x67452301, 0xefcdab89, 0x98badcfe, 0x10325476)

  /** Transform(buf, in) as a function of buf and the sixteen words in. */
  type Transformer = (Buf, seq<word>) -> Buf

  // ---------------------------------------------------------------- RFC 1321

  /** Words of four bytes, low byte first. */
  function Words(s: seq<byte>): (w: seq<word>)
    requires |s| % 4 == 0
    ensures |w| == |s| / 4
  {
    if s == [] then [] else [Join(s[3], s[2], s[1], s[0])] + Words(s[4..])
  }

  /** A number as n bytes, low byte first. */
  function Low(v: nat, n: nat): (s: seq<byte>)
    ensures |s| == n
  {
    if n == 0 then [] else [v % 256] + Low(v / 256, n - 1)
  }

  /** The length in bits mod 2^64 as two words, low word first. */
  function BitLength(n: nat): (s: seq<byte>)
    ensures |s| == 8
  {
    Low(8 * n % WORD, 4) + Low(8 * n / WORD % WORD, 4)
  }

  /** Sections 3.1 and 3.2: 0x80, zeros, and the length. */
  function Padded(m: seq<byte>): (p: seq<byte>)
    ensures |p| % 64 == 0
  {
    m + Fill(|m|) + BitLength(|m|)
  }

  function OnBlock(f: Transformer): (Buf, seq<byte>) -> Buf {
    (b, block) => if |block| == 64 then f(b, Words(block)) else b
  }

  function Chain(f: Transformer, s: seq<byte>, n: nat): Buf
    requires 64 * n <= |s|
  {
    Fold(OnBlock(f), INIT, s, n)
  }

  /** Sections 3.4 and 3.5: the chaining words over the padded message, low byte first. */
  function Digest(f: Transformer, m: seq<byte>): (d: seq<byte>)
    ensures |d| == 16
  {
    var p := Padded(m);
    var b := Chain(f, p, |p| / 64);
    Low(b.a, 4) + Low(b.b, 4) + Low(b.c, 4) + Low(b.d, 4)
  }

  // ---------------------------------------------------------------- counter arithmetic

  /** The carry and the shifts of CC_MD5Update add len bytes to a bit count of 64 bits. */
  lemma CounterAdds(n: nat, len: nat)
    requires len < WORD
    ensures
      var lo, hi := 8 * n % WORD, 8 * n / WORD % WORD;
      var sum := (lo + 8 * len % WORD) % WORD;
      && sum == 8 * (n + len) % WORD
      && ((if sum < lo then (hi + 1) % WORD else hi) + len / 0x2000_0000) % WORD == 8 * (n + len) / WORD % WORD
  {
    var lo, q := 8 * n % WORD, 8 * n / WORD;
    var r, h := 8 * len % WORD, len / 0x2000_0000;
    assert 8 * len == h * WORD + r;
    assert 8 * n == q * WORD + lo;
    var carry := if lo + r >= WORD then 1 else 0;
    assert 8 * (n + len) == (q + h + carry) * WORD + (lo + r - carry * WORD);
    Quotient(8 * (n + len), q + h + carry, lo + r - carry * WORD);
    Quotient(lo + r, carry, lo + r - carry * WORD);
    ModAdd(q, carry, h);
  }

  lemma ModAdd(q: nat, carry: nat, h: nat)
    requires carry <= 1
    ensures ((if carry == 1 then (q % WORD + 1) % WORD else q % WORD) + h) % WORD == (q + h + carry) % WORD
  {
    var x, k := q % WORD, q / WORD;
    assert q == k * WORD + x;
    if carry == 1 && x + 1 == WORD {
      assert q + h + carry == (k + 1) * WORD + h;
    } else {
      assert q + h + carry == k * WORD + (x + carry + h);
    }
  }

  lemma BytesInBlock(n: nat)
    ensures 8 * n % WORD / 8 % 64 == n % 64
  {
    var q := 8 * n / WORD;
    assert 8 * n % WORD == 8 * (n - q * 0x2000_0000);
    assert n == (n - q * 0x2000_0000) + 64 * (q * 0x80_0000);
  }

  lemma LowFour(w: word)
    ensures Low(w, 4) == [w % 256, w / 0x100 % 256, w / 0x1_0000 % 256, w / 0x100_0000 % 256]
  {
    var w1 := w / 256;
    var w2 := w1 / 256;
    var w3 := w2 / 256;
    assert w2 == w / 0x1_0000 && w3 == w / 0x100_0000;
    assert Low(w3 / 256, 0) == [] && Low(w3, 1) == [w3 % 256];
    assert Low(w2, 2) == [w2 % 256] + Low(w3, 1);
    assert Low(w1, 3) == [w1 % 256] + Low(w2, 2);
    assert Low(w, 4) == [w % 256] + Low(w1, 3);
  }

  lemma OneWord(a: byte, b: byte, c: byte, d: byte)
    ensures Words([a, b, c, d]) == [0x100_0000 * d + 0x1_0000 * c + 0x100 * b + a]
  {
    assert [a, b, c, d][4..] == [];
  }

  lemma LowWord(w: word)
    ensures Words(Low(w, 4)) == [w]
  {
    hide Low, Words;
    LowFour(w);
    SumOfBytes(w);
    OneWord(w % 256, w / 0x100 % 256, w / 0x1_0000 % 256, w / 0x100_0000 % 256);
  }

  lemma SumOfBytes(w: word)
    ensures 0x100_0000 * (w / 0x100_0000 % 256) + 0x1_0000 * (w / 0x1_0000 % 256) + 0x100 * (w / 0x100 % 256) + w % 256 == w
  {
    assert w / 0x1_0000 == w / 0x100 / 0x100 && w / 0x100_0000 == w / 0x1_0000 / 0x100;
  }

  lemma {:induction false} WordsBoth(s: seq<byte>, t: seq<byte>)
    requires |s| % 4 == 0 && |t| % 4 == 0
    ensures Words(s + t) == Words(s) + Words(t)
  {
    hide Words, Join;
    WordsFirst(s);
    if s == [] {
      assert s + t == t && [] + Words(t) == Words(t);
    } else {
      WordsBoth(s[4..], t);
      WordsFirst(s + t);
      var w := [Join(s[3], s[2], s[1], s[0])];
      assert (s + t)[4..] == s[4..] + t;
      assert w + Words(s[4..]) + Words(t) == w + (Words(s[4..]) + Words(t));
    }
  }

  lemma WordsFirst(s: seq<byte>)
    requires |s| % 4 == 0
    ensures Words(s) == if s == [] then [] else [Join(s[3], s[2], s[1], s[0])] + Words(s[4..])
  {
  }

  // ---------------------------------------------------------------- the context

  /** Mirrors CC_MD5_CTX; message is what has been fed in so far. */
  class Context {
    const transform: Transformer
    const input: array<byte>
    const digest: array<byte>
    var lo: word
    var hi: word
    var buf: Buf
    ghost var message: seq<byte>

    /** The counter is the bit length mod 2^64, whole blocks are in buf, the rest in input. */
    ghost predicate Valid()
      reads this, input
    {
      && input.Length == 64 && digest.Length == 16 && input != digest
      && lo == 8 * |message| % WORD && hi == 8 * |message| / WORD % WORD
      && Holds(message)
    }

    /** Whole blocks of m are in buf, the rest in input. */
    ghost predicate Holds(m: seq<byte>)
      requires input.Length == 64
      reads this`buf, input
    {
      buf == Chain(transform, m, |m| / 64) && input[..|m| % 64] == m[|m| / 64 * 64..]
    }

    /** CC_MD5Init. */
    constructor (f: Transformer)
      ensures Valid() && transform == f && message == [] && fresh(input) && fresh(digest)
    {
      transform := f;
      input, digest := new byte[64], new byte[16];
      lo, hi, buf, message := 0, 0, INIT, [];
    }

    /** The loop body of CC_MD5Update. */
    method Absorb(c: byte, mdi: nat, ghost m: seq<byte>) returns (next: nat)
      requires input.Length == 64 && Holds(m) && mdi == |m| % 64
      modifies this`buf, input
      ensures Holds(m + [c]) && next == (|m| + 1) % 64
    {
      hide Fold, Words;
      ghost var n, rest := |m| / 64, input[..mdi];
      input[mdi] := c;
      next := mdi + 1;
      FoldPrefix(OnBlock(transform), INIT, m, [c], n);
      assert input[..mdi + 1] == rest + [c];
      assert m == m[..n * 64] + rest;
      assert (m + [c])[n * 64..] == rest + [c];
      if next == 64 {
        buf := transform(buf, Words(input[..]));
        FoldNext(OnBlock(transform), INIT, m + [c], n);
        assert (m + [c])[64 * n..64 * n + 64] == input[..];
        next := 0;
        assert |m + [c]| / 64 == n + 1;
        assert (m + [c])[(n + 1) * 64..] == [];
      }
    }

    /** CC_MD5Update. */
    method Update(s: seq<byte>)
      requires Valid() && |s| < WORD
      modifies this, input
      ensures Valid() && message == old(message) + s
    {
      hide Holds;
      BytesInBlock(|message|);
      CounterAdds(|message|, |s|);
      ghost var m := message;
      var mdi := lo / 8 % 64;
      if (lo + 8 * |s| % WORD) % WORD < lo {
        hi := (hi + 1) % WORD;
      }
      lo := (lo + 8 * |s| % WORD) % WORD;
      hi := (hi + |s| / 0x2000_0000) % WORD;
      assert m + s[..0] == m;
      for i := 0 to |s|
        invariant input.Length == 64 && Holds(m + s[..i]) && mdi == |m + s[..i]| % 64
        invariant lo == 8 * (|m| + |s|) % WORD && hi == 8 * (|m| + |s|) / WORD % WORD
      {
        assert m + s[..i + 1] == m + s[..i] + [s[i]];
        mdi := Absorb(s[i], mdi, m + s[..i]);
      }
      assert s[..|s|] == s;
      message := m + s;
    }

    /** CC_MD5Final: the digest of RFC 1321 of everything fed in. */
    method Final()
      requires Valid()
      modifies this, input, digest
      ensures digest[..] == Digest(transform, old(message))
    {
      hide Holds, Chain, Words, Fold, Low;
      ghost var m := message;
      var lo0, hi0 := lo, hi;
      BytesInBlock(|m|);
      var mdi := lo / 8 % 64;
      var padLen := if mdi < 56 then 56 - mdi else 120 - mdi;
      var padding := ([0x80] + Zeros(63))[..padLen];
      assert padding == Fill(|m|);
      Update(padding);
      buf := LastBlock(lo0, hi0, m);
      Store();
    }

    /** buf into digest. */
    method Store()
      requires digest.Length == 16
      modifies digest
      ensures digest[..] == Low(buf.a, 4) + Low(buf.b, 4) + Low(buf.c, 4) + Low(buf.d, 4)
    {
      hide Low;
      var words := [buf.a, buf.b, buf.c, buf.d];
      for i := 0 to 4
        invariant forall k | 0 <= k < i :: digest[4 * k..4 * k + 4] == Low(words[k], 4)
      {
        LowFour(words[i]);
        digest[4 * i] := words[i] % 256;
        digest[4 * i + 1] := words[i] / 0x100 % 256;
        digest[4 * i + 2] := words[i] / 0x1_0000 % 256;
        digest[4 * i + 3] := words[i] / 0x100_0000 % 256;
      }
      assert words[0] == buf.a && words[1] == buf.b && words[2] == buf.c && words[3] == buf.d;
      assert digest[..] == digest[0..4] + digest[4..8] + digest[8..12] + digest[12..16];
    }

    /** The last Transform of CC_MD5Final, on fourteen words of input and the saved counter. */
    method LastBlock(lo0: word, hi0: word, ghost m: seq<byte>) returns (b: Buf)
      requires input.Length == 64 && lo0 == 8 * |m| % WORD && hi0 == 8 * |m| / WORD % WORD && Holds(m + Fill(|m|))
      ensures b == Chain(transform, Padded(m), |Padded(m)| / 64)
    {
      hide Fold, Words, Low;
      ghost var p, v := m + Fill(|m|), BitLength(|m|);
      ghost var n := |p| / 64;
      assert input[..56] == p[64 * n..];
      b := transform(buf, Words(input[..56]) + [lo0, hi0]);
      FoldPrefix(OnBlock(transform), INIT, p, v, n);
      FoldNext(OnBlock(transform), INIT, Padded(m), n);
      ghost var block := Padded(m)[64 * n..64 * n + 64];
      assert block == input[..56] + v;
      LowWord(lo0);
      LowWord(hi0);
      WordsBoth(Low(lo0, 4), Low(hi0, 4));
      WordsBoth(input[..56], v);
      assert [lo0] + [hi0] == [lo0, hi0];
      assert Words(block) == Words(input[..56]) + [lo0, hi0];
    }
  }

  /** For every message and every split of it into calls of CC_MD5Update. */
  method Sum(f: Transformer, chunks: seq<seq<byte>>) returns (d: seq<byte>)
    requires forall i | 0 <= i < |chunks| :: |chunks[i]| < WORD
    ensures d == Digest(f, Concat(chunks))
  {
    hide Digest, Context.Holds, Concat;
    NoChunks<byte>();
    var ctx := new Context(f);
    assert chunks[..0] == [];
    for i := 0 to |chunks|
      invariant ctx.Valid() && ctx.transform == f && ctx.message == Concat(chunks[..i])
      invariant fresh(ctx) && fresh(ctx.input) && fresh(ctx.digest)
    {
      ctx.Update(chunks[i]);
      ConcatNext(chunks, i);
    }
    assert chunks[..|chunks|] == chunks;
    ctx.Final();
    d := ctx.digest[..];
  }
}
