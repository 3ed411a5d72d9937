/**
 The streaming part of reg/rtu_sha.c.  The block transform is a parameter.  The initial chaining
 words are the repository's own, not those of FIPS 180-4.
 */
module Sha1 {
  import opened Common
  import opened Bits
  import opened Blocks

  datatype State = State(h0: word, h1: word, h2: word, h3: word, h4: word)

  const INIT: State := State(0x124a5cbf, 0x36edb5fc, 0xf5d7810a, 0x25864753, 0xadcfedbe)

  /** transform(hd, data) as a function of h0 to h4 and 64 bytes. */
  type Transformer = (State, seq<byte>) -> State

  const MAX: nat := 64 * WORD   // fewer than 2^32 blocks

  // ---------------------------------------------------------------- FIPS 180-4

  /** A word, high byte first. */
  function High(w: word): (s: seq<byte>)
    ensures |s| == 4
  {
    [w / 0x100_0000 % 256, w / 0x1_0000 % 256, w / 0x100 % 256, w % 256]
  }

  /** The length in bits as two words, high word first. */
  function BitLength(n: nat): (s: seq<byte>)
    requires n < MAX
    ensures |s| == 8
  {
    High(8 * n / WORD) + High(8 * n % WORD)
  }

  /** Section 5.1.1: 0x80, zeros, and the length. */
  function Padded(m: seq<byte>): (p: seq<byte>)
    requires |m| < MAX
    ensures |p| % 64 == 0
  {
    m + Fill(|m|) + BitLength(|m|)
  }

  /** The chaining words over the padded message, high byte first. */
  function Digest(f: Transformer, m: seq<byte>): (d: seq<byte>)
    requires |m| < MAX
    ensures |d| == 20
  {
    var p := Padded(m);
    Bytes(Fold(f, INIT, p, |p| / 64))
  }

  function Bytes(h: State): (d: seq<byte>)
    ensures |d| == 20
  {
    High(h.h0) + High(h.h1) + High(h.h2) + High(h.h3) + High(h.h4)
  }

  // ---------------------------------------------------------------- the bit count

  /** The two words that rtu_sha1_final computes from nblocks and count are the length in bits. */
  method BitCount(nblocks: word, count: nat) returns (msb: word, lsb: word)
    requires count < 64
    ensures msb == 8 * (64 * nblocks + count) / WORD && lsb == 8 * (64 * nblocks + count) % WORD
  {
    hide Or;
    ghost var high, low := nblocks / 0x400_0000, nblocks % 0x400_0000;
    Quotient(nblocks * 64, high, low * 64);
    var t := nblocks;
    lsb := t * 64 % WORD;
    msb := t / 0x400_0000;
    var carried: word := (msb + 1) % WORD;
    t := lsb;
    lsb := (lsb + count) % WORD;
    if lsb < t {
      msb := carried;
    }
    t := lsb;
    lsb := lsb * 8 % WORD;
    msb := msb * 8 % WORD;
    TopBits(high, t);
    Quotient(t * 8, t / 0x2000_0000, t % 0x2000_0000 * 8);
    Quotient(8 * (64 * nblocks + count), 8 * high + t / 0x2000_0000, t % 0x2000_0000 * 8);
    msb := Or(msb, t / 0x2000_0000);
  }

  lemma TopBits(high: nat, t: word)
    requires high < 64
    ensures Or(8 * high, t / 0x2000_0000) == 8 * high + t / 0x2000_0000
  {
    assert Pow2(3) == 8;
    OrLow(high, t / 0x2000_0000, 3);
  }

  // ---------------------------------------------------------------- the context

  /** Mirrors RTU_SHA1_CONTEXT; message is what has been fed in so far. */
  class Context {
    const transform: Transformer
    const buf: array<byte>
    var h: State
    var nblocks: word
    var count: nat
    ghost var message: seq<byte>

    /** Between calls the buffer is never full. */
    ghost predicate Valid()
      reads this, buf
    {
      buf.Length == 64 && |message| < MAX && Holds(message) && count < 64
    }

    /** Whole blocks of m are in h, the rest in buf. */
    ghost predicate Holds(m: seq<byte>)
      requires buf.Length == 64
      reads this`h, this`nblocks, this`count, buf
    {
      && count <= 64 && |m| == 64 * nblocks + count
      && h == Fold(transform, INIT, m, nblocks) && buf[..count] == m[64 * nblocks..]
    }

    /** rtu_sha1_init. */
    constructor (f: Transformer)
      ensures Valid() && transform == f && message == [] && fresh(buf)
    {
      transform := f;
      buf := new byte[64];
      h, nblocks, count, message := INIT, 0, 0, [];
    }

    /** rtu_sha1_write without input: a full buffer is transformed. */
    method Flush(ghost m: seq<byte>)
      requires buf.Length == 64 && |m| < MAX && Holds(m)
      modifies this`h, this`nblocks, this`count
      ensures Holds(m) && count < 64 && (old(count) < 64 ==> count == old(count))
    {
      if count == 64 {
        FoldNext(transform, INIT, m, nblocks);
        assert m[64 * nblocks..64 * nblocks + 64] == buf[..];
        h := transform(h, buf[..]);
        count := 0;
        nblocks := nblocks + 1;
      }
    }

    /** hd->buf[hd->count++] = c. */
    method Store(c: byte, ghost m: seq<byte>)
      requires buf.Length == 64 && Holds(m) && count < 64
      modifies this`count, buf
      ensures Holds(m + [c]) && count == old(count) + 1
    {
      hide Fold;
      FoldPrefix(transform, INIT, m, [c], nblocks);
      ghost var rest := buf[..count];
      buf[count] := c;
      count := count + 1;
      assert buf[..count] == rest + [c] == (m + [c])[64 * nblocks..];
    }

    /** The loops that store bytes until the input or the buffer ends; k bytes of s went in before. */
    method StoreSome(s: seq<byte>, k: nat, ghost m: seq<byte>) returns (next: nat)
      requires buf.Length == 64 && k <= |s| && Holds(m + s[..k])
      modifies this`count, buf
      ensures k <= next <= |s| && Holds(m + s[..next]) && (next == |s| || count == 64)
      ensures count == old(count) + next - k
    {
      hide Holds;
      next := k;
      HoldsBounds(m + s[..k]);
      while next < |s| && count < 64
        invariant k <= next <= |s| && count <= 64 && Holds(m + s[..next]) && count == old(count) + next - k
      {
        assert m + s[..next + 1] == m + s[..next] + [s[next]];
        Store(s[next], m + s[..next]);
        next := next + 1;
      }
    }

    lemma HoldsBounds(m: seq<byte>)
      requires buf.Length == 64 && Holds(m)
      ensures count <= 64 && nblocks == (|m| - count) / 64
    {
    }

    /** transform on 64 bytes of the input. */
    method Whole(s: seq<byte>, k: nat, ghost m: seq<byte>)
      requires buf.Length == 64 && k + 64 <= |s| && |m| + |s| < MAX && Holds(m + s[..k]) && count == 0
      modifies this`h, this`nblocks, this`count
      ensures Holds(m + s[..k + 64]) && count == 0
    {
      hide Fold;
      ghost var u, v := m + s[..k], s[k..k + 64];
      assert m + s[..k + 64] == u + v;
      FoldPrefix(transform, INIT, u, v, nblocks);
      FoldNext(transform, INIT, u + v, nblocks);
      assert (u + v)[64 * nblocks..64 * nblocks + 64] == v;
      h := transform(h, s[k..k + 64]);
      count := 0;
      nblocks := nblocks + 1;
    }

    /** rtu_sha1_write. */
    method Write(s: seq<byte>)
      requires Valid() && |message| + |s| < MAX
      modifies this, buf
      ensures Valid() && message == old(message) + s
    {
      hide Holds, MAX;
      ghost var m := message;
      Flush(m);
      var k := 0;
      assert m + s[..0] == m;
      message := m + s;
      assert s[..|s|] == s;
      if count != 0 {
        k := StoreSome(s, 0, m);
        Flush(m + s[..k]);
        if k == |s| {
          return;
        }
      }
      while |s| - k >= 64
        invariant k <= |s| && Holds(m + s[..k]) && count == 0 && message == m + s
      {
        Whole(s, k, m);
        k := k + 64;
      }
      k := StoreSome(s, k, m);
    }

    /** rtu_sha1_final: buf begins with the digest of everything fed in. */
    method Final()
      requires Valid()
      modifies this, buf
      ensures buf[..20] == Digest(transform, old(message))
    {
      hide Holds, Fold, High, Or;
      ghost var m := message;
      Flush(m);
      HoldsBounds(m);
      var msb, lsb := BitCount(nblocks, count);
      HoldsLength(m);
      Pad(m);
      Length(msb, lsb);
      ghost var p := m + Fill(|m|);
      ghost var n := |p| / 64;
      FoldPrefix(transform, INIT, p, BitLength(|m|), n);
      FoldNext(transform, INIT, Padded(m), n);
      assert buf[..] == buf[..56] + BitLength(|m|);
      assert Padded(m)[64 * n..64 * n + 64] == buf[..];
      h := transform(h, buf[..]);
      StoreDigest();
    }

    lemma HoldsLength(m: seq<byte>)
      requires buf.Length == 64 && Holds(m)
      ensures 64 * nblocks + count == |m|
    {
    }

    /** The 0x80 and the zeros, with one more block where they do not fit. */
    method Pad(ghost m: seq<byte>)
      requires buf.Length == 64 && |m| < MAX && Holds(m) && count < 64
      modifies this, buf
      ensures h == Fold(transform, INIT, m + Fill(|m|), |m + Fill(|m|)| / 64)
      ensures buf[..56] == (m + Fill(|m|))[|m + Fill(|m|)| / 64 * 64..]
    {
      hide Fold, Fill;
      if count < 56 {
        PadHere(m);
      } else {
        PadNext(m);
      }
    }

    method PadHere(ghost m: seq<byte>)
      requires buf.Length == 64 && |m| < MAX && Holds(m) && count < 56
      modifies this, buf
      ensures h == Fold(transform, INIT, m + Fill(|m|), |m + Fill(|m|)| / 64)
      ensures buf[..56] == (m + Fill(|m|))[|m + Fill(|m|)| / 64 * 64..]
    {
      hide Fold, Fill;
      ghost var free := 63 - count;
      Store(0x80, m);
      StoreZeros(56, m + [0x80]);
      OneFill(m, free);
    }

    method PadNext(ghost m: seq<byte>)
      requires buf.Length == 64 && |m| < MAX && Holds(m) && 56 <= count < 64
      modifies this, buf
      ensures h == Fold(transform, INIT, m + Fill(|m|), |m + Fill(|m|)| / 64)
      ensures buf[..56] == (m + Fill(|m|))[|m + Fill(|m|)| / 64 * 64..]
    {
      hide Fold, Fill;
      ghost var p, free := m + [0x80], 63 - count;
      Store(0x80, m);
      StoreZeros(64, p);
      Full(p + Zeros(free));
      Clear();
      TwoFills(m, free);
      FoldPrefix(transform, INIT, p + Zeros(free), Zeros(56), |p + Zeros(free)| / 64);
    }

    lemma OneFill(m: seq<byte>, free: nat)
      requires |m| % 64 < 56 && free == 63 - |m| % 64
      ensures m + [0x80] + Zeros(free - 8) == m + Fill(|m|)
      ensures |m + Fill(|m|)| / 64 == |m| / 64
    {
    }

    lemma TwoFills(m: seq<byte>, free: nat)
      requires |m| % 64 >= 56 && free == 63 - |m| % 64
      ensures m + [0x80] + Zeros(free) + Zeros(56) == m + Fill(|m|)
      ensures |m + Fill(|m|)| / 64 == |m + [0x80] + Zeros(free)| / 64
      ensures (m + Fill(|m|))[|m + Fill(|m|)| / 64 * 64..] == Zeros(56)
    {
    }

    /** memset(hd->buf, 0, 56). */
    method Clear()
      requires buf.Length == 64
      modifies buf
      ensures buf[..56] == Zeros(56)
    {
      for i := 0 to 56
        invariant forall k | 0 <= k < i :: buf[k] == 0
      {
        buf[i] := 0;
      }
    }

    /** The transform of a full block of padding. */
    method Full(ghost q: seq<byte>)
      requires buf.Length == 64 && Holds(q) && count == 64
      modifies this
      ensures h == Fold(transform, INIT, q, |q| / 64)
    {
      hide Fold;
      FoldNext(transform, INIT, q, nblocks);
      assert q[64 * nblocks..64 * nblocks + 64] == buf[..];
      h := transform(h, buf[..]);
      count := 0;
      nblocks := (nblocks + 1) % WORD;
    }

    /** while (hd->count < bound) hd->buf[hd->count++] = 0. */
    method StoreZeros(bound: nat, ghost p: seq<byte>)
      requires buf.Length == 64 && Holds(p) && count <= bound <= 64
      modifies this`count, buf
      ensures Holds(p + Zeros(bound - old(count))) && count == bound
    {
      hide Holds;
      ghost var start := count;
      assert p + Zeros(0) == p;
      while count < bound
        invariant start <= count <= bound && Holds(p + Zeros(count - start))
      {
        assert p + Zeros(count - start) + [0] == p + Zeros(count + 1 - start);
        Store(0, p + Zeros(count - start));
      }
    }

    /** The eight bytes of the length. */
    method Length(msb: word, lsb: word)
      requires buf.Length == 64
      modifies buf
      ensures buf[..56] == old(buf[..56]) && buf[56..] == High(msb) + High(lsb)
    {
      buf[56] := msb / 0x100_0000 % 256;
      buf[57] := msb / 0x1_0000 % 256;
      buf[58] := msb / 0x100 % 256;
      buf[59] := msb % 256;
      buf[60] := lsb / 0x100_0000 % 256;
      buf[61] := lsb / 0x1_0000 % 256;
      buf[62] := lsb / 0x100 % 256;
      buf[63] := lsb % 256;
    }

    /** X(0) to X(4). */
    method StoreDigest()
      requires buf.Length == 64
      modifies buf
      ensures buf[..20] == Bytes(h)
    {
      hide High;
      StoreWord(0, h.h0);
      ghost var w0 := buf[..4];
      StoreWord(4, h.h1);
      assert buf[..8] == w0 + High(h.h1);
      ghost var w1 := buf[..8];
      StoreWord(8, h.h2);
      assert buf[..12] == w1 + High(h.h2);
      ghost var w2 := buf[..12];
      StoreWord(12, h.h3);
      assert buf[..16] == w2 + High(h.h3);
      ghost var w3 := buf[..16];
      StoreWord(16, h.h4);
      assert buf[..20] == w3 + High(h.h4);
    }

    method StoreWord(p: nat, w: word)
      requires p + 4 <= buf.Length
      modifies buf
      ensures buf[..p] == old(buf[..p]) && buf[p..p + 4] == High(w)
    {
      buf[p] := w / 0x100_0000 % 256;
      buf[p + 1] := w / 0x1_0000 % 256;
      buf[p + 2] := w / 0x100 % 256;
      buf[p + 3] := w % 256;
    }
  }

  /** For every message of fewer than 2^32 blocks and every split of it into calls of rtu_sha1_write. */
  method Sum(f: Transformer, chunks: seq<seq<byte>>) returns (d: seq<byte>)
    requires |Concat(chunks)| < MAX
    ensures d == Digest(f, Concat(chunks))
  {
    hide Digest, Context.Holds, Concat, MAX;
    NoChunks<byte>();
    var ctx := new Context(f);
    assert chunks[..|chunks|] == chunks;
    assert chunks[..0] == [];
    for i := 0 to |chunks|
      invariant ctx.Valid() && ctx.transform == f && ctx.message == Concat(chunks[..i]) && fresh(ctx) && fresh(ctx.buf)
    {
      ConcatNext(chunks, i);
      ConcatGrows(chunks, i + 1);
      ctx.Write(chunks[i]);
    }
    ctx.Final();
    d := ctx.buf[..20];
  }

  lemma {:induction false} ConcatGrows<T>(chunks: seq<seq<T>>, i: nat)
    requires i <= |chunks|
    ensures |Concat(chunks[..i])| <= |Concat(chunks)|
    decreases |chunks| - i
  {
    if i < |chunks| {
      ConcatNext(chunks, i);
      ConcatGrows(chunks, i + 1);
    } else {
      assert chunks[..i] == chunks;
    }
  }
}
