/** Messages in blocks of 64 bytes, as MD5 and SHA-1 take them. */
module Blocks {
  import opened Common
  import opened Bits

  /** The chaining value behind the first n blocks of s. */
  function Fold<S>(g: (S, seq<byte>) -> S, init: S, s: seq<byte>, n: nat): S
    requires 64 * n <= |s|
  {
    if n == 0 then init else g(Fold(g, init, s, n - 1), s[64 * n - 64..64 * n])
  }

  /** Bytes behind the blocks do not matter. */
  lemma {:induction false} FoldPrefix<S>(g: (S, seq<byte>) -> S, init: S, s: seq<byte>, t: seq<byte>, n: nat)
    requires 64 * n <= |s|
    ensures Fold(g, init, s + t, n) == Fold(g, init, s, n)
  {
    if n > 0 {
      FoldPrefix(g, init, s, t, n - 1);
      assert (s + t)[64 * n - 64..64 * n] == s[64 * n - 64..64 * n];
    }
  }

  lemma FoldNext<S>(g: (S, seq<byte>) -> S, init: S, s: seq<byte>, n: nat)
    requires 64 * n + 64 <= |s|
    ensures Fold(g, init, s, n + 1) == g(Fold(g, init, s, n), s[64 * n..64 * n + 64])
  {
  }

  function Zeros(n: nat): (s: seq<byte>)
    ensures |s| == n
  {
    seq(n, _ => 0)
  }

  /** The byte 0x80 and the zeros that fill a message of length n up to 56 bytes in its last block. */
  function Fill(n: nat): (s: seq<byte>)
    ensures 1 <= |s| <= 64 && (n + |s|) % 64 == 56 && (n + |s| + 8) % 64 == 0
  {
    WholeBlock(n);
    [0x80] + Zeros((119 - n % 64) % 64)
  }

  lemma WholeBlock(n: nat)
    ensures (n + 1 + (119 - n % 64) % 64) % 64 == 56 && (n + 1 + (119 - n % 64) % 64 + 8) % 64 == 0
  {
    var q, r := n / 64, n % 64;
    assert n == 64 * q + r;
    assert n + 1 + (119 - r) % 64 == if r < 56 then 64 * q + 56 else 64 * (q + 1) + 56;
  }

  lemma Quotient(x: nat, q: nat, r: nat)
    requires x == q * WORD + r && r < WORD
    ensures x / WORD == q && x % WORD == r
  {
  }

  /** A word from four bytes, as the shifts and ors of the sources put it together. */
  function Join(b3: byte, b2: byte, b1: byte, b0: byte): (w: word)
    ensures w == 0x100_0000 * b3 + 0x1_0000 * b2 + 0x100 * b1 + b0
  {
    OrBytes(b3, b2, b1, b0);
    Or(Or(Or(0x100_0000 * b3, 0x1_0000 * b2), 0x100 * b1), b0)
  }

  lemma OrBytes(b3: byte, b2: byte, b1: byte, b0: byte)
    ensures Or(Or(Or(0x100_0000 * b3, 0x1_0000 * b2), 0x100 * b1), b0)
         == 0x100_0000 * b3 + 0x1_0000 * b2 + 0x100 * b1 + b0
  {
    hide Or;
    assert Pow2(8) == 0x100 && Pow2(16) == 0x1_0000 && Pow2(24) == 0x100_0000;
    hide Pow2;
    OrLow(b3, 0x1_0000 * b2, 24);
    OrLow(0x100 * b3 + b2, 0x100 * b1, 16);
    OrLow(0x1_0000 * b3 + 0x100 * b2 + b1, b0, 8);
  }
}
