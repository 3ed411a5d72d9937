/**
 The block transform of reg/rtu_sha.c: eighty macro calls on five variables that change their roles from
 call to call, over sixteen words that are overwritten in a circle, against the computation of section
 6.1.2 of FIPS 180-4, with its schedule of eighty words.  The four constants are the repository's own.
 */
module Sha1Transform {
  import opened Common
  import Blocks
  import Sha1

  // ---------------------------------------------------------------- the code

  function Rol(x: bv32, n: bv8): bv32
    requires n <= 32
  {
    (x << n) | (x >> (32 - n))
  }

  /** F1 to F4, in the form of the macros, by the call. */
  function F(i: nat, x: bv32, y: bv32, z: bv32): bv32 {
    if i < 20 then z ^ (x & (y ^ z))
    else if i < 40 then x ^ y ^ z
    else if i < 60 then (x & y) | (z & (x | y))
    else x ^ y ^ z
  }

  /** K1 to K4. */
  function K(i: nat): bv32 {
    if i < 20 then 0x15fc7893 else if i < 40 then 0x7182fcae else if i < 60 then 0x97fceda0 else 0xfb7450ca
  }

  /** The variables a to e by number, and the words x. */
  datatype Frame = Frame(v: seq<bv32>, x: seq<bv32>)

  predicate Fits(s: Frame) {
    |s.v| == 5 && |s.x| == 16
  }

  /** The variable that macro call i takes for its parameter k: call 0 takes a, b, c, d, e, call 1 takes
      e, a, b, c, d, and so on. */
  function Role(i: nat, k: nat): (r: nat)
    ensures r < 5
  {
    (k + 4 * i) % 5
  }

  function Xor4(a: bv32, b: bv32, c: bv32, d: bv32): bv32 {
    a ^ b ^ c ^ d
  }

  /** M(i): the word to add, which replaces the one sixteen calls before. */
  function Words(i: nat, x: seq<bv32>): (x': seq<bv32>)
    requires |x| == 16
    ensures |x'| == 16
  {
    if i < 16 then x
    else x[i % 16 := Rol(Xor4(x[i % 16], x[(i - 14) % 16], x[(i - 8) % 16], x[(i - 3) % 16]), 1)]
  }

  /** e += rol(a, 5) + f + k + m. */
  function Added(e: bv32, turned: bv32, f: bv32, k: bv32, m: bv32): bv32 {
    e + (turned + f + k + m)
  }

  /** Macro call i. */
  function Call(i: nat, s: Frame): (s': Frame)
    requires Fits(s)
    ensures Fits(s')
  {
    var x := Words(i, s.x);
    var a, b, c, d, e := s.v[Role(i, 0)], s.v[Role(i, 1)], s.v[Role(i, 2)], s.v[Role(i, 3)], s.v[Role(i, 4)];
    Frame(s.v[Role(i, 4) := Added(e, Rol(a, 5), F(i, b, c, d), K(i), x[i % 16])][Role(i, 1) := Rol(b, 30)], x)
  }

  function Calls(n: nat, s: Frame): (s': Frame)
    requires Fits(s)
    ensures Fits(s')
  {
    if n == 0 then s else Call(n - 1, Calls(n - 1, s))
  }

  /** The variables before the first call. */
  function Start(r: Work, m: seq<bv32>): (s: Frame)
    requires |m| == 16
    ensures Fits(s)
  {
    Frame([r.a, r.b, r.c, r.d, r.e], m)
  }

  /** The variables in their own order. */
  function Variables(s: Frame): Work
    requires Fits(s)
  {
    Work(s.v[0], s.v[1], s.v[2], s.v[3], s.v[4])
  }

  // ---------------------------------------------------------------- FIPS 180-4, section 6.1.2

  datatype Work = Work(a: bv32, b: bv32, c: bv32, d: bv32, e: bv32)

  /** Ch, Parity, Maj, Parity of section 4.1.1. */
  function Logical(t: nat, x: bv32, y: bv32, z: bv32): bv32 {
    if t < 20 then (x & y) ^ ((x ^ 0xFFFF_FFFF) & z)
    else if 40 <= t < 60 then (x & y) ^ (x & z) ^ (y & z)
    else x ^ y ^ z
  }

  /** Word t of the message schedule. */
  function Schedule(m: seq<bv32>, t: nat): bv32
    requires |m| == 16
  {
    if t < 16 then m[t]
    else Rol(Xor4(Schedule(m, t - 3), Schedule(m, t - 8), Schedule(m, t - 14), Schedule(m, t - 16)), 1)
  }

  function Sum(p: bv32, q: bv32, r: bv32, s: bv32, t: bv32): bv32 {
    p + q + r + s + t
  }

  function Step(t: nat, w: bv32, r: Work): Work {
    Work(Sum(Rol(r.a, 5), Logical(t, r.b, r.c, r.d), r.e, K(t), w), r.a, Rol(r.b, 30), r.c, r.d)
  }

  function Steps(n: nat, m: seq<bv32>, r: Work): Work
    requires |m| == 16
  {
    if n == 0 then r else Step(n - 1, Schedule(m, n - 1), Steps(n - 1, m, r))
  }

  // ---------------------------------------------------------------- the functions

  /** The macros are the functions of the standard. */
  lemma FIsLogical(i: nat, x: bv32, y: bv32, z: bv32)
    ensures F(i, x, y, z) == Logical(i, x, y, z)
  {
    Choose(x, y, z);
    Majority(x, y, z);
  }

  lemma Choose(x: bv32, y: bv32, z: bv32)
    ensures z ^ (x & (y ^ z)) == (x & y) ^ ((x ^ 0xFFFF_FFFF) & z)
  {
  }

  lemma Majority(x: bv32, y: bv32, z: bv32)
    ensures (x & y) | (z & (x | y)) == (x & y) ^ (x & z) ^ (y & z)
  {
  }

  lemma SumOrder(p: bv32, q: bv32, r: bv32, s: bv32, t: bv32)
    ensures Added(t, p, q, r, s) == Sum(p, q, t, r, s)
  {
  }

  // ---------------------------------------------------------------- the circle of words

  /** The sixteen words are the last sixteen of the schedule before word n. */
  predicate Window(x: seq<bv32>, m: seq<bv32>, n: nat)
    requires |x| == 16 && |m| == 16
  {
    forall t: nat | n <= t + 16 && t < (if n < 16 then 16 else n) :: x[t % 16] == Schedule(m, t)
  }

  lemma WindowStarts(m: seq<bv32>)
    requires |m| == 16
    ensures Window(m, m, 0)
  {
  }

  lemma WindowNext(x: seq<bv32>, m: seq<bv32>, n: nat)
    requires |x| == 16 && |m| == 16 && Window(x, m, n)
    ensures Window(Words(n, x), m, n + 1) && Words(n, x)[n % 16] == Schedule(m, n)
  {
    hide Rol, Xor4, Words;
    if n >= 16 {
      Around(n);
      assert x[(n - 16) % 16] == Schedule(m, n - 16);
      assert x[(n - 14) % 16] == Schedule(m, n - 14);
      assert x[(n - 8) % 16] == Schedule(m, n - 8);
      assert x[(n - 3) % 16] == Schedule(m, n - 3);
      NextWord(x, m, n);
      WordsElse(x, n);
      var x' := Words(n, x);
      forall t: nat | n < t + 16 && t <= n ensures x'[t % 16] == Schedule(m, t) {
        if t < n {
          Apart(t, n);
          assert x[t % 16] == Schedule(m, t);
        }
      }
    } else {
      WordsElse(x, n);
      assert x[n % 16] == Schedule(m, n);
    }
  }

  lemma NextWord(x: seq<bv32>, m: seq<bv32>, n: nat)
    requires |x| == 16 && |m| == 16 && n >= 16
    requires x[n % 16] == Schedule(m, n - 16) && x[(n - 14) % 16] == Schedule(m, n - 14)
    requires x[(n - 8) % 16] == Schedule(m, n - 8) && x[(n - 3) % 16] == Schedule(m, n - 3)
    ensures Words(n, x)[n % 16] == Schedule(m, n)
  {
    XorOrder(x[n % 16], x[(n - 14) % 16], x[(n - 8) % 16], x[(n - 3) % 16]);
    hide Rol, Xor4;
  }

  /** Only one word of the circle is new, and none in the first sixteen calls. */
  lemma WordsElse(x: seq<bv32>, n: nat)
    requires |x| == 16
    ensures forall j: nat | j < 16 && j != n % 16 :: Words(n, x)[j] == x[j]
    ensures n < 16 ==> Words(n, x) == x
  {
    hide Rol, Xor4;
  }

  lemma XorOrder(a: bv32, b: bv32, c: bv32, d: bv32)
    ensures Xor4(a, b, c, d) == Xor4(d, c, b, a)
  {
  }

  lemma Around(n: nat)
    requires n >= 16
    ensures (n - 16) % 16 == n % 16
  {
  }

  lemma Apart(t: nat, n: nat)
    requires t < n < t + 16
    ensures t % 16 != n % 16
  {
  }

  // ---------------------------------------------------------------- the roles of the variables

  /** The variables hold the working variables of the standard in their roles for call n. */
  predicate InRoles(v: seq<bv32>, n: nat, r: Work)
    requires |v| == 5
  {
    && v[Role(n, 0)] == r.a && v[Role(n, 1)] == r.b && v[Role(n, 2)] == r.c && v[Role(n, 3)] == r.d && v[Role(n, 4)] == r.e
  }

  /** After a call every variable plays the next role, and the last the first. */
  lemma RolesTurn(n: nat)
    ensures Role(n + 1, 0) == Role(n, 4) && Role(n + 1, 1) == Role(n, 0) && Role(n + 1, 2) == Role(n, 1)
    ensures Role(n + 1, 3) == Role(n, 2) && Role(n + 1, 4) == Role(n, 3)
  {
    FiveOn(4 * n);
    FiveOn(4 * n + 1);
    FiveOn(4 * n + 2);
    FiveOn(4 * n + 3);
  }

  lemma FiveOn(m: nat)
    ensures (m + 5) % 5 == m % 5
  {
  }

  lemma RolesApart(n: nat, j: nat, k: nat)
    requires j < 5 && k < 5 && j != k
    ensures Role(n, j) != Role(n, k)
  {
  }

  lemma CallIs(n: nat, s: Frame, r: Work, w: bv32)
    requires Fits(s) && InRoles(s.v, n, r) && Words(n, s.x)[n % 16] == w
    ensures Call(n, s).v == s.v[Role(n, 4) := Added(r.e, Rol(r.a, 5), F(n, r.b, r.c, r.d), K(n), w)][Role(n, 1) := Rol(r.b, 30)]
  {
    hide Role, Rol, F, K, Words, Added;
  }

  lemma CallIsStep(n: nat, s: Frame, r: Work, w: bv32)
    requires Fits(s) && InRoles(s.v, n, r) && Words(n, s.x)[n % 16] == w
    ensures InRoles(Call(n, s).v, n + 1, Step(n, w, r))
  {
    hide Role, Rol, F, Logical, K, Words, Call, Added, Sum;
    RolesTurn(n);
    CallIs(n, s, r, w);
    FIsLogical(n, r.b, r.c, r.d);
    SumOrder(Rol(r.a, 5), F(n, r.b, r.c, r.d), K(n), w, r.e);
    TwoSet(s.v, n, Added(r.e, Rol(r.a, 5), F(n, r.b, r.c, r.d), K(n), w), Rol(r.b, 30));
  }

  /** Setting the last variable and the second of a call leaves the others. */
  lemma TwoSet(v: seq<bv32>, n: nat, x: bv32, y: bv32)
    requires |v| == 5
    ensures var v' := v[Role(n, 4) := x][Role(n, 1) := y];
            && v'[Role(n, 4)] == x && v'[Role(n, 1)] == y
            && v'[Role(n, 0)] == v[Role(n, 0)] && v'[Role(n, 2)] == v[Role(n, 2)] && v'[Role(n, 3)] == v[Role(n, 3)]
  {
    hide Role;
    RolesApart(n, 1, 4);
    RolesApart(n, 0, 4);
    RolesApart(n, 0, 1);
    RolesApart(n, 2, 4);
    RolesApart(n, 2, 1);
    RolesApart(n, 3, 4);
    RolesApart(n, 3, 1);
  }

  lemma NoCalls(m: seq<bv32>, r: Work)
    requires |m| == 16
    ensures InRoles(Start(r, m).v, 0, r) && Window(Start(r, m).x, m, 0)
  {
    hide Window;
    WindowStarts(m);
  }

  /** n calls on the words of a block are n steps of the standard on its schedule. */
  lemma {:induction false} CallsAreSteps(n: nat, m: seq<bv32>, r: Work)
    requires |m| == 16
    ensures var s := Calls(n, Start(r, m));
            InRoles(s.v, n, Steps(n, m, r)) && Window(s.x, m, n)
  {
    hide Window, InRoles, Words, Step, Schedule, Call, Start;
    if n == 0 {
      NoCalls(m, r);
    } else {
      CallsAreSteps(n - 1, m, r);
      var s := Calls(n - 1, Start(r, m));
      WindowNext(s.x, m, n - 1);
      CallIsStep(n - 1, s, Steps(n - 1, m, r), Schedule(m, n - 1));
      CallWords(n - 1, s);
    }
  }

  lemma CallWords(n: nat, s: Frame)
    requires Fits(s)
    ensures Call(n, s).x == Words(n, s.x)
  {
    hide Words, Role, Rol, Added, F, K;
  }

  // ---------------------------------------------------------------- the transform on bytes

  function ToVector(w: word): bv32 {
    w as bv32
  }

  function ToWord(x: bv32): word {
    x as int
  }

  /** Sixteen words of four bytes, high byte first. */
  function Load(data: seq<byte>): (x: seq<bv32>)
    requires |data| == 64
    ensures |x| == 16
  {
    seq(16, i requires 0 <= i < 16 => ToVector(Blocks.Join(data[4 * i], data[4 * i + 1], data[4 * i + 2], data[4 * i + 3])))
  }

  function FromState(h: Sha1.State): Work {
    Work(ToVector(h.h0), ToVector(h.h1), ToVector(h.h2), ToVector(h.h3), ToVector(h.h4))
  }

  /** The variables a to e added to the chaining words. */
  function Plus(h: Sha1.State, r: Work): Sha1.State {
    Sha1.State(ToWord(ToVector(h.h0) + r.a), ToWord(ToVector(h.h1) + r.b), ToWord(ToVector(h.h2) + r.c),
               ToWord(ToVector(h.h3) + r.d), ToWord(ToVector(h.h4) + r.e))
  }

  /** transform: the eighty calls, and the variables a to e themselves added to the chaining words. */
  function Transform(h: Sha1.State, data: seq<byte>): Sha1.State {
    if |data| != 64 then h
    else
      Plus(h, Variables(Calls(80, Start(FromState(h), Load(data)))))
  }

  /** The hash computation of the standard on one block. */
  function Compress(h: Sha1.State, data: seq<byte>): Sha1.State {
    if |data| != 64 then h else Plus(h, Steps(80, Load(data), FromState(h)))
  }

  lemma RolesReturn(s: Frame, r: Work)
    requires Fits(s) && InRoles(s.v, 80, r)
    ensures Variables(s) == r
  {
  }

  /** After eighty calls every variable is back in its first role, so the code computes the standard's function. */
  lemma TransformIsFips(h: Sha1.State, data: seq<byte>)
    ensures Transform(h, data) == Compress(h, data)
  {
    hide Calls, Steps, Load, Plus, FromState, InRoles, Window, Start, Variables;
    if |data| == 64 {
      var r, m := FromState(h), Load(data);
      CallsAreSteps(80, m, r);
      RolesReturn(Calls(80, Start(r, m)), Steps(80, m, r));
    }
  }

  lemma {:induction false} FoldsAgree(s: seq<byte>, n: nat)
    requires 64 * n <= |s|
    ensures Blocks.Fold(Transform, Sha1.INIT, s, n) == Blocks.Fold(Compress, Sha1.INIT, s, n)
  {
    hide Transform, Compress;
    if n > 0 {
      FoldsAgree(s, n - 1);
      TransformIsFips(Blocks.Fold(Compress, Sha1.INIT, s, n - 1), s[64 * n - 64..64 * n]);
    }
  }

  /** rtu_sha1 over a message is the hash function of the standard but for the constants. */
  lemma DigestIsFips(m: seq<byte>)
    requires |m| < Sha1.MAX
    ensures Sha1.Digest(Transform, m) == Sha1.Digest(Compress, m)
  {
    hide Sha1.Padded, Sha1.Bytes, Transform, Compress, Blocks.Fold;
    FoldsAgree(Sha1.Padded(m), |Sha1.Padded(m)| / 64);
  }
}
