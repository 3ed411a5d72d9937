/**
 The rounds of reg/rtu_des.c and its buffer functions: rtu_des_encrypt and rtu_des_decrypt
 compute the cipher of FIPS PUB 46-3 block by block, and each undoes the other.
 */
module DesCipher {
  import opened Des

  // ---------------------------------------------------------------- DES_ROUND

  /** The outputs of the eight boxes put together. */
  function Mix(a: bv32, b: bv32, c: bv32, d: bv32, e: bv32, f: bv32, g: bv32, h: bv32): bv32 {
    a ^ b ^ c ^ d ^ (e ^ f ^ g ^ h)
  }

  function Xor(a: bv32, b: bv32): bv32 {
    a ^ b
  }

  /** x turned right by four. */
  function Ror4(x: bv32): bv32 {
    (x << 28) | (x >> 4)
  }

  /** The four six-bit groups of a word that index boxes, lowest first. */
  function Group0(t: bv32): bv32 {
    t & 0x3F
  }

  function Group1(t: bv32): bv32 {
    (t >> 8) & 0x3F
  }

  function Group2(t: bv32): bv32 {
    (t >> 16) & 0x3F
  }

  function Group3(t: bv32): bv32 {
    (t >> 24) & 0x3F
  }

  /** What DES_ROUND(X, Y) xors onto Y. */
  function F(sb: Boxes, k0: bv32, k1: bv32, x: bv32): bv32 {
    var t0, t1 := Xor(k0, x), Xor(k1, Ror4(x));
    Mix(sb.sb8(Group0(t0)), sb.sb6(Group1(t0)), sb.sb4(Group2(t0)), sb.sb2(Group3(t0)),
        sb.sb7(Group0(t1)), sb.sb5(Group1(t1)), sb.sb3(Group2(t1)), sb.sb1(Group3(t1)))
  }

  lemma XorTwice(a: bv32, b: bv32)
    ensures Xor(Xor(a, b), b) == a
  {
  }

  /** A round; x holds the half that it changes, and the halves then trade places. */
  function Step(sb: Boxes, k0: bv32, k1: bv32, b: Block): Block {
    Block(b.y, Xor(b.x, F(sb, k0, k1, b.y)))
  }

  /** The first n rounds. */
  function Rounds(sb: Boxes, sk: seq<bv32>, n: nat, b: Block): Block
    requires |sk| == 32 && n <= 16
  {
    if n == 0 then b else Step(sb, sk[2 * n - 2], sk[2 * n - 1], Rounds(sb, sk, n - 1, b))
  }

  /** _des_crypt on words. */
  function Crypt(sb: Boxes, sk: seq<bv32>, b: Block): Block
    requires |sk| == 32
  {
    var e := Rounds(sb, sk, 16, Ip(b));
    Fp(Block(e.y, e.x))
  }

  // ---------------------------------------------------------------- the cipher of FIPS PUB 46-3

  /** f(R, K): the six-bit groups of E(R) and of the key index the boxes, whose outputs are
      turned left by one. */
  function FipsF(sb: Boxes, k0: bv32, k1: bv32, r: bv32): bv32 {
    Mix(sb.sb8(Xor(Group0(k0), Six(r, 28, 29, 30, 31, 32, 1))),
        sb.sb6(Xor(Group1(k0), Six(r, 20, 21, 22, 23, 24, 25))),
        sb.sb4(Xor(Group2(k0), Six(r, 12, 13, 14, 15, 16, 17))),
        sb.sb2(Xor(Group3(k0), Six(r, 4, 5, 6, 7, 8, 9))),
        sb.sb7(Xor(Group0(k1), Six(r, 24, 25, 26, 27, 28, 29))),
        sb.sb5(Xor(Group1(k1), Six(r, 16, 17, 18, 19, 20, 21))),
        sb.sb3(Xor(Group2(k1), Six(r, 8, 9, 10, 11, 12, 13))),
        sb.sb1(Xor(Group3(k1), Six(r, 32, 1, 2, 3, 4, 5))))
  }

  function Ror1(x: bv32): bv32 {
    (x >> 1) | (x << 31)
  }

  function FipsStep(sb: Boxes, k0: bv32, k1: bv32, b: Block): Block {
    Block(b.y, Xor(b.x, Ror1(FipsF(sb, k0, k1, b.y))))
  }

  function FipsRounds(sb: Boxes, sk: seq<bv32>, n: nat, b: Block): Block
    requires |sk| == 32 && n <= 16
  {
    if n == 0 then b else FipsStep(sb, sk[2 * n - 2], sk[2 * n - 1], FipsRounds(sb, sk, n - 1, b))
  }

  function Fips(sb: Boxes, sk: seq<bv32>, b: Block): Block
    requires |sk| == 32
  {
    var e := FipsRounds(sb, sk, 16, TableIp(b));
    TableFp(Block(e.y, e.x))
  }

  lemma Group0Xor(a: bv32, b: bv32)
    ensures Group0(Xor(a, b)) == Xor(Group0(a), Group0(b))
  {
  }

  lemma Group1Xor(a: bv32, b: bv32)
    ensures Group1(Xor(a, b)) == Xor(Group1(a), Group1(b))
  {
    assert ((a ^ b) >> 8) & 0x3F == ((a >> 8) & 0x3F) ^ ((b >> 8) & 0x3F);
  }

  lemma Group2Xor(a: bv32, b: bv32)
    ensures Group2(Xor(a, b)) == Xor(Group2(a), Group2(b))
  {
    assert ((a ^ b) >> 16) & 0x3F == ((a >> 16) & 0x3F) ^ ((b >> 16) & 0x3F);
  }

  lemma Group3Xor(a: bv32, b: bv32)
    ensures Group3(Xor(a, b)) == Xor(Group3(a), Group3(b))
  {
    assert ((a ^ b) >> 24) & 0x3F == ((a >> 24) & 0x3F) ^ ((b >> 24) & 0x3F);
  }

  lemma GroupsXor(a: bv32, b: bv32)
    ensures Group0(Xor(a, b)) == Xor(Group0(a), Group0(b))
    ensures Group1(Xor(a, b)) == Xor(Group1(a), Group1(b))
    ensures Group2(Xor(a, b)) == Xor(Group2(a), Group2(b))
    ensures Group3(Xor(a, b)) == Xor(Group3(a), Group3(b))
  {
    hide Xor, Group0, Group1, Group2, Group3;
    Group0Xor(a, b);
    Group1Xor(a, b);
    Group2Xor(a, b);
    Group3Xor(a, b);
  }

  /** The groups of a turned half are groups of the expansion E. */
  lemma EvenGroups(r: bv32)
    ensures Group0(Rol1(r)) == Six(r, 28, 29, 30, 31, 32, 1)
    ensures Group1(Rol1(r)) == Six(r, 20, 21, 22, 23, 24, 25)
    ensures Group2(Rol1(r)) == Six(r, 12, 13, 14, 15, 16, 17)
    ensures Group3(Rol1(r)) == Six(r, 4, 5, 6, 7, 8, 9)
  {
  }

  lemma OddGroups(r: bv32)
    ensures Group0(Ror4(Rol1(r))) == Six(r, 24, 25, 26, 27, 28, 29)
    ensures Group1(Ror4(Rol1(r))) == Six(r, 16, 17, 18, 19, 20, 21)
    ensures Group2(Ror4(Rol1(r))) == Six(r, 8, 9, 10, 11, 12, 13)
    ensures Group3(Ror4(Rol1(r))) == Six(r, 32, 1, 2, 3, 4, 5)
  {
  }

  /** DES_ROUND looks up the groups of the expansion E xored with the groups of the key. */
  lemma FIsFips(sb: Boxes, k0: bv32, k1: bv32, r: bv32)
    ensures F(sb, k0, k1, Rol1(r)) == FipsF(sb, k0, k1, r)
  {
    hide Rol1, Ror4, Six, Mix, Xor, Group0, Group1, Group2, Group3;
    EvenGroups(r);
    GroupsXor(k0, Rol1(r));
    OddGroups(r);
    GroupsXor(k1, Ror4(Rol1(r)));
  }

  lemma RolXor(a: bv32, b: bv32)
    ensures Rol1(Xor(a, Ror1(b))) == Xor(Rol1(a), b)
  {
  }

  function Rolled(b: Block): Block {
    Block(Rol1(b.x), Rol1(b.y))
  }

  lemma StepIsFips(sb: Boxes, k0: bv32, k1: bv32, b: Block)
    ensures Step(sb, k0, k1, Rolled(b)) == Rolled(FipsStep(sb, k0, k1, b))
  {
    hide F, FipsF, Rol1, Ror1, Xor;
    FIsFips(sb, k0, k1, b.y);
    RolXor(b.x, FipsF(sb, k0, k1, b.y));
  }

  lemma {:induction false} RoundsAreFips(sb: Boxes, sk: seq<bv32>, n: nat, b: Block)
    requires |sk| == 32 && n <= 16
    ensures Rounds(sb, sk, n, Rolled(b)) == Rolled(FipsRounds(sb, sk, n, b))
  {
    hide Step, FipsStep, Rolled;
    if n > 0 {
      RoundsAreFips(sb, sk, n - 1, b);
      StepIsFips(sb, sk[2 * n - 2], sk[2 * n - 1], FipsRounds(sb, sk, n - 1, b));
    }
  }

  /** The word tricks of _des_crypt compute the cipher of the standard's tables. */
  lemma CryptIsFips(sb: Boxes, sk: seq<bv32>, b: Block)
    requires |sk| == 32
    ensures Crypt(sb, sk, b) == Fips(sb, sk, b)
  {
    hide Ip, Fp, TableIp, TableFp, Rounds, FipsRounds, Rol1;
    IpIsTable(b);
    RoundsAreFips(sb, sk, 16, TableIp(b));
    var e := FipsRounds(sb, sk, 16, TableIp(b));
    FpIsTable(Block(e.y, e.x));
  }

  // ---------------------------------------------------------------- deciphering

  /** The words of the first n rounds of the key schedule. */
  function Schedule(c: Block, n: nat): (s: seq<bv32>)
    ensures |s| == 2 * n
  {
    if n == 0 then [] else Schedule(c, n - 1) + [EvenKey(Halves(c, n)), OddKey(Halves(c, n))]
  }

  /** esk. */
  function EncryptionKeys(key: Block): (s: seq<bv32>)
    ensures |s| == 32
  {
    Schedule(KeyHalves(key), 16)
  }

  /** dsk: the pairs of esk in the opposite order. */
  function Reversed(sk: seq<bv32>): (s: seq<bv32>)
    requires |sk| == 32
    ensures |s| == 32
  {
    seq(32, i requires 0 <= i < 32 => if i % 2 == 0 then sk[30 - i] else sk[32 - i])
  }

  lemma {:induction false} ScheduleAt(c: Block, n: nat, i: nat)
    requires i < n
    ensures Schedule(c, n)[2 * i] == EvenKey(Halves(c, i + 1)) && Schedule(c, n)[2 * i + 1] == OddKey(Halves(c, i + 1))
  {
    hide Halves, EvenKey, OddKey;
    if i < n - 1 {
      ScheduleAt(c, n - 1, i);
    }
  }

  /** Every round gets the 48 bits that permuted choices 1 and 2 select for it. */
  lemma ScheduleIsFips(key: Block, i: nat)
    requires i < 16
    ensures EncryptionKeys(key)[2 * i] == TablePc2Even(Halves(TablePc1(key), i + 1))
    ensures EncryptionKeys(key)[2 * i + 1] == TablePc2Odd(Halves(TablePc1(key), i + 1))
  {
    hide Halves, EvenKey, OddKey, TablePc1, TablePc2Even, TablePc2Odd, KeyHalves, Schedule;
    KeyHalvesIsPc1(key);
    ScheduleAt(KeyHalves(key), 16, i);
    KeysArePc2(Halves(TablePc1(key), i + 1));
  }

  /** The words at an even place and behind it. */
  lemma ReversedAt(sk: seq<bv32>, i: nat)
    requires |sk| == 32 && i < 32 && i % 2 == 0
    ensures Reversed(sk)[i] == sk[30 - i] && Reversed(sk)[i + 1] == sk[31 - i]
  {
  }

  function Swapped(b: Block): Block {
    Block(b.y, b.x)
  }

  /** A round on the exchanged result of a round undoes it. */
  lemma StepTwice(sb: Boxes, k0: bv32, k1: bv32, b: Block)
    ensures Step(sb, k0, k1, Swapped(Step(sb, k0, k1, b))) == Swapped(b)
  {
    hide F, Xor;
    XorTwice(b.x, F(sb, k0, k1, b.y));
  }

  /** Rounds under the reversed keys, from the exchanged result, run the rounds backwards. */
  lemma {:induction false} RoundsBackwards(sb: Boxes, sk: seq<bv32>, n: nat, b: Block)
    requires |sk| == 32 && n <= 16
    ensures Rounds(sb, Reversed(sk), n, Swapped(Rounds(sb, sk, 16, b))) == Swapped(Rounds(sb, sk, 16 - n, b))
  {
    hide Step, Swapped, Reversed, Rounds;
    var end := Swapped(Rounds(sb, sk, 16, b));
    if n == 0 {
      NoRounds(sb, Reversed(sk), end);
    } else {
      RoundsBackwards(sb, sk, n - 1, b);
      RoundsMore(sb, Reversed(sk), n - 1, end);
      RoundsMore(sb, sk, 16 - n, b);
      ReversedAt(sk, 2 * n - 2);
      StepTwice(sb, sk[32 - 2 * n], sk[33 - 2 * n], Rounds(sb, sk, 16 - n, b));
    }
  }

  /** Deciphering a block: for every key schedule and every content of the boxes. */
  lemma CryptUndoes(sb: Boxes, sk: seq<bv32>, b: Block)
    requires |sk| == 32
    ensures Crypt(sb, Reversed(sk), Crypt(sb, sk, b)) == b
  {
    hide Ip, Fp, Rounds, Reversed;
    var e := Rounds(sb, sk, 16, Ip(b));
    FpInvertsIp(Swapped(e));
    RoundsBackwards(sb, sk, 16, Ip(b));
    NoRounds(sb, sk, Ip(b));
    FpInvertsIp(b);
  }

  lemma NoRounds(sb: Boxes, sk: seq<bv32>, b: Block)
    requires |sk| == 32
    ensures Rounds(sb, sk, 0, b) == b
  {
  }

  // ---------------------------------------------------------------- buffers

  function ToBlock(s: seq<bv8>): Block
    requires |s| == 8
  {
    Block(Get(s, 0), Get(s, 4))
  }

  function ToBytes(b: Block): (s: seq<bv8>)
    ensures |s| == 8
  {
    Put(b.x) + Put(b.y)
  }

  lemma BlockBytes(b: Block)
    ensures ToBlock(ToBytes(b)) == b
  {
    GetPut(b.x);
    GetPut(b.y);
  }

  lemma BytesBlock(s: seq<bv8>)
    requires |s| == 8
    ensures ToBytes(ToBlock(s)) == s
  {
    PutGet(s[..4]);
    PutGet(s[4..]);
    assert Get(s, 4) == Get(s[4..], 0) && Get(s, 0) == Get(s[..4], 0);
  }

  lemma BlockAt(s: seq<bv8>, i: nat)
    requires i + 8 <= |s|
    ensures ToBlock(s[i..i + 8]) == Block(Get(s, i), Get(s, i + 4))
  {
  }

  /** Block after block. */
  function CryptAll(sb: Boxes, sk: seq<bv32>, s: seq<bv8>): (r: seq<bv8>)
    requires |sk| == 32 && |s| % 8 == 0
    ensures |r| == |s|
  {
    if s == [] then [] else ToBytes(Crypt(sb, sk, ToBlock(s[..8]))) + CryptAll(sb, sk, s[8..])
  }

  /** Deciphering a buffer of whole blocks gives it back. */
  lemma {:induction false} CryptAllUndoes(sb: Boxes, sk: seq<bv32>, s: seq<bv8>)
    requires |sk| == 32 && |s| % 8 == 0
    ensures CryptAll(sb, Reversed(sk), CryptAll(sb, sk, s)) == s
  {
    hide Crypt, ToBytes, ToBlock, Reversed;
    if s != [] {
      var b := ToBlock(s[..8]);
      var head, tail := ToBytes(Crypt(sb, sk, b)), CryptAll(sb, sk, s[8..]);
      assert (head + tail)[..8] == head && (head + tail)[8..] == tail;
      BlockBytes(Crypt(sb, sk, b));
      CryptUndoes(sb, sk, b);
      BytesBlock(s[..8]);
      CryptAllUndoes(sb, sk, s[8..]);
    }
  }

  lemma {:induction false} CryptAllMore(sb: Boxes, sk: seq<bv32>, s: seq<bv8>, t: seq<bv8>)
    requires |sk| == 32 && |s| % 8 == 0 && |t| == 8
    ensures CryptAll(sb, sk, s + t) == CryptAll(sb, sk, s) + ToBytes(Crypt(sb, sk, ToBlock(t)))
  {
    hide Crypt, ToBytes, ToBlock;
    if s == [] {
      assert s + t == t && t[..8] == t && t[8..] == [];
    } else {
      assert (s + t)[..8] == s[..8] && (s + t)[8..] == s[8..] + t;
      CryptAllMore(sb, sk, s[8..], t);
    }
  }

  // ---------------------------------------------------------------- the functions on arrays

  lemma ScheduleStart(c: Block)
    ensures Schedule(c, 0) == [] && Halves(c, 0) == c
  {
  }

  lemma ScheduleNext(c: Block, i: nat)
    ensures Halves(c, i + 1) == TurnHalves(Halves(c, i), i)
    ensures Schedule(c, i + 1) == Schedule(c, i) + [EvenKey(Halves(c, i + 1)), OddKey(Halves(c, i + 1))]
  {
    hide TurnHalves, EvenKey, OddKey;
  }

  lemma TwoMore(s: seq<bv32>, s': seq<bv32>, p: nat, a: bv32, b: bv32)
    requires p + 2 <= |s| && s' == s[p := a][p + 1 := b]
    ensures s'[..p + 2] == s[..p] + [a, b]
  {
  }

  /** _des_main_ks. */
  method MainKs(sk: array<bv32>, key: array<bv8>)
    requires sk.Length == 32 && key.Length == 8
    modifies sk
    ensures sk[..] == EncryptionKeys(ToBlock(key[..]))
  {
    hide KeyHalves, EvenKey, OddKey, TurnHalves, Get, Halves, Schedule;
    ScheduleStart(KeyHalves(Block(Get(key[..], 0), Get(key[..], 4))));
    var h := KeyHalves(Block(Get(key[..], 0), Get(key[..], 4)));
    ghost var c := h;
    var p := 0;
    for i := 0 to 16
      invariant p == 2 * i && h == Halves(c, i) && sk[..p] == Schedule(c, i)
    {
      ghost var before := sk[..];
      h := TurnHalves(h, i);
      ScheduleNext(c, i);
      var even, odd := EvenKey(h), OddKey(h);
      sk[p], sk[p + 1] := even, odd;
      TwoMore(before, sk[..], p, even, odd);
      p := p + 2;
    }
    assert sk[..32] == sk[..];
  }

  /** Mirrors rtu_des_context. */
  class Context {
    const esk: array<bv32>
    const dsk: array<bv32>

    /** _des_set_key. */
    constructor (key: array<bv8>)
      requires key.Length == 8
      ensures fresh(esk) && fresh(dsk)
      ensures esk[..] == EncryptionKeys(ToBlock(key[..])) && dsk[..] == Reversed(EncryptionKeys(ToBlock(key[..])))
    {
      hide EncryptionKeys, ToBlock, Reversed;
      esk, dsk := new bv32[32], new bv32[32];
      new;
      MainKs(esk, key);
      Reverse(dsk, esk);
    }
  }

  /** The loop of _des_set_key. */
  method Reverse(dsk: array<bv32>, esk: array<bv32>)
    requires esk.Length == dsk.Length == 32 && esk != dsk
    modifies dsk
    ensures dsk[..] == Reversed(esk[..])
  {
    hide Reversed;
    ghost var keys := esk[..];
    var i := 0;
    while i < 32
      invariant i <= 32 && i % 2 == 0 && dsk[..i] == Reversed(keys)[..i]
    {
      ReversedAt(keys, i);
      dsk[i] := esk[30 - i];
      dsk[i + 1] := esk[31 - i];
      assert dsk[..i + 2] == dsk[..i] + [keys[30 - i], keys[31 - i]];
      i := i + 2;
    }
    assert dsk[..32] == dsk[..];
  }

  /** DES_ROUND(Y, X); DES_ROUND(X, Y); behind the first n rounds on b. */
  method TwoRounds(sb: Boxes, sk: array<bv32>, n: nat, x: bv32, y: bv32, ghost b: Block) returns (x': bv32, y': bv32)
    requires sk.Length == 32 && n + 2 <= 16 && Rounds(sb, sk[..], n, b) == Block(x, y)
    ensures Rounds(sb, sk[..], n + 2, b) == Block(x', y')
  {
    hide F, Rounds, Xor;
    x' := Xor(x, F(sb, sk[2 * n], sk[2 * n + 1], y));
    y' := Xor(y, F(sb, sk[2 * n + 2], sk[2 * n + 3], x'));
    RoundsMore(sb, sk[..], n, b);
    RoundsMore(sb, sk[..], n + 1, b);
  }

  lemma RoundsMore(sb: Boxes, sk: seq<bv32>, n: nat, b: Block)
    requires |sk| == 32 && n < 16
    ensures Rounds(sb, sk, n + 1, b) == Step(sb, sk[2 * n], sk[2 * n + 1], Rounds(sb, sk, n, b))
  {
  }

  /** _des_crypt from input[i..] to output[o..]. */
  method CryptBlock(sb: Boxes, sk: array<bv32>, input: array<bv8>, i: nat, output: array<bv8>, o: nat)
    requires sk.Length == 32 && i + 8 <= input.Length && o + 8 <= output.Length
    modifies output
    ensures output[..] == old(output[..o] + ToBytes(Crypt(sb, sk[..], ToBlock(input[i..i + 8]))) + output[o + 8..])
  {
    hide Rounds, Ip, Fp, ToBytes, ToBlock, Get;
    var x, y := Get(input[..], i), Get(input[..], i + 4);
    ghost var t := input[i..i + 8];
    BlockAt(input[..], i);
    ghost var start := Ip(Block(x, y));
    var b := Ip(Block(x, y));
    x, y := b.x, b.y;
    NoRounds(sb, sk[..], start);
    x, y := TwoRounds(sb, sk, 0, x, y, start);
    x, y := TwoRounds(sb, sk, 2, x, y, start);
    x, y := TwoRounds(sb, sk, 4, x, y, start);
    x, y := TwoRounds(sb, sk, 6, x, y, start);
    x, y := TwoRounds(sb, sk, 8, x, y, start);
    x, y := TwoRounds(sb, sk, 10, x, y, start);
    x, y := TwoRounds(sb, sk, 12, x, y, start);
    x, y := TwoRounds(sb, sk, 14, x, y, start);
    b := Fp(Block(y, x));
    assert b == Crypt(sb, sk[..], ToBlock(t));
    PutAt(output, o, b);
  }

  /** The two PUT_UINT32_BE of _des_crypt. */
  method PutAt(output: array<bv8>, o: nat, b: Block)
    requires o + 8 <= output.Length
    modifies output
    ensures output[..] == old(output[..o] + ToBytes(b) + output[o + 8..])
  {
    var s := ToBytes(b);
    hide ToBytes;
    forall k | 0 <= k < 8 {
      output[o + k] := s[k];
    }
  }

  /** The bytes touched when datalen bytes are asked for: whole blocks. */
  function Covered(datalen: int): (n: nat)
    ensures n % 8 == 0
  {
    if datalen <= 0 then 0 else (datalen + 7) / 8 * 8
  }

  /** What the functions return: nothing is left of whole blocks. */
  function Left(datalen: int): (r: int)
    ensures datalen > 0 && datalen % 8 == 0 ==> r == 0
    ensures r <= 0
  {
    datalen - Covered(datalen)
  }

  /** The loop of rtu_des_encrypt and rtu_des_decrypt; output may be input. */
  method CryptBuffer(sb: Boxes, sk: array<bv32>, output: array<bv8>, input: array<bv8>, datalen: int) returns (left: int)
    requires sk.Length == 32 && Covered(datalen) <= input.Length && Covered(datalen) <= output.Length
    modifies output
    ensures left == Left(datalen)
    ensures output[..] == old(CryptAll(sb, sk[..], input[..Covered(datalen)]) + output[Covered(datalen)..])
  {
    hide Crypt, ToBytes, ToBlock, CryptAll, Covered;
    NothingCovered();
    left := datalen;
    var at := 0;
    NothingCrypted(sb, sk[..]);
    ghost var was, src, keys := output[..], input[..], sk[..];
    while left > 0
      invariant at % 8 == 0 && left == datalen - at && at + Covered(left) == Covered(datalen)
      invariant output[..] == CryptAll(sb, keys, src[..at]) + was[at..]
      invariant input[at..] == src[at..]
      decreases left
    {
      CoveredNext(left);
      CryptNext(sb, sk, output, input, at, src, was);
      at := at + 8;
      left := left - 8;
    }
  }

  /** One turn of that loop: src and was are what input and output were before the first. */
  method CryptNext(sb: Boxes, sk: array<bv32>, output: array<bv8>, input: array<bv8>, at: nat, ghost src: seq<bv8>, ghost was: seq<bv8>)
    requires sk.Length == 32 && at % 8 == 0 && at + 8 <= input.Length == |src| && at + 8 <= output.Length == |was|
    requires output[..] == CryptAll(sb, sk[..], src[..at]) + was[at..] && input[at..] == src[at..]
    modifies output
    ensures output[..] == CryptAll(sb, sk[..], src[..at + 8]) + was[at + 8..] && input[at + 8..] == src[at + 8..]
  {
    hide Crypt, ToBytes, ToBlock, CryptAll;
    ghost var mid, rest, t := output[..], input[at + 8..], src[at..at + 8];
    assert input[at..at + 8] == input[at..][..8] == t && rest == input[at..][8..] == src[at + 8..];
    CryptAllMore(sb, sk[..], src[..at], t);
    assert src[..at + 8] == src[..at] + t;
    CryptBlock(sb, sk, input, at, output, at);
    Advance(mid, output[..], was, CryptAll(sb, sk[..], src[..at]), ToBytes(Crypt(sb, sk[..], ToBlock(t))));
    assert input == output ==> input[at + 8..] == mid[at + 8..];
  }

  lemma NothingCovered()
    ensures forall n | n <= 0 :: Covered(n) == 0
  {
  }

  lemma CoveredNext(n: int)
    requires n > 0
    ensures Covered(n) == 8 + Covered(n - 8)
  {
  }

  lemma NothingCrypted(sb: Boxes, sk: seq<bv32>)
    requires |sk| == 32
    ensures CryptAll(sb, sk, []) == []
  {
  }

  lemma Advance(mid: seq<bv8>, out: seq<bv8>, was: seq<bv8>, done: seq<bv8>, block: seq<bv8>)
    requires |mid| == |was| >= |done| + 8 && |block| == 8
    requires mid == done + was[|done|..] && out == mid[..|done|] + block + mid[|done| + 8..]
    ensures out == done + block + was[|done| + 8..]
  {
  }

  /** rtu_des_encrypt. */
  method Encrypt(sb: Boxes, output: array<bv8>, input: array<bv8>, datalen: int, key: array<bv8>) returns (left: int)
    requires key.Length == 8 && Covered(datalen) <= input.Length && Covered(datalen) <= output.Length
    modifies output
    ensures left == Left(datalen)
    ensures output[..] == old(CryptAll(sb, EncryptionKeys(ToBlock(key[..])), input[..Covered(datalen)]) + output[Covered(datalen)..])
  {
    hide EncryptionKeys, ToBlock, CryptAll;
    var ctx := new Context(key);
    left := CryptBuffer(sb, ctx.esk, output, input, datalen);
  }

  /** rtu_des_decrypt. */
  method Decrypt(sb: Boxes, output: array<bv8>, input: array<bv8>, datalen: int, key: array<bv8>) returns (left: int)
    requires key.Length == 8 && Covered(datalen) <= input.Length && Covered(datalen) <= output.Length
    modifies output
    ensures left == Left(datalen)
    ensures output[..] == old(CryptAll(sb, Reversed(EncryptionKeys(ToBlock(key[..]))), input[..Covered(datalen)]) + output[Covered(datalen)..])
  {
    hide EncryptionKeys, ToBlock, CryptAll, Reversed;
    var ctx := new Context(key);
    left := CryptBuffer(sb, ctx.dsk, output, input, datalen);
  }

  /** Enciphering and deciphering whole blocks in place changes nothing, and both report 0. */
  method ThereAndBack(sb: Boxes, buffer: array<bv8>, key: array<bv8>)
    requires key.Length == 8 && buffer.Length % 8 == 0 && key != buffer
    modifies buffer
    ensures buffer[..] == old(buffer[..])
  {
    hide EncryptionKeys, ToBlock, CryptAll, Reversed;
    ghost var was, sk := buffer[..], EncryptionKeys(ToBlock(key[..]));
    var left := Encrypt(sb, buffer, buffer, buffer.Length, key);
    assert left == 0 && was[..buffer.Length] == was;
    assert buffer[..] == CryptAll(sb, sk, was) + [];
    assert buffer[..buffer.Length] == buffer[..];
    left := Decrypt(sb, buffer, buffer, buffer.Length, key);
    assert left == 0;
    CryptAllUndoes(sb, sk, was);
    assert buffer[..] == was + [];
  }
}
