/** The frame checks of the Modbus gateway in board/xfer_net.c. */
module Modbus {
  import opened Common
  import opened Crc

  const RTU_SIZE_MIN := 4
  const ASCII_SIZE_MIN := 7

  datatype Protocol = Rtu | Ascii

  // ---------------------------------------------------------------- the ASCII encoding

  /** ASC_TO_INT: anything but 0-9 and A-F counts as 0. */
  function Nibble(c: bv8): bv8 {
    if 0x30 <= c <= 0x39 then c - 0x30 else if 0x41 <= c <= 0x46 then c - 0x41 + 0x0A else 0
  }

  /** Two characters make a byte. */
  function Octet(c0: bv8, c1: bv8): bv8 {
    (Nibble(c0) << 4) | Nibble(c1)
  }

  function HexDigit(n: bv8): bv8 {
    if n < 10 then n + 0x30 else n - 10 + 0x41
  }

  /** A byte as two upper-case digits. */
  function HexByte(b: bv8): (t: seq<bv8>)
    ensures |t| == 2
  {
    [HexDigit(b >> 4), HexDigit(b & 0xF)]
  }

  /** The characters 0 to 9 and A to F. */
  const DIGITS: seq<bv8> :=
    [0x30, 0x31, 0x32, 0x33, 0x34, 0x35, 0x36, 0x37, 0x38, 0x39, 0x41, 0x42, 0x43, 0x44, 0x45, 0x46]

  /** A character stands for a number above 0 exactly if it is its digit. */
  lemma NibbleReads(c: bv8, n: nat)
    requires 0 < n < 16
    ensures Nibble(c) == n as bv8 <==> c == DIGITS[n]
  {
    assert n == 1 || n == 2 || n == 3 || n == 4 || n == 5 || n == 6 || n == 7 || n == 8
        || n == 9 || n == 10 || n == 11 || n == 12 || n == 13 || n == 14 || n == 15;
  }

  /** The first of two characters is the high half. */
  lemma OctetReads(c0: bv8, c1: bv8)
    ensures Nibble(c0) < 16 && Nibble(c1) < 16 && Octet(c0, c1) == 16 * Nibble(c0) + Nibble(c1)
  {
    assert Nibble(c0) < 16 && Nibble(c1) < 16;
  }

  lemma OctetOfDigits(b: bv8)
    ensures Octet(HexByte(b)[0], HexByte(b)[1]) == b
  {
  }

  function Encode(s: seq<bv8>): (t: seq<bv8>)
    ensures |t| == 2 * |s|
  {
    if s == [] then [] else Encode(s[..|s| - 1]) + HexByte(s[|s| - 1])
  }

  /** The first n bytes that the characters t stand for. */
  function Decode(t: seq<bv8>, n: nat): (s: seq<bv8>)
    requires 2 * n <= |t|
    ensures |s| == n
  {
    if n == 0 then [] else Decode(t, n - 1) + [Octet(t[2 * n - 2], t[2 * n - 1])]
  }

  lemma {:induction false} DecodePrefix(t: seq<bv8>, u: seq<bv8>, n: nat)
    requires 2 * n <= |t|
    ensures Decode(t + u, n) == Decode(t, n)
  {
    if n > 0 {
      DecodePrefix(t, u, n - 1);
    }
  }

  lemma {:induction false} DecodeEncode(s: seq<bv8>, rest: seq<bv8>)
    ensures Decode(Encode(s) + rest, |s|) == s
  {
    hide Octet, HexByte;
    DecodePrefix(Encode(s), rest, |s|);
    if s != [] {
      var r, b := s[..|s| - 1], s[|s| - 1];
      DecodeEncode(r, HexByte(b));
      OctetOfDigits(b);
    }
  }

  /** The bytes decoded are those of the pairs in order. */
  lemma {:induction false} DecodeAt(t: seq<bv8>, n: nat, i: nat)
    requires 2 * n <= |t| && i < n
    ensures Decode(t, n)[i] == Octet(t[2 * i], t[2 * i + 1])
  {
    hide Octet;
    if i < n - 1 {
      DecodeAt(t, n - 1, i);
    }
  }

  function Plus(a: bv8, b: bv8): bv8 {
    a + b
  }

  function Sum(s: seq<bv8>): bv8 {
    if s == [] then 0 else Plus(Sum(s[..|s| - 1]), s[|s| - 1])
  }

  lemma SumMore(s: seq<bv8>, b: bv8)
    ensures Sum(s + [b]) == Plus(Sum(s), b)
  {
    hide Plus;
    assert (s + [b])[..|s|] == s;
  }

  lemma PlusOrder(a: bv8, b: bv8, c: bv8)
    ensures Plus(a, Plus(b, c)) == Plus(Plus(a, b), c) && Plus(0, a) == a == Plus(a, 0)
  {
  }

  lemma SumOfNothing()
    ensures Sum([]) == 0
  {
  }

  /** Every byte counts once. */
  lemma {:induction false} SumJoins(s: seq<bv8>, t: seq<bv8>)
    ensures Sum(s + t) == Plus(Sum(s), Sum(t))
  {
    hide Sum, Plus;
    if t == [] {
      assert s + t == s;
      SumOfNothing();
      PlusOrder(Sum(s), 0, 0);
    } else {
      var u, b := t[..|t| - 1], t[|t| - 1];
      SumJoins(s, u);
      SumMore(u, b);
      SumMore(s + u, b);
      PlusOrder(Sum(s), Sum(u), b);
      assert t == u + [b] && s + t == s + u + [b];
    }
  }

  lemma SumOfOne(b: bv8)
    ensures Sum([b]) == b
  {
    hide Sum, Plus;
    SumOfNothing();
    SumMore([], b);
    PlusOrder(b, 0, 0);
    assert [] + [b] == [b];
  }

  /** The longitudinal redundancy check: the two's complement of the sum. */
  function Lrc(s: seq<bv8>): bv8 {
    0 - Sum(s)
  }

  /** The length that __xfer_rcv_frame hands to ucMBAsciiLRC, whose parameter has 16 bits. */
  function Short(len: nat): nat {
    len % 0x1_0000
  }

  /** How many pairs of characters ucMBAsciiLRC adds up in a frame of len characters. */
  function Pairs(len: nat): nat {
    if len < 4 then 0 else (len - 2) / 2
  }

  /** ucMBAsciiLRC. */
  method UcMBAsciiLrc(frame: array<bv8>, len: nat) returns (lrc: bv8)
    requires len <= frame.Length && len < 0x1_0000
    ensures if len > 0 then lrc == Lrc(Decode(frame[1..len], Pairs(len))) else lrc == 0
  {
    hide Octet;
    lrc := 0;
    var i := 1;
    ghost var k := 0;
    while i <= len - 3
      invariant i == 1 + 2 * k && k <= Pairs(len)
      invariant if len > 0 then 2 * k <= |frame[1..len]| && lrc == Sum(Decode(frame[1..len], k)) else lrc == 0
    {
      var c0 := frame[i];
      var c1 := frame[i + 1];
      i := i + 2;
      k := k + 1;
      lrc := lrc + Octet(c0, c1);
    }
    assert k == Pairs(len);
    lrc := 0 - lrc;
  }

  // ---------------------------------------------------------------- __xfer_rcv_frame

  /** The test of an ASCII frame: the bytes of the length that ucMBAsciiLRC sees sum to zero. */
  predicate AsciiPasses(f: seq<bv8>) {
    |f| >= ASCII_SIZE_MIN && Sum(Decode(f[1..], Pairs(Short(|f|)))) == 0
  }

  /** The tests of __xfer_rcv_frame: the slave address of a frame that may be forwarded. */
  method Accept(protocol: Protocol, frame: array<bv8>, len: nat) returns (slave: Option<bv8>)
    requires len <= frame.Length
    ensures protocol.Rtu? ==> (slave.Some? <==> len >= RTU_SIZE_MIN && frame[len - 2..len] == Trailer(frame[..len - 2]))
    ensures protocol.Rtu? && slave.Some? ==> slave.value == frame[0]
    ensures protocol.Ascii? ==> (slave.Some? <==> AsciiPasses(frame[..len]))
    ensures protocol.Ascii? && slave.Some? ==> slave.value == Octet(frame[1], frame[2])
  {
    hide Octet, Decode, Sum, Trailer, Crc16;
    slave := None;
    if protocol.Rtu? {
      if len >= RTU_SIZE_MIN {
        var crc := DasCrc16(frame, len);
        ghost var s := frame[..len];
        Residue(s);
        assert s[..len - 2] == frame[..len - 2] && s[len - 2..] == frame[len - 2..len];
        if crc == 0 {
          slave := Some(frame[0]);
        }
      }
    } else if len >= ASCII_SIZE_MIN {
      ghost var t := frame[1..len];
      assert frame[..len][1..] == t;
      var lrc := UcMBAsciiLrc(frame, Short(len));
      NegatedZero(Sum(Decode(t, Pairs(Short(len)))));
      if Short(len) > 0 {
        assert t == frame[1..Short(len)] + frame[Short(len)..len];
        DecodePrefix(frame[1..Short(len)], frame[Short(len)..len], Pairs(Short(len)));
      } else {
        NothingDecoded(t);
      }
      if lrc == 0 {
        slave := Some(Octet(frame[1], frame[2]));
      }
    }
  }

  lemma NothingDecoded(t: seq<bv8>)
    ensures Sum(Decode(t, 0)) == 0
  {
  }

  lemma NegatedZero(b: bv8)
    ensures 0 - b == 0 <==> b == 0
  {
  }

  /** A frame of MODBUS ASCII: colon, payload and check byte in upper-case hexadecimal, CR LF. */
  function AsciiFrame(payload: seq<bv8>, check: bv8): (f: seq<bv8>)
    ensures |f| == 2 * |payload| + 5
  {
    [0x3A] + Encode(payload + [check]) + [0x0D, 0x0A]
  }

  /** The check byte of such a frame is checked exactly if the frame is shorter than 2^16: then it
      passes exactly if the check byte is the check of its payload.  The address found is the first
      byte of the payload. */
  lemma AsciiAccepted(payload: seq<bv8>)
    requires payload != []
    ensures (forall check: bv8 :: AsciiPasses(AsciiFrame(payload, check)) <==> check == Lrc(payload))
            <==> 2 * |payload| + 5 < 0x1_0000
    ensures forall check: bv8 :: Octet(AsciiFrame(payload, check)[1], AsciiFrame(payload, check)[2]) == payload[0]
  {
    hide Octet, Sum, Lrc, Encode, AsciiPasses, Decode, AsciiFrame;
    forall check: bv8
      ensures Octet(AsciiFrame(payload, check)[1], AsciiFrame(payload, check)[2]) == payload[0]
    {
      AddressFound(payload, check);
    }
    if 2 * |payload| + 5 < 0x1_0000 {
      forall check: bv8 ensures AsciiPasses(AsciiFrame(payload, check)) <==> check == Lrc(payload) {
        ShortFrame(payload, check);
      }
    } else {
      var l := Lrc(payload);
      assert l + 1 != l;
      CheckIgnored(payload, l, l + 1);
    }
  }

  lemma AddressFound(payload: seq<bv8>, check: bv8)
    requires payload != []
    ensures Octet(AsciiFrame(payload, check)[1], AsciiFrame(payload, check)[2]) == payload[0]
  {
    hide Octet, Sum, Lrc, Encode;
    var f, q := AsciiFrame(payload, check), payload + [check];
    assert f[1..] == Encode(q) + [0x0D, 0x0A];
    DecodeEncode(q, [0x0D, 0x0A]);
    DecodeAt(f[1..], |q|, 0);
  }

  lemma ShortFrame(payload: seq<bv8>, check: bv8)
    requires payload != [] && 2 * |payload| + 5 < 0x1_0000
    ensures AsciiPasses(AsciiFrame(payload, check)) <==> check == Lrc(payload)
  {
    hide Octet, Sum, Lrc, Encode;
    var f, q := AsciiFrame(payload, check), payload + [check];
    assert f[1..] == Encode(q) + [0x0D, 0x0A];
    DecodeEncode(q, [0x0D, 0x0A]);
    SumWithCheck(payload, check);
  }

  /** Of a longer frame the sum does not reach the check byte. */
  lemma CheckIgnored(payload: seq<bv8>, c: bv8, d: bv8)
    requires 2 * |payload| + 5 >= 0x1_0000
    ensures AsciiPasses(AsciiFrame(payload, c)) <==> AsciiPasses(AsciiFrame(payload, d))
  {
    hide Octet, Sum, Encode, Decode;
    var n := Pairs(Short(2 * |payload| + 5));
    PayloadOnly(payload, c, n);
    PayloadOnly(payload, d, n);
  }

  lemma PayloadOnly(payload: seq<bv8>, c: bv8, n: nat)
    requires n <= |payload|
    ensures Decode(AsciiFrame(payload, c)[1..], n) == Decode(Encode(payload), n)
  {
    hide Octet, HexByte;
    var q := payload + [c];
    assert q[..|q| - 1] == payload;
    assert AsciiFrame(payload, c)[1..] == Encode(payload) + (HexByte(c) + [0x0D, 0x0A]);
    DecodePrefix(Encode(payload), HexByte(c) + [0x0D, 0x0A], n);
  }

  lemma SumWithCheck(payload: seq<bv8>, check: bv8)
    ensures Sum(payload + [check]) == 0 <==> check == Lrc(payload)
  {
    var q := payload + [check];
    assert q[..|q| - 1] == payload;
  }
}
