/**
 The byte ring of sdccp/bfifo.c.  Its in and out counters run on mod 2^32 and are never reduced
 mod size, so a byte keeps its place across a wrap of the counters only if size divides 2^32.
 */
module Bfifo {
  import opened Common

  // ---------------------------------------------------------------- counters and places

  function Sub(a: word, b: word): word {
    (a - b) % WORD
  }

  function Min(a: nat, b: nat): nat {
    if a < b then a else b
  }

  /** Where the byte with number n goes: its 32-bit counter mod size. */
  function Place(n: nat, size: nat): nat
    requires size > 0
  {
    n % WORD % size
  }

  /** The counters do not disturb places up to the byte with number n. */
  predicate Steady(size: nat, n: nat)
    requires size > 0
  {
    WORD % size == 0 || n <= WORD
  }

  lemma ModUnique(a: nat, k: int, r: nat, m: nat)
    requires m > 0 && r < m && a == k * m + r
    ensures a % m == r
  {
    var q, t := a / m, a % m;
    assert (q - k) * m == r - t && (k - q) * m == t - r;
    if q > k {
      AtLeast(q - k, m);
    } else if q < k {
      AtLeast(k - q, m);
    }
  }

  lemma {:induction false} AtLeast(x: nat, m: nat)
    requires x > 0
    ensures x * m >= m
  {
    if x > 1 {
      AtLeast(x - 1, m);
      assert x * m == (x - 1) * m + m;
    }
  }

  /** If size divides 2^32, the counter mod size is the number of the byte mod size. */
  lemma PlaceDivides(n: nat, size: nat)
    requires size > 0 && WORD % size == 0
    ensures Place(n, size) == n % size
  {
    var c := n % WORD;
    assert n == n / WORD * WORD + c && WORD == WORD / size * size && c == c / size * size + c % size;
    assert n == (n / WORD * (WORD / size) + c / size) * size + c % size by {
      assert n / WORD * (WORD / size * size) == n / WORD * (WORD / size) * size;
    }
    ModUnique(n, n / WORD * (WORD / size) + c / size, c % size, size);
  }

  lemma PlaceSteady(n: nat, size: nat)
    requires size > 0 && Steady(size, n + 1)
    ensures Place(n, size) == n % size
  {
    if WORD % size == 0 {
      PlaceDivides(n, size);
    }
  }

  /** And only then. */
  lemma PlacesIffDivides(size: nat)
    requires 0 < size < WORD
    ensures (forall n: nat :: Place(n, size) == n % size) <==> WORD % size == 0
  {
    if WORD % size == 0 {
      forall n: nat
        ensures Place(n, size) == n % size
      {
        PlaceDivides(n, size);
      }
    } else {
      assert Place(WORD, size) == 0;
    }
  }

  /** From a place on, the next bytes follow it and go round at size. */
  lemma PlaceNext(n: nat, j: nat, size: nat)
    requires size > 0 && j < size
    ensures (n + j) % size == if n % size + j < size then n % size + j else n % size + j - size
  {
    var q, r := n / size, n % size;
    if r + j < size {
      ModUnique(n + j, q, r + j, size);
    } else {
      assert (q + 1) * size == q * size + size;
      ModUnique(n + j, q + 1, r + j - size, size);
    }
  }

  lemma PlacesDiffer(m: nat, n: nat, size: nat)
    requires size > 0 && m < n < m + size
    ensures m % size != n % size
  {
    PlaceNext(m, n - m, size);
  }

  lemma CountIs(i: nat, o: nat)
    requires o <= i < o + WORD
    ensures Sub(i % WORD, o % WORD) == i - o
  {
    var a, b := i / WORD, o / WORD;
    assert i == a * WORD + i % WORD && o == b * WORD + o % WORD;
    var d := i % WORD - o % WORD;
    assert i - o == (a - b) * WORD + d;
    if d < 0 {
      assert a - b >= 1;
      assert a - b == 1;
      assert d % WORD == d + WORD;
    } else {
      assert a - b == 0;
    }
  }

  lemma CounterAdds(n: nat, k: nat)
    ensures (n % WORD + k) % WORD == (n + k) % WORD
  {
    var q := n / WORD;
    var t := n % WORD + k;
    assert n + k == (q + t / WORD) * WORD + t % WORD;
    ModUnique(n + k, q + t / WORD, t % WORD, WORD);
  }

  lemma SubIs(a: word, b: word)
    ensures Sub(a, b) == if a >= b then a - b else a - b + WORD
  {
  }

  lemma SubAdds(i: word, o: word, len: nat)
    requires Sub(i, o) + len < WORD
    ensures Sub((i + len) % WORD, o) == Sub(i, o) + len
  {
    hide Sub;
    SubIs(i, o);
    assert (i + len) % WORD == if i + len < WORD then i + len else i + len - WORD;
    SubIs((i + len) % WORD, o);
  }

  lemma SubTakes(i: word, o: word, len: nat)
    requires len <= Sub(i, o)
    ensures Sub(i, (o + len) % WORD) == Sub(i, o) - len
  {
    hide Sub;
    SubIs(i, o);
    assert (o + len) % WORD == if o + len < WORD then o + len else o + len - WORD;
    SubIs(i, (o + len) % WORD);
  }

  // ---------------------------------------------------------------- the ring on values

  /** The fields of struct bfifo; size is the length of the buffer. */
  datatype Ring = Ring(inn: word, out: word, buffer: seq<byte>) {
    /** The counters are at most size apart. */
    predicate Bounded() {
      0 < |buffer| < WORD && Sub(inn, out) <= |buffer|
    }
  }

  /** j bytes on from pos, round the end. */
  function Round(pos: nat, j: nat, size: nat): nat
    requires pos < size && j < size
  {
    if pos + j < size then pos + j else pos + j - size
  }

  /** The two copies of bfifo_push: data from pos on, round the end. */
  function Written(b: seq<byte>, pos: nat, data: seq<byte>): (b': seq<byte>)
    requires pos < |b| && |data| <= |b|
    ensures |b'| == |b|
    ensures forall j | 0 <= j < |data| :: b'[Round(pos, j, |b|)] == data[j]
    ensures forall k | 0 <= k < |b| && !(pos <= k < pos + |data|) && !(k < pos + |data| - |b|) :: b'[k] == b[k]
  {
    var l := Min(|data|, |b| - pos);
    var b1 := b[..pos] + data[..l] + b[pos + l..];
    if |data| > l then data[l..] + b1[|data| - l..] else b1
  }

  /** The two copies of bfifo_pull and bfifo_peek. */
  function Read(b: seq<byte>, pos: nat, len: nat): (data: seq<byte>)
    requires pos < |b| && len <= |b|
    ensures |data| == len && forall j | 0 <= j < len :: data[j] == b[Round(pos, j, |b|)]
  {
    var l := Min(len, |b| - pos);
    b[pos..pos + l] + b[..len - l]
  }

  /** bfifo_push: the ring after it and the bytes taken; ready says how a wait for room ended. */
  function PushStep(s: Ring, data: seq<byte>, ready: bool): (r: (Ring, nat))
    requires s.Bounded()
    ensures r.0.Bounded() && |r.0.buffer| == |s.buffer| && r.1 <= |data|
  {
    var room := |s.buffer| - Sub(s.inn, s.out);
    if room == 0 && !ready then (s, 0)
    else
      var len := Min(|data|, room);
      SubAdds(s.inn, s.out, len);
      (Ring((s.inn + len) % WORD, s.out, Written(s.buffer, s.inn % |s.buffer|, data[..len])), len)
  }

  /** bfifo_pull: the ring after it and the bytes handed out; ready says how a wait for bytes ended. */
  function PullStep(s: Ring, n: nat, ready: bool): (r: (Ring, seq<byte>))
    requires s.Bounded()
    ensures r.0.Bounded() && |r.0.buffer| == |s.buffer|
  {
    if s.inn == s.out && !ready then (s, [])
    else
      var len := Min(n, Sub(s.inn, s.out));
      SubTakes(s.inn, s.out, len);
      (s.(out := (s.out + len) % WORD), Read(s.buffer, s.out % |s.buffer|, len))
  }

  // ---------------------------------------------------------------- the order of bytes

  /** The byte with number i of all bytes pushed is in its place. */
  predicate InPlace(buffer: seq<byte>, pushed: seq<byte>, i: nat)
    requires |buffer| > 0 && i < |pushed|
  {
    buffer[i % |buffer|] == pushed[i]
  }

  /** The ring after `pushed` went in and `pulled` came out: the counters are the byte counts mod
      2^32, at most size bytes are held, and every byte held is in its place. */
  predicate Ordered(s: Ring, pushed: seq<byte>, pulled: seq<byte>) {
    && 0 < |s.buffer| < WORD
    && pulled <= pushed && |pushed| - |pulled| <= |s.buffer|
    && s.inn == |pushed| % WORD && s.out == |pulled| % WORD
    && forall i | |pulled| <= i < |pushed| :: InPlace(s.buffer, pushed, i)
  }

  lemma OrderedCount(s: Ring, pushed: seq<byte>, pulled: seq<byte>)
    requires Ordered(s, pushed, pulled)
    ensures s.Bounded() && Sub(s.inn, s.out) == |pushed| - |pulled|
  {
    CountIs(|pushed|, |pulled|);
  }

  lemma OrderedLength(s: Ring, pushed: seq<byte>, pulled: seq<byte>)
    requires Ordered(s, pushed, pulled)
    ensures pulled <= pushed && |pushed| <= |pulled| + |s.buffer| && 0 < |s.buffer| < WORD
  {
  }

  /** Writing bytes from the next place on, round the end, keeps what is held and adds to it. */
  lemma PushedInPlace(b: seq<byte>, pushed: seq<byte>, o: nat, data: seq<byte>)
    requires |b| > 0 && o <= |pushed| && |pushed| + |data| <= o + |b|
    requires forall i | o <= i < |pushed| :: InPlace(b, pushed, i)
    ensures forall i | o <= i < |pushed + data| :: InPlace(Written(b, |pushed| % |b|, data), pushed + data, i)
  {
    hide Written;
    var n, size := |pushed|, |b|;
    var b' := Written(b, n % size, data);
    forall i | o <= i < |pushed + data|
      ensures InPlace(b', pushed + data, i)
    {
      if i < n {
        assert InPlace(b, pushed, i);
        Untouched(n, i, size, |data|);
      } else {
        PlaceNext(n, i - n, size);
        assert b'[Round(n % size, i - n, size)] == data[i - n];
      }
    }
  }

  lemma Untouched(n: nat, i: nat, size: nat, len: nat)
    requires size > 0 && i < n && n + len <= i + size
    ensures
      var pos, k := n % size, i % size;
      !(pos <= k < pos + len) && !(k < pos + len - size)
  {
    var pos, k := n % size, i % size;
    if pos <= k {
      PlaceNext(n, k - pos, size);
      if k < pos + len {
        assert (n + (k - pos)) % size == k;
        PlacesDiffer(i, n + (k - pos), size);
      }
    } else {
      PlaceNext(n, k + size - pos, size);
      if k < pos + len - size {
        PlacesDiffer(i, n + (k + size - pos), size);
      }
    }
  }

  /** As many bytes as fit are appended, as long as the counters keep places. */
  lemma PushOrdered(s: Ring, pushed: seq<byte>, pulled: seq<byte>, data: seq<byte>, ready: bool)
    requires Ordered(s, pushed, pulled) && Steady(|s.buffer|, |pushed| + Min(|data|, |s.buffer| - (|pushed| - |pulled|)))
    ensures s.Bounded()
    ensures var (s', len) := PushStep(s, data, ready);
            && len == Min(|data|, |s.buffer| - (|pushed| - |pulled|))
            && Ordered(s', pushed + data[..len], pulled)
  {
    hide InPlace, Written;
    OrderedCount(s, pushed, pulled);
    var (s', len) := PushStep(s, data, ready);
    CounterAdds(|pushed|, len);
    if len == 0 {
      assert data[..len] == [] && pushed + [] == pushed;
      WritesNothing(s.buffer, s.inn % |s.buffer|);
    } else {
      PlaceSteady(|pushed|, |s.buffer|);
      PushedInPlace(s.buffer, pushed, |pulled|, data[..len]);
    }
  }

  lemma WritesNothing(b: seq<byte>, pos: nat)
    requires pos < |b|
    ensures Written(b, pos, []) == b
  {
    assert b[..pos] + [] + b[pos..] == b;
  }

  /** The oldest bytes held are read, as long as the counters keep places. */
  lemma ReadOldest(s: Ring, pushed: seq<byte>, pulled: seq<byte>, len: nat)
    requires Ordered(s, pushed, pulled) && len <= |pushed| - |pulled| && (len > 0 ==> Steady(|s.buffer|, |pulled| + len))
    ensures Read(s.buffer, s.out % |s.buffer|, len) == pushed[|pulled|..|pulled| + len]
  {
    hide Read;
    if len > 0 {
      assert Steady(|s.buffer|, |pulled| + 1);
      PlaceSteady(|pulled|, |s.buffer|);
    }
    forall j | 0 <= j < len
      ensures Read(s.buffer, s.out % |s.buffer|, len)[j] == pushed[|pulled| + j]
    {
      PlaceNext(|pulled|, j, |s.buffer|);
      assert InPlace(s.buffer, pushed, |pulled| + j);
    }
  }

  /** The oldest bytes come out, as long as the counters keep places. */
  lemma PullOrdered(s: Ring, pushed: seq<byte>, pulled: seq<byte>, n: nat, ready: bool)
    requires Ordered(s, pushed, pulled) && Steady(|s.buffer|, |pushed|)
    ensures s.Bounded()
    ensures var (s', data) := PullStep(s, n, ready);
            && data == pushed[|pulled|..][..Min(n, |pushed| - |pulled|)]
            && Ordered(s', pushed, pulled + data)
  {
    hide InPlace, Read, Ordered;
    OrderedCount(s, pushed, pulled);
    OrderedLength(s, pushed, pulled);
    var len := Min(n, |pushed| - |pulled|);
    HeldTaken(pushed, pulled, len);
    if s.inn == s.out && !ready {
      assert pushed[|pulled|..][..0] == [] && pulled + [] == pulled;
    } else {
      SteadyBelow(s, pushed, pulled, len);
      ReadOldest(s, pushed, pulled, len);
      PulledOrdered(s, pushed, pulled, pushed[|pulled|..][..len]);
    }
  }

  lemma SteadyBelow(s: Ring, pushed: seq<byte>, pulled: seq<byte>, len: nat)
    requires |s.buffer| > 0 && Steady(|s.buffer|, |pushed|) && |pulled| + len <= |pushed|
    ensures Steady(|s.buffer|, |pulled| + len)
  {
  }

  lemma PulledOrdered(s: Ring, pushed: seq<byte>, pulled: seq<byte>, data: seq<byte>)
    requires Ordered(s, pushed, pulled) && pulled + data <= pushed
    ensures Ordered(s.(out := (s.out + |data|) % WORD), pushed, pulled + data)
  {
    CounterAdds(|pulled|, |data|);
  }

  lemma HeldTaken(pushed: seq<byte>, pulled: seq<byte>, len: nat)
    requires pulled <= pushed && |pulled| + len <= |pushed|
    ensures |pushed[|pulled|..][..len]| == len
    ensures pulled + pushed[|pulled|..][..len] <= pushed
    ensures pushed[|pulled|..][..len] == pushed[|pulled|..|pulled| + len]
  {
    assert pushed == pulled + pushed[|pulled|..];
  }

  // ---------------------------------------------------------------- the class

  /** Mirrors struct bfifo; pushed and pulled are all the bytes that went in and came out. */
  class Fifo {
    const size: nat
    const buffer: array<byte>
    var inn: word
    var out: word
    ghost var pushed: seq<byte>
    ghost var pulled: seq<byte>

    ghost function Fields(): Ring
      reads this, buffer
    {
      Ring(inn, out, buffer[..])
    }

    ghost predicate Valid()
      reads this, buffer
    {
      buffer.Length == size && Fields().Bounded()
    }

    /** The ring holds the bytes pushed and not yet pulled, in order. */
    ghost predicate InOrder()
      reads this, buffer
    {
      Valid() && Ordered(Fields(), pushed, pulled)
    }

    /** The bytes held, oldest first. */
    ghost function Held(): seq<byte>
      requires InOrder()
      reads this, buffer
    {
      pushed[|pulled|..]
    }

    /** bfifo_init. */
    constructor (n: nat)
      requires 0 < n < WORD
      ensures InOrder() && size == n && pushed == [] && pulled == [] && fresh(buffer)
    {
      size, inn, out := n, 0, 0;
      pushed, pulled := [], [];
      buffer := new byte[n];
    }

    /** bfifo_count. */
    method Count() returns (n: nat)
      requires Valid()
      ensures n <= size && (InOrder() ==> n == |Held()|)
    {
      if InOrder() {
        OrderedCount(Fields(), pushed, pulled);
      }
      n := Sub(inn, out);
    }

    /** bfifo_push; ready says how a wait for room ended.  As many bytes as fit are taken, in
        order, as long as the counters keep places. */
    method Push(data: seq<byte>, ready: bool) returns (len: nat)
      requires Valid()
      modifies this, buffer
      ensures Valid() && (Fields(), len) == PushStep(old(Fields()), data, ready)
      ensures pulled == old(pulled) && pushed == old(pushed) + data[..len]
      ensures old(InOrder()) && Steady(size, |old(pushed)| + Min(|data|, size - |old(Held())|)) ==>
                && InOrder() && len == Min(|data|, size - |old(Held())|)
                && Held() == old(Held()) + data[..len]
    {
      hide Written, Ordered, PushStep;
      ghost var s, steady := Fields(), false;
      if InOrder() {
        HeldLength();
        steady := Steady(size, |pushed| + Min(|data|, size - |Held()|));
        if steady {
          PushOrdered(s, pushed, pulled, data, ready);
        }
      }
      PushIs(s, data, ready);
      var room := size - Sub(inn, out);
      if room == 0 && !ready {
        len := 0;
      } else {
        len := Min(|data|, room);
        CopyRound(inn % size, data[..len]);
        inn := (inn + len) % WORD;
      }
      ghost var was := pushed;
      pushed := pushed + data[..len];
      if steady {
        HeldAppends(was, pulled, data[..len]);
      }
    }

    lemma HeldLength()
      requires InOrder()
      ensures |Held()| == |pushed| - |pulled| <= size
    {
    }

    /** The two copies of bfifo_push. */
    method CopyRound(pos: nat, data: seq<byte>)
      requires pos < size == buffer.Length && |data| <= size
      modifies buffer
      ensures buffer[..] == Written(old(buffer[..]), pos, data)
    {
      hide Written;
      var l := Min(|data|, size - pos);
      ghost var b := buffer[..];
      Copy(pos, data[..l]);
      ghost var b1 := buffer[..];
      if |data| > l {
        Copy(0, data[l..]);
      }
      WrittenTwice(b, b1, buffer[..], pos, data, l);
    }

    /** memcpy into the buffer. */
    method Copy(at: nat, data: seq<byte>)
      requires at + |data| <= buffer.Length
      modifies buffer
      ensures buffer[..] == old(buffer[..])[..at] + data + old(buffer[..])[at + |data|..]
    {
      forall k | 0 <= k < |data| {
        buffer[at + k] := data[k];
      }
    }

    /** The two copies of bfifo_pull and bfifo_peek. */
    method CopyOut(pos: nat, len: nat) returns (data: seq<byte>)
      requires pos < size == buffer.Length && len <= size
      ensures data == Read(buffer[..], pos, len)
    {
      var l := Min(len, size - pos);
      data := buffer[pos..pos + l];
      if len > l {
        data := data + buffer[..len - l];
      }
    }

    /** bfifo_pull; ready says how a wait for bytes ended. */
    method Pull(n: nat, ready: bool) returns (len: nat, data: seq<byte>)
      requires Valid()
      modifies this
      ensures Valid() && (Fields(), data) == PullStep(old(Fields()), n, ready) && len == |data|
      ensures pushed == old(pushed) && pulled == old(pulled) + data
      ensures old(InOrder()) && Steady(size, |pushed|) ==>
                && InOrder() && len == Min(n, |old(Held())|) && data == old(Held())[..len]
                && Held() == old(Held())[len..]
    {
      hide Read, Ordered, PullStep;
      ghost var s, steady := Fields(), InOrder() && Steady(size, |pushed|);
      if steady {
        HeldLength();
        PullOrdered(s, pushed, pulled, n, ready);
      }
      PullIs(s, n, ready);
      if inn == out && !ready {
        len, data := 0, [];
      } else {
        len := Min(n, Sub(inn, out));
        data := CopyOut(out % size, len);
        out := (out + len) % WORD;
      }
      ghost var was := pulled;
      pulled := pulled + data;
      if steady {
        HeldShrinks(pushed, was, len);
      }
    }

    /** bfifo_peek. */
    method Peek(n: nat) returns (len: nat, data: seq<byte>)
      requires Valid()
      ensures data == PullStep(Fields(), n, true).1 && len == |data|
      ensures InOrder() && Steady(size, |pushed|) ==> len == Min(n, |Held()|) && data == Held()[..len]
    {
      hide Read, Ordered;
      if InOrder() && Steady(size, |pushed|) {
        HeldLength();
        PullOrdered(Fields(), pushed, pulled, n, true);
      }
      if inn == out {
        return 0, [];
      }
      len := Min(n, Sub(inn, out));
      data := CopyOut(out % size, len);
    }
  }

  lemma WrittenTwice(b: seq<byte>, b1: seq<byte>, b2: seq<byte>, pos: nat, data: seq<byte>, l: nat)
    requires pos < |b| && |data| <= |b| && l == Min(|data|, |b| - pos)
    requires b1 == b[..pos] + data[..l] + b[pos + l..]
    requires b2 == if |data| > l then b1[..0] + data[l..] + b1[0 + |data[l..]|..] else b1
    ensures b2 == Written(b, pos, data)
  {
    assert b1[..0] + data[l..] == data[l..];
  }

  lemma PushIs(s: Ring, data: seq<byte>, ready: bool)
    requires s.Bounded()
    ensures var room := |s.buffer| - Sub(s.inn, s.out);
            var len := Min(|data|, room);
            PushStep(s, data, ready) ==
              if room == 0 && !ready then (s, 0)
              else (Ring((s.inn + len) % WORD, s.out, Written(s.buffer, s.inn % |s.buffer|, data[..len])), len)
  {
  }

  lemma PullIs(s: Ring, n: nat, ready: bool)
    requires s.Bounded()
    ensures var len := Min(n, Sub(s.inn, s.out));
            PullStep(s, n, ready) ==
              if s.inn == s.out && !ready then (s, [])
              else (s.(out := (s.out + len) % WORD), Read(s.buffer, s.out % |s.buffer|, len))
  {
  }

  lemma HeldAppends(pushed: seq<byte>, pulled: seq<byte>, data: seq<byte>)
    requires |pulled| <= |pushed|
    ensures (pushed + data)[|pulled|..] == pushed[|pulled|..] + data
  {
  }

  lemma HeldShrinks(pushed: seq<byte>, pulled: seq<byte>, len: nat)
    requires |pulled| + len <= |pushed|
    ensures pushed[|pulled| + len..] == pushed[|pulled|..][len..]
  {
  }

  // ---------------------------------------------------------------- where the counters wrap

  /** After a push, what two pulls hand out, the second asking for all that is left: the bytes held
      before and the bytes taken, in order. */
  predicate KeepsOrder(s: Ring, pushed: seq<byte>, pulled: seq<byte>, data: seq<byte>, n: nat)
    requires s.Bounded() && |pulled| <= |pushed|
  {
    var (s1, len) := PushStep(s, data, true);
    var (s2, first) := PullStep(s1, n, true);
    first + PullStep(s2, |s.buffer|, true).1 == pushed[|pulled|..] + data[..len]
  }

  /** KeepsOrder on rings whose bytes are in order before the push. */
  predicate KeepsOrderOf(s: Ring, pushed: seq<byte>, pulled: seq<byte>, data: seq<byte>, n: nat) {
    Ordered(s, pushed, pulled) ==> (OrderedCount(s, pushed, pulled); KeepsOrder(s, pushed, pulled, data, n))
  }

  lemma InOrderThrough(s: Ring, pushed: seq<byte>, pulled: seq<byte>, data: seq<byte>, n: nat)
    requires Ordered(s, pushed, pulled) && WORD % |s.buffer| == 0
    ensures KeepsOrderOf(s, pushed, pulled, data, n)
  {
    hide Ordered, PushStep, PullStep;
    OrderedCount(s, pushed, pulled);
    var (s1, len) := PushStep(s, data, true);
    PushOrdered(s, pushed, pulled, data, true);
    OrderedLength(s1, pushed + data[..len], pulled);
    var held := (pushed + data[..len])[|pulled|..];
    PullOrdered(s1, pushed + data[..len], pulled, n, true);
    var (s2, first) := PullStep(s1, n, true);
    OrderedLength(s2, pushed + data[..len], pulled + first);
    PullOrdered(s2, pushed + data[..len], pulled + first, |s.buffer|, true);
    OrderedLength(s, pushed, pulled);
    HeldAppends(pushed, pulled, data[..len]);
    HeldShrinks(pushed + data[..len], pulled, |first|);
    assert first + held[|first|..] == held;
  }

  /** The order of bytes is kept by every push and pull on every ring of a size exactly if the size
      divides 2^32. */
  lemma WrapKeepsOrder(size: nat)
    requires 2 <= size < WORD
    ensures (forall s: Ring, pushed: seq<byte>, pulled: seq<byte>, data: seq<byte>, n: nat | |s.buffer| == size ::
               KeepsOrderOf(s, pushed, pulled, data, n)) <==> WORD % size == 0
  {
    hide KeepsOrderOf, Ordered;
    if WORD % size == 0 {
      forall s: Ring, pushed: seq<byte>, pulled: seq<byte>, data: seq<byte>, n: nat | |s.buffer| == size
        ensures KeepsOrderOf(s, pushed, pulled, data, n)
      {
        if Ordered(s, pushed, pulled) {
          InOrderThrough(s, pushed, pulled, data, n);
        } else {
          NotOrdered(s, pushed, pulled, data, n);
        }
      }
    } else {
      var zeros, past := seq(size, _ => 0 as byte), seq(WORD - 1, _ => 0 as byte);
      OutOfOrder(zeros, past);
      assert !KeepsOrderOf(Ring(WORD - 1, WORD - 1, zeros), past, past, [0, 1], 1);
    }
  }

  lemma NotOrdered(s: Ring, pushed: seq<byte>, pulled: seq<byte>, data: seq<byte>, n: nat)
    requires !Ordered(s, pushed, pulled)
    ensures KeepsOrderOf(s, pushed, pulled, data, n)
  {
  }

  /** An empty ring whose counters are about to wrap: of two bytes pushed in one call and pulled in
      two, the second comes out of the wrong place. */
  lemma OutOfOrder(zeros: seq<byte>, past: seq<byte>)
    requires 2 <= |zeros| < WORD && (forall i | 0 <= i < |zeros| :: zeros[i] == 0) && WORD % |zeros| != 0 && |past| == WORD - 1
    ensures !KeepsOrderOf(Ring(WORD - 1, WORD - 1, zeros), past, past, [0, 1], 1)
  {
    hide Ordered, PushStep, PullStep;
    var s := Ring(WORD - 1, WORD - 1, zeros);
    EmptyOrdered(s, past);
    var b := WrapPush(zeros);
    WrapPull(b);
    var data: seq<byte> := [0, 1];
    assert data[..2] == data;
    assert (PullStep(Ring(1, WORD - 1, b), 1, true).1 + [0])[1] == 0 && (past[|past|..] + data)[1] == 1;
  }

  lemma EmptyOrdered(s: Ring, past: seq<byte>)
    requires 0 < |s.buffer| < WORD && s.inn == s.out == |past| % WORD
    ensures Ordered(s, past, past) && s.Bounded()
  {
  }

  lemma WrapPush(zeros: seq<byte>) returns (b: seq<byte>)
    requires 2 <= |zeros| < WORD && (forall i | 0 <= i < |zeros| :: zeros[i] == 0) && WORD % |zeros| != 0
    ensures var s := Ring(WORD - 1, WORD - 1, zeros);
            s.Bounded() && PushStep(s, [0, 1], true) == (Ring(1, WORD - 1, b), 2)
    ensures |b| == |zeros| && b[0] == 0
  {
    hide Written;
    var size, data: seq<byte> := |zeros|, [0, 1];
    var pos := (WORD - 1) % size;
    WrapPlace(size);
    b := Written(zeros, pos, data);
    assert data[..2] == data;
    if pos == 0 {
      assert b[Round(pos, 0, size)] == data[0];
    }
  }

  lemma WrapPull(b: seq<byte>)
    requires 2 <= |b| < WORD && b[0] == 0
    ensures Ring(1, WORD - 1, b).Bounded() && Ring(1, 0, b).Bounded()
    ensures PullStep(Ring(1, WORD - 1, b), 1, true).0 == Ring(1, 0, b) && |PullStep(Ring(1, WORD - 1, b), 1, true).1| == 1
    ensures PullStep(Ring(1, 0, b), |b|, true).1 == [0]
  {
    hide Read;
    var d := PullStep(Ring(1, 0, b), |b|, true).1;
    assert |d| == 1 && 0 % |b| == 0 && d[0] == b[Round(0, 0, |b|)];
  }

  lemma WrapPlace(size: nat)
    requires 2 <= size
    ensures (WORD - 1) % size + 1 == size <==> WORD % size == 0
  {
    PlaceNext(WORD - 1, 1, size);
  }
}
