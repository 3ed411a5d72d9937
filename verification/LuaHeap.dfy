/**
 The allocator of board/lua/lua_mem.c on the bytes of its heap.  Each block begins with an
 eight-byte header: magic, 24-bit `next`, used flag, 24-bit `prev`, least significant byte
 first.  Pointers are offsets into the heap; payload pointers lie HDR bytes past a header.
 */
module LuaHeapBytes {
  import opened Common
  import opened LuaHeapModel
  import opened LuaHeapLaws
  import opened LuaHeapTheorems

  const MAGIC: byte := 0xDE

  // ---------------------------------------------------------------- headers in memory

  function LinkAt(s: seq<byte>, p: nat): (v: nat)
    requires p + 3 <= |s|
    ensures v < LINK
  {
    s[p] as int + 0x100 * s[p + 1] as int + 0x1_0000 * s[p + 2] as int
  }

  function NextOf(b: seq<Block>, k: nat, end: nat): nat
    requires k < |b|
  {
    if k + 1 < |b| then b[k + 1].start else end
  }

  function PrevOf(b: seq<Block>, k: nat): nat
    requires k < |b|
  {
    if k > 0 then b[k - 1].start else 0
  }

  /** The header in memory of block k: its neighbours, its state and, when used, the magic. */
  ghost predicate HeaderOf(s: seq<byte>, b: seq<Block>, k: nat, end: nat)
    requires k < |b| && b[k].start + HDR <= |s|
  {
    var p := b[k].start;
    && LinkAt(s, p + 1) == NextOf(b, k, end)
    && LinkAt(s, p + 5) == PrevOf(b, k)
    && s[p + 4] == (if b[k].used then 1 else 0)
    && (b[k].used ==> s[p] == MAGIC)
  }

  /** The headers in memory are those of b; heap_end is used and its own successor. */
  ghost predicate Chained(s: seq<byte>, b: seq<Block>, end: nat) {
    && |s| == end + HDR && end < LINK
    && Tiled(b, end)
    && (forall k | 0 <= k < |b| :: HeaderOf(s, b, k, end))
    && s[end + 4] == 1 && LinkAt(s, end + 1) == end
  }

  /** Memory changed in the link at p only, which now reads v. */
  ghost predicate LinkPut(s: seq<byte>, s': seq<byte>, p: nat, v: nat) {
    && p + 3 <= |s| == |s'|
    && LinkAt(s', p) == v
    && forall x | 0 <= x < |s| && !(p <= x < p + 3) :: s'[x] == s[x]
  }

  /** Every payload byte of the blocks in `owned` is the same before and after. */
  ghost predicate SamePayloads(owned: set<(nat, nat)>, before: seq<byte>, after: seq<byte>) {
    && |before| == |after|
    && forall e: (nat, nat), x: nat | e in owned && e.0 + HDR <= x < e.1 && x < |before| :: after[x] == before[x]
  }

  /** Headers of blocks lie outside the payload of every used block. */
  lemma OffHeaders(h: Heap, e: (nat, nat), x: nat, p: nat, k: nat)
    requires Tiled(h.blocks, h.End()) && e in Owned(h) && e.0 + HDR <= x < e.1
    requires k <= |h.blocks| && p == if k < |h.blocks| then h.blocks[k].start else h.End()
    ensures x < p || p + HDR <= x
  {
    var j :| 0 <= j < |h.blocks| && h.blocks[j].used && e == (h.blocks[j].start, h.Stop(j));
    if j < k {
      assert j + 1 < k < |h.blocks| ==> h.blocks[j + 1].start + HDR <= p;
    } else if k < j {
      assert k + 1 < j ==> h.blocks[k + 1].start + HDR <= h.blocks[j].start;
    }
  }

  /** The header at p reads the same before and after. */
  ghost predicate SameHeader(s: seq<byte>, s': seq<byte>, p: nat)
    requires p + HDR <= |s| && p + HDR <= |s'|
  {
    && LinkAt(s', p + 1) == LinkAt(s, p + 1) && LinkAt(s', p + 5) == LinkAt(s, p + 5)
    && s'[p] == s[p] && s'[p + 4] == s[p + 4]
  }

  lemma PutNextOnly(s: seq<byte>, s': seq<byte>, q: nat, v: nat, p: nat)
    requires LinkPut(s, s', q + 1, v) && q + HDR <= |s| && p + HDR <= |s|
    requires p + HDR <= q || q + HDR <= p || p == q
    ensures p != q ==> SameHeader(s, s', p)
    ensures p == q ==> LinkAt(s', p + 1) == v && LinkAt(s', p + 5) == LinkAt(s, p + 5) && s'[p] == s[p] && s'[p + 4] == s[p + 4]
  {
  }

  lemma PutPrevOnly(s: seq<byte>, s': seq<byte>, q: nat, v: nat, p: nat)
    requires LinkPut(s, s', q + 5, v) && q + HDR <= |s| && p + HDR <= |s|
    requires p + HDR <= q || q + HDR <= p || p == q
    ensures p != q ==> SameHeader(s, s', p)
    ensures p == q ==> LinkAt(s', p + 5) == v && LinkAt(s', p + 1) == LinkAt(s, p + 1) && s'[p] == s[p] && s'[p + 4] == s[p + 4]
  {
  }

  /** Block i after a merge of k and k+1 is block j before it. */
  lemma MergeShape(b: seq<Block>, k: nat, end: nat, i: nat)
    requires Tiled(b, end) && k + 1 < |b| && i < |b| - 1
    ensures var b', j := Splice(b, k, 2, [b[k]]), if i <= k then i else i + 1;
            var p, mem, after := b[j].start, b[k].start, NextOf(b, k + 1, end);
            && b'[i] == b[j]
            && NextOf(b', i, end) == (if i == k then after else NextOf(b, j, end))
            && PrevOf(b', i) == (if i == k + 1 then mem else PrevOf(b, j))
            && (p == mem <==> i == k) && (p == after <==> i == k + 1)
            && (p + HDR <= mem || mem + HDR <= p || p == mem)
            && (p + HDR <= after || after + HDR <= p || p == after)
            && p + HDR <= end && mem + HDR <= end && after <= end
  {
  }

  lemma MergeHeader(s: seq<byte>, s1: seq<byte>, s2: seq<byte>, b: seq<Block>, k: nat, end: nat, i: nat)
    requires Chained(s, b, end) && k + 1 < |b| && !b[k].used && !b[k + 1].used && i < |b| - 1
    requires |s1| == |s2| == |s|
    requires LinkPut(s, s1, b[k].start + 1, NextOf(b, k + 1, end))
    requires LinkPut(s1, s2, NextOf(b, k + 1, end) + 5, b[k].start)
    ensures Splice(b, k, 2, [b[k]])[i].start + HDR <= end && HeaderOf(s2, Splice(b, k, 2, [b[k]]), i, end)
  {
    hide Tiled, LinkPut, LinkAt, Splice;
    var mem, after := b[k].start, NextOf(b, k + 1, end);
    MergeShape(b, k, end, i);
    var j := if i <= k then i else i + 1;
    assert HeaderOf(s, b, j, end);
    PutNextOnly(s, s1, mem, after, b[j].start);
    PutPrevOnly(s1, s2, after, mem, b[j].start);
  }

  /** Blocks k and k+1 become one: mem.next skips the second, whose successor points back. */
  lemma MergeChained(s: seq<byte>, s1: seq<byte>, s2: seq<byte>, b: seq<Block>, k: nat, end: nat)
    requires Chained(s, b, end) && k + 1 < |b| && !b[k].used && !b[k + 1].used
    requires |s1| == |s2| == |s|
    requires LinkPut(s, s1, b[k].start + 1, NextOf(b, k + 1, end))
    requires LinkPut(s1, s2, NextOf(b, k + 1, end) + 5, b[k].start)
    ensures Chained(s2, Splice(b, k, 2, [b[k]]), end)
  {
    hide Tiled, LinkPut, LinkAt, HeaderOf;
    var b' := Splice(b, k, 2, [b[k]]);
    var mem, after := b[k].start, NextOf(b, k + 1, end);
    forall i | 0 <= i < |b'| ensures b'[i].start + HDR <= end && HeaderOf(s2, b', i, end) {
      MergeHeader(s, s1, s2, b, k, end, i);
    }
    MergeShape(b, k, end, k);
    PutNextOnly(s, s1, mem, after, end);
    PutPrevOnly(s1, s2, after, mem, end);
    SpliceOneTiled(b, k, 2, b[k], end);
  }

  lemma MergePayloads(h: Heap, s: seq<byte>, s1: seq<byte>, s2: seq<byte>, k: nat)
    requires Chained(s, h.blocks, h.End()) && k + 1 < |h.blocks| && !h.blocks[k].used
    requires |s1| == |s2| == |s|
    requires LinkPut(s, s1, h.blocks[k].start + 1, NextOf(h.blocks, k + 1, h.End()))
    requires LinkPut(s1, s2, NextOf(h.blocks, k + 1, h.End()) + 5, h.blocks[k].start)
    ensures SamePayloads(Owned(h), s, s2)
  {
    forall e: (nat, nat), x: nat | e in Owned(h) && e.0 + HDR <= x < e.1 && x < |s| ensures s2[x] == s[x] {
      OffHeaders(h, e, x, h.blocks[k].start, k);
      OffHeaders(h, e, x, NextOf(h.blocks, k + 1, h.End()), k + 2);
    }
  }

  /** Memory after a block header was carved at `cut` out of the block at `mem`, whose
      successor stands at `after`; `used` is the new flag of the block at `mem`. */
  ghost predicate CarvePut(s: seq<byte>, s': seq<byte>, mem: nat, cut: nat, after: nat, end: nat, used: bool)
    requires mem + HDR <= cut && cut + HDR <= after <= end && end + HDR == |s| == |s'|
  {
    && LinkAt(s', mem + 1) == cut && LinkAt(s', mem + 5) == LinkAt(s, mem + 5)
    && s'[mem + 4] == (if used then 1 else 0) && (used ==> s'[mem] == MAGIC)
    && LinkAt(s', cut + 1) == after && LinkAt(s', cut + 5) == mem && s'[cut + 4] == 0
    && (after != end ==> LinkAt(s', after + 5) == cut)
    && (forall x | 0 <= x < |s| && !(mem <= x < mem + HDR) && !(cut <= x < cut + HDR)
          && !(after != end && after + 5 <= x < after + 8) :: s'[x] == s[x])
  }

  /** A free block's header was written at p. */
  ghost predicate HeaderPut(s: seq<byte>, s': seq<byte>, p: nat, next: nat, prev: nat) {
    && p + HDR <= |s| == |s'|
    && LinkAt(s', p + 1) == next && LinkAt(s', p + 5) == prev && s'[p + 4] == 0
    && forall x | 0 <= x < |s| && !(p <= x < p + HDR) :: s'[x] == s[x]
  }

  ghost predicate BytePut(s: seq<byte>, s': seq<byte>, p: nat, v: byte) {
    p < |s| && s' == s[p := v]
  }

  lemma HeaderElsewhere(s: seq<byte>, s': seq<byte>, q: nat, next: nat, prev: nat, p: nat)
    requires HeaderPut(s, s', q, next, prev) && p + HDR <= |s| && (p + HDR <= q || q + HDR <= p)
    ensures SameHeader(s, s', p)
  {
  }

  lemma ByteElsewhere(s: seq<byte>, s': seq<byte>, q: nat, v: byte, p: nat)
    requires BytePut(s, s', q, v) && p + HDR <= |s| && (q == p || q == p + 4 || q + 1 <= p || p + HDR <= q)
    ensures LinkAt(s', p + 1) == LinkAt(s, p + 1) && LinkAt(s', p + 5) == LinkAt(s, p + 5)
    ensures s'[p] == (if q == p then v else s[p]) && s'[p + 4] == if q == p + 4 then v else s[p + 4]
  {
  }

  /** The writes of a split, in the order of the source. */
  ghost predicate CarveWrites(s: seq<byte>, s1: seq<byte>, s2: seq<byte>, s3: seq<byte>, s4: seq<byte>, s5: seq<byte>,
                              mem: nat, cut: nat, after: nat, end: nat) {
    && mem + HDR <= cut && cut + HDR <= after <= end && end + HDR == |s|
    && |s1| == |s2| == |s3| == |s4| == |s5| == |s| && (after == end || after + HDR <= end)
    && HeaderPut(s, s1, cut, after, mem)
    && LinkPut(s1, s2, mem + 1, cut)
    && (BytePut(s2, s3, mem + 4, 1) || (s3 == s2 && s[mem + 4] == 1))
    && (if after == end then s4 == s3 else LinkPut(s3, s4, after + 5, cut))
    && (BytePut(s4, s5, mem, MAGIC) || (s5 == s4 && s[mem] == MAGIC))
  }

  lemma CarveFrame(s: seq<byte>, s1: seq<byte>, s2: seq<byte>, s3: seq<byte>, s4: seq<byte>, s5: seq<byte>,
                   mem: nat, cut: nat, after: nat, end: nat, x: nat)
    requires CarveWrites(s, s1, s2, s3, s4, s5, mem, cut, after, end)
    requires x < |s| && !(mem <= x < mem + HDR) && !(cut <= x < cut + HDR) && !(after != end && after + 5 <= x < after + 8)
    ensures s5[x] == s[x]
  {
    hide LinkAt;
    assert s1[x] == s[x];
    assert s2[x] == s1[x];
    assert s4[x] == s3[x];
  }

  lemma CarveSteps(s: seq<byte>, s1: seq<byte>, s2: seq<byte>, s3: seq<byte>, s4: seq<byte>, s5: seq<byte>,
                   mem: nat, cut: nat, after: nat, end: nat)
    requires CarveWrites(s, s1, s2, s3, s4, s5, mem, cut, after, end)
    ensures CarvePut(s, s5, mem, cut, after, end, true)
  {
    hide LinkAt, HeaderPut, LinkPut;
    forall x | 0 <= x < |s| && !(mem <= x < mem + HDR) && !(cut <= x < cut + HDR) && !(after != end && after + 5 <= x < after + 8)
      ensures s5[x] == s[x]
    {
      CarveFrame(s, s1, s2, s3, s4, s5, mem, cut, after, end, x);
    }
    HeaderElsewhere(s, s1, cut, after, mem, mem);
    PutNextOnly(s1, s2, mem, cut, mem);
    PutNextOnly(s1, s2, mem, cut, cut);
    if s3 != s2 {
      ByteElsewhere(s2, s3, mem + 4, 1, mem);
      ByteElsewhere(s2, s3, mem + 4, 1, cut);
    }
    if after != end {
      PutPrevOnly(s3, s4, after, cut, mem);
      PutPrevOnly(s3, s4, after, cut, cut);
      PutPrevOnly(s3, s4, after, cut, after);
    }
    if s5 != s4 {
      ByteElsewhere(s4, s5, mem, MAGIC, mem);
      ByteElsewhere(s4, s5, mem, MAGIC, cut);
      ByteElsewhere(s4, s5, mem, MAGIC, if after == end then cut else after);
    }
    assert LinkAt(s1, cut + 1) == after && LinkAt(s1, cut + 5) == mem && s1[cut + 4] == 0 by { HeaderReads(s, s1, cut, after, mem); }
  }

  lemma HeaderReads(s: seq<byte>, s': seq<byte>, p: nat, next: nat, prev: nat)
    requires HeaderPut(s, s', p, next, prev)
    ensures p + HDR <= |s'| == |s| && LinkAt(s', p + 1) == next && LinkAt(s', p + 5) == prev && s'[p + 4] == 0
  {
  }

  lemma CarveElsewhere(s: seq<byte>, s': seq<byte>, mem: nat, cut: nat, after: nat, end: nat, used: bool, p: nat)
    requires mem + HDR <= cut && cut + HDR <= after <= end && end + HDR == |s| == |s'|
    requires CarvePut(s, s', mem, cut, after, end, used)
    requires p + HDR <= mem || after <= p <= end
    requires p == after || p + HDR <= after || after + HDR <= p
    ensures after == end || p != after ==> SameHeader(s, s', p)
    ensures p == after ==> LinkAt(s', p + 1) == LinkAt(s, p + 1) && s'[p] == s[p] && s'[p + 4] == s[p + 4]
  {
  }

  lemma CarveShape(b: seq<Block>, k: nat, x: Block, y: Block, end: nat, i: nat)
    requires Tiled(b, end) && k < |b| && x.start == b[k].start
    requires x.start + HDR <= y.start && y.start + HDR <= NextOf(b, k, end)
    requires i <= |b|
    ensures var b', j := Splice(b, k, 1, [x, y]), if i <= k then i else i - 1;
            var after := NextOf(b, k, end);
            && b'[i] == (if i == k then x else if i == k + 1 then y else b[j])
            && NextOf(b', i, end) == (if i == k then y.start else NextOf(b, j, end))
            && PrevOf(b', i) == (if i == k + 1 then x.start else if i == k + 2 then y.start else PrevOf(b, j))
            && (i != k && i != k + 1 ==>
                  var p := b[j].start;
                  && (p + HDR <= x.start || after <= p) && p + HDR <= end
                  && (p == after <==> i == k + 2)
                  && (p == after || p + HDR <= after || after + HDR <= p))
            && (after == end || after + HDR <= end)
  {
  }

  lemma CarveHeader(s: seq<byte>, s': seq<byte>, b: seq<Block>, k: nat, x: Block, y: Block, end: nat, i: nat)
    requires Chained(s, b, end) && k < |b| && x.start == b[k].start && !y.used && |s'| == |s|
    requires x.start + HDR <= y.start && y.start + HDR <= NextOf(b, k, end) <= end
    requires CarvePut(s, s', x.start, y.start, NextOf(b, k, end), end, x.used)
    requires i <= |b|
    ensures Splice(b, k, 1, [x, y])[i].start + HDR <= end && HeaderOf(s', Splice(b, k, 1, [x, y]), i, end)
  {
    hide Tiled, LinkAt, Splice;
    CarveShape(b, k, x, y, end, i);
    var j := if i <= k then i else i - 1;
    assert HeaderOf(s, b, j, end);
    if i != k && i != k + 1 {
      CarveElsewhere(s, s', x.start, y.start, NextOf(b, k, end), end, x.used, b[j].start);
    }
  }

  /** Block k becomes two. */
  lemma CarveChained(s: seq<byte>, s': seq<byte>, b: seq<Block>, k: nat, x: Block, y: Block, end: nat)
    requires Chained(s, b, end) && k < |b| && x.start == b[k].start && !y.used && |s'| == |s|
    requires x.start + HDR <= y.start && y.start + HDR <= NextOf(b, k, end) <= end
    requires CarvePut(s, s', x.start, y.start, NextOf(b, k, end), end, x.used)
    ensures Chained(s', Splice(b, k, 1, [x, y]), end)
  {
    hide Tiled, LinkAt, HeaderOf, CarvePut;
    var b' := Splice(b, k, 1, [x, y]);
    forall i | 0 <= i < |b'| ensures b'[i].start + HDR <= end && HeaderOf(s', b', i, end) {
      CarveHeader(s, s', b, k, x, y, end, i);
    }
    CarveShape(b, k, x, y, end, k);
    CarveElsewhere(s, s', x.start, y.start, NextOf(b, k, end), end, x.used, end);
    SpliceTwoTiled(b, k, x, y, end);
  }

  /** Bytes move only in headers and in the part of block k behind `cut`. */
  lemma CarvePayloads(h: Heap, s: seq<byte>, s': seq<byte>, k: nat, cut: nat, used: bool, owned: set<(nat, nat)>)
    requires Chained(s, h.blocks, h.End()) && k < |h.blocks| && |s'| == |s|
    requires h.blocks[k].start + HDR <= cut && cut + HDR <= h.Stop(k) <= h.End()
    requires CarvePut(s, s', h.blocks[k].start, cut, h.Stop(k), h.End(), used)
    requires owned <= Owned(h) && (h.blocks[k].start, h.Stop(k)) !in owned
    ensures SamePayloads(owned, s, s')
  {
    forall e: (nat, nat), x: nat | e in owned && e.0 + HDR <= x < e.1 && x < |s| ensures s'[x] == s[x] {
      hide LinkAt, HeaderOf;
      OffBlock(h, e, x, k);
      OffHeaders(h, e, x, h.Stop(k), k + 1);
    }
  }

  lemma OffBlock(h: Heap, e: (nat, nat), x: nat, k: nat)
    requires Tiled(h.blocks, h.End()) && e in Owned(h) && e.0 + HDR <= x < e.1
    requires k < |h.blocks| && e != (h.blocks[k].start, h.Stop(k))
    ensures x < h.blocks[k].start || h.Stop(k) <= x
  {
    var j :| 0 <= j < |h.blocks| && h.blocks[j].used && e == (h.blocks[j].start, h.Stop(j));
    if j < k {
      assert j + 1 < k ==> h.blocks[j + 1].start + HDR <= h.blocks[k].start;
    } else if k < j {
      assert k + 1 < j ==> h.blocks[k + 1].start + HDR <= h.blocks[j].start;
    }
  }

  lemma SamePayloadsSame(owned: set<(nat, nat)>, s: seq<byte>)
    ensures SamePayloads(owned, s, s)
  {
  }

  lemma SamePayloadsThen(a: set<(nat, nat)>, b: set<(nat, nat)>, s: seq<byte>, s1: seq<byte>, s2: seq<byte>)
    requires SamePayloads(a, s, s1) && SamePayloads(b, s1, s2) && b <= a
    ensures SamePayloads(b, s, s2)
  {
  }

  /** Only the flag and the magic of block k change. */
  lemma MarkChained(s: seq<byte>, s': seq<byte>, b: seq<Block>, k: nat, x: Block, end: nat)
    requires Chained(s, b, end) && k < |b| && x.start == b[k].start && |s'| == |s|
    requires s'[x.start + 4] == (if x.used then 1 else 0) && (x.used ==> s'[x.start] == MAGIC)
    requires forall i | 0 <= i < |s| && i != x.start && i != x.start + 4 :: s'[i] == s[i]
    ensures Chained(s', Splice(b, k, 1, [x]), end)
  {
    hide LinkAt, HeaderOf, Tiled, Splice;
    var b' := Splice(b, k, 1, [x]);
    SpliceOneTiled(b, k, 1, x, end);
    forall i | 0 <= i < |b'| ensures b'[i].start + HDR <= end && HeaderOf(s', b', i, end) {
      MarkHeader(s, s', b, k, x, end, i);
    }
    ReadHeader(s, b, |b| - 1, end);
    MarkEnd(s, s', x.start, end) by { StartInside(b, k, end); }
  }

  lemma StartInside(b: seq<Block>, k: nat, end: nat)
    requires Tiled(b, end) && k < |b|
    ensures b[k].start + HDR <= end
  {
  }

  lemma MarkEnd(s: seq<byte>, s': seq<byte>, at: nat, end: nat)
    requires |s'| == |s| == end + HDR && at + HDR <= end
    requires forall i | 0 <= i < |s| && i != at && i != at + 4 :: s'[i] == s[i]
    ensures s'[end + 4] == s[end + 4] && LinkAt(s', end + 1) == LinkAt(s, end + 1)
  {
  }

  lemma MarkHeader(s: seq<byte>, s': seq<byte>, b: seq<Block>, k: nat, x: Block, end: nat, i: nat)
    requires Chained(s, b, end) && k < |b| && x.start == b[k].start && |s'| == |s| && i < |b|
    requires s'[x.start + 4] == (if x.used then 1 else 0) && (x.used ==> s'[x.start] == MAGIC)
    requires forall j | 0 <= j < |s| && j != x.start && j != x.start + 4 :: s'[j] == s[j]
    ensures var b' := Splice(b, k, 1, [x]);
            |b'| == |b| && b'[i].start + HDR <= end && HeaderOf(s', b', i, end)
  {
    var b' := Splice(b, k, 1, [x]);
    assert HeaderOf(s, b, i, end);
    assert b'[i].start == b[i].start;
    assert NextOf(b', i, end) == NextOf(b, i, end) && PrevOf(b', i) == PrevOf(b, i);
    assert b[i].start + HDR <= x.start || i == k || x.start + HDR <= b[i].start;
  }

  lemma LinkStays(s: seq<byte>, s': seq<byte>, p: nat)
    requires p + HDR <= |s| && s' == s[p + 4 := 0][p := 0]
    ensures LinkAt(s', p + 1) == LinkAt(s, p + 1)
  {
  }

  lemma MarkPayloads(h: Heap, s: seq<byte>, s': seq<byte>, k: nat)
    requires Chained(s, h.blocks, h.End()) && k < |h.blocks| && |s'| == |s|
    requires forall i | 0 <= i < |s| && i != h.blocks[k].start && i != h.blocks[k].start + 4 :: s'[i] == s[i]
    ensures SamePayloads(Owned(h), s, s')
  {
    forall e: (nat, nat), x: nat | e in Owned(h) && e.0 + HDR <= x < e.1 && x < |s| ensures s'[x] == s[x] {
      hide LinkAt, HeaderOf;
      OffHeaders(h, e, x, h.blocks[k].start, k);
    }
  }

  /** The bytes between the header of block k and the next block are not the allocator's. */
  lemma PayloadChained(h: Heap, s: seq<byte>, s': seq<byte>, k: nat)
    requires Chained(s, h.blocks, h.End()) && k < |h.blocks| && |s'| == |s|
    requires forall x | 0 <= x < |s| && !(h.blocks[k].start + HDR <= x < h.Stop(k)) :: s'[x] == s[x]
    ensures Chained(s', h.blocks, h.End())
    ensures SamePayloads(Owned(h) - {(h.blocks[k].start, h.Stop(k))}, s, s')
  {
    forall i | 0 <= i < |h.blocks| ensures HeaderOf(s', h.blocks, i, h.End()) {
      assert HeaderOf(s, h.blocks, i, h.End());
      assert i <= k || h.Stop(k) <= h.blocks[i].start;
      assert i < k ==> h.blocks[i].start + HDR <= h.blocks[k].start;
    }
    forall e: (nat, nat), x: nat | e in Owned(h) - {(h.blocks[k].start, h.Stop(k))} && e.0 + HDR <= x < e.1 && x < |s|
      ensures s'[x] == s[x]
    {
      hide LinkAt, HeaderOf;
      OffBlock(h, e, x, k);
    }
  }

  /** What lua_system_heap_init leaves in memory: the header of block 0 with what 24 bits keep of the
      offset of heap_end, and the header of heap_end where that link leads, which may be over the first. */
  ghost predicate InitMem(s: seq<byte>, size: nat) {
    var link := (size + HDR) % LINK;
    && |s| == size + 2 * HDR
    && LinkAt(s, link + 1) == link && LinkAt(s, link + 5) == link && s[link + 4] == 1
    && (link > 0 ==> LinkAt(s, 1) == link)
    && (link >= HDR ==> LinkAt(s, 5) == 0 && s[4] == 0)
    && (0 < link < HDR ==> link == 4 && s[4] == MAGIC)
  }

  lemma InitWrites(s0: seq<byte>, s: seq<byte>, s1: seq<byte>, s2: seq<byte>, size: nat)
    requires |s| == size + 2 * HDR && size % 4 == 0
    requires var link := (size + HDR) % LINK;
             && HeaderPut(s0, s, 0, link, 0)
             && HeaderPut(s, s1, link, link, link) && s1[link] == MAGIC && BytePut(s1, s2, link + 4, 1)
    ensures InitMem(s2, size)
  {
    hide LinkAt, HeaderPut;
    var link := (size + HDR) % LINK;
    assert link % 4 == 0;
    HeaderReads(s0, s, 0, link, 0);
    HeaderReads(s, s1, link, link, link);
    ByteElsewhere(s1, s2, link + 4, 1, link);
    if link >= HDR {
      HeaderElsewhere(s, s1, link, link, link, 0);
      ByteElsewhere(s1, s2, link + 4, 1, 0);
    } else if link == 4 {
      InitOverlaps(s, s1, s2);
    }
  }

  /** The header of heap_end four bytes into that of block 0. */
  lemma InitOverlaps(s: seq<byte>, s1: seq<byte>, s2: seq<byte>)
    requires HeaderPut(s, s1, 4, 4, 4) && s1[4] == MAGIC && BytePut(s1, s2, 8, 1)
    ensures LinkAt(s2, 1) == LinkAt(s, 1) && s2[4] == MAGIC
  {
  }

  lemma InitChained(s: seq<byte>, size: nat)
    requires InitMem(s, size) && size + HDR < LINK
    ensures Chained(s, [Block(0, false)], size + HDR)
  {
  }

  /** What the headers of block k and of its neighbours say. */
  lemma ReadHeader(s: seq<byte>, b: seq<Block>, k: nat, end: nat)
    requires Chained(s, b, end) && k < |b|
    ensures b[k].start + HDR <= NextOf(b, k, end) <= end && end + HDR == |s| && end < LINK
    ensures NextOf(b, k, end) == end || NextOf(b, k, end) + HDR <= end
    ensures LinkAt(s, b[k].start + 1) == NextOf(b, k, end) && LinkAt(s, b[k].start + 5) == PrevOf(b, k)
    ensures s[b[k].start + 4] == (if b[k].used then 1 else 0) && (b[k].used ==> s[b[k].start] == MAGIC)
    ensures s[NextOf(b, k, end) + 4] == 0 <==> k + 1 < |b| && !b[k + 1].used
    ensures NextOf(b, k, end) == end <==> k + 1 == |b|
    ensures PrevOf(b, k) <= b[k].start && s[PrevOf(b, k) + 4] == (if b[if k > 0 then k - 1 else k].used then 1 else 0)
    ensures PrevOf(b, k) == b[k].start <==> k == 0
  {
    assert HeaderOf(s, b, k, end);
    if k + 1 < |b| { assert HeaderOf(s, b, k + 1, end); }
    if k > 0 { assert HeaderOf(s, b, k - 1, end); }
    hide LinkAt;
  }

  // ---------------------------------------------------------------- the allocator

  class LuaHeap {
    var data: array<byte>
    var size: nat
    var lfree: nat
    var usedMem: int
    var maxMem: int
    ghost var blocks: seq<Block>

    ghost function Model(): Heap
      reads this
    {
      Heap(size, blocks, lfree, usedMem, maxMem)
    }

    /** Memory holds exactly the blocks of the model. */
    ghost predicate Sound()
      reads this, data
    {
      Chained(data[..], blocks, size + HDR)
    }

    ghost predicate Valid()
      reads this, data
    {
      Sound() && Inv(Model())
    }

    function Link(p: nat): nat
      requires p + 3 <= data.Length
      reads this, data
      ensures Link(p) == LinkAt(data[..], p)
    {
      data[p] as int + 0x100 * data[p + 1] as int + 0x1_0000 * data[p + 2] as int
    }

    method PutLink(p: nat, v: nat)
      requires p + 3 <= data.Length && v < LINK
      modifies data
      ensures LinkPut(old(data[..]), data[..], p, v)
    {
      data[p] := v % 0x100;
      data[p + 1] := v / 0x100 % 0x100;
      data[p + 2] := v / 0x1_0000;
    }

    /** lua_system_heap_init for the region between two addresses, accepted as in its guard. */
    constructor (begin: word, end: word)
      requires end / 4 * 4 > 2 * HDR && end / 4 * 4 - 2 * HDR >= Align(begin)
      ensures size == end / 4 * 4 - Align(begin) - 2 * HDR && lfree == 0 && usedMem == maxMem == 0
      ensures InitMem(data[..], size)
      ensures size + HDR < LINK ==> Valid() && Model() == Init(size, 0, 0) && LowestFree(Model())
    {
      size := end / 4 * 4 - Align(begin) - 2 * HDR;
      data := new byte[end / 4 * 4 - Align(begin)];
      lfree, usedMem, maxMem := 0, 0, 0;
      blocks := [Block(0, false)];
      new;
      InitKeeps(size, 0, 0);
      hide LinkAt, Inv, LowestFree, HeaderPut, InitMem, Chained;
      var link := (size + HDR) % LINK;   // what a 24-bit field keeps
      WriteInit(link);
      if size + HDR < LINK {
        InitChained(data[..], size);
      }
    }

    /** The two headers of lua_system_heap_init. */
    method WriteInit(link: nat)
      requires data.Length == size + 2 * HDR && size % 4 == 0 && link == (size + HDR) % LINK
      modifies data
      ensures InitMem(data[..], size)
    {
      hide LinkAt, HeaderPut, InitMem;
      ghost var s0 := data[..];
      PutHeader(0, link, 0, true);
      ghost var s := data[..];
      PutHeader(link, link, link, true);
      ghost var s1 := data[..];
      data[link + 4] := 1;
      InitWrites(s0, s, s1, data[..], size);
    }

    /** The two writes of either half of plug_holes: the free block at `first` takes over the link of
        the free block behind it, whose successor points back. */
    method MergeLinks(first: nat, after: nat, ghost h: Heap, ghost k: nat)
      requires Sound() && h.blocks == blocks && h.size == size
      requires k + 1 < |blocks| && blocks[k] == Block(first, false) && !blocks[k + 1].used
      requires after == NextOf(blocks, k + 1, size + HDR)
      modifies data
      ensures Chained(data[..], Splice(blocks, k, 2, [blocks[k]]), size + HDR)
      ensures SamePayloads(Owned(h), old(data[..]), data[..])
    {
      hide Tiled, HeaderOf, Chained, LinkPut, LinkAt, Owned, SamePayloads, Splice;
      ghost var s := data[..];
      ReadHeader(s, blocks, k, h.End());
      ReadHeader(s, blocks, k + 1, h.End());
      PutLink(first + 1, after);
      ghost var s1 := data[..];
      PutLink(after + 5, first);
      MergeChained(s, s1, data[..], blocks, k, h.End());
      MergePayloads(h, s, s1, data[..], k);
    }

    /** First half of plug_holes. */
    method PlugNextBytes(mem: nat, ghost k: nat)
      requires Sound() && k < |blocks| && blocks[k] == Block(mem, false)
      modifies this, data
      ensures Sound() && data == old(data)
      ensures Model() == PlugNext(old(Model()), k)
      ensures SamePayloads(Owned(old(Model())), old(data[..]), data[..])
    {
      hide Tiled, HeaderOf, Chained, LinkPut, LinkAt, Owned, SamePayloads, Splice;
      ghost var s, h := data[..], Model();
      ReadHeader(s, blocks, k, h.End());
      var nmem := Link(mem + 1);
      if mem != nmem && data[nmem + 4] == 0 && nmem != size + HDR {
        if lfree == nmem {
          lfree := mem;
        }
        ReadHeader(s, blocks, k + 1, h.End());
        var after := Link(nmem + 1);
        MergeLinks(mem, after, h, k);
        blocks := Splice(blocks, k, 2, [blocks[k]]);
      } else {
        SamePayloadsSame(Owned(h), s);
      }
    }

    /** Second half of plug_holes. */
    method PlugPrevBytes(mem: nat, ghost k: nat)
      requires Sound() && k < |blocks| && blocks[k] == Block(mem, false)
      modifies this, data
      ensures Sound() && data == old(data)
      ensures Model() == PlugPrev(old(Model()), k)
      ensures SamePayloads(Owned(old(Model())), old(data[..]), data[..])
    {
      hide Tiled, HeaderOf, Chained, LinkPut, LinkAt, Owned, SamePayloads, Splice;
      ghost var s, h := data[..], Model();
      ReadHeader(s, blocks, k, h.End());
      var pmem := Link(mem + 5);
      if pmem != mem && data[pmem + 4] == 0 {
        if lfree == mem {
          lfree := pmem;
        }
        ReadHeader(s, blocks, k - 1, h.End());
        var after := Link(mem + 1);
        MergeLinks(pmem, after, h, k - 1);
        blocks := Splice(blocks, k - 1, 2, [blocks[k - 1]]);
      } else {
        SamePayloadsSame(Owned(h), s);
      }
    }

    /** plug_holes. */
    method PlugHolesBytes(mem: nat, ghost k: nat)
      requires Sound() && k < |blocks| && blocks[k] == Block(mem, false)
      modifies this, data
      ensures Sound() && data == old(data)
      ensures Model() == PlugHoles(old(Model()), k)
      ensures SamePayloads(Owned(old(Model())), old(data[..]), data[..])
    {
      hide Tiled, Chained, Owned, SamePayloads;
      ghost var h, s := Model(), data[..];
      PlugNextBytes(mem, k);
      ghost var s1 := data[..];
      assert blocks[k] == Block(mem, false);
      PlugNextOwned(h, k);
      PlugPrevBytes(mem, k);
      SamePayloadsThen(Owned(h), Owned(h), s, s1, data[..]);
    }

    /** lua_free before plug_holes. */
    method ReleaseBytes(mem: nat, ghost k: nat)
      requires Sound() && k < |blocks| && blocks[k] == Block(mem, true)
      modifies this, data
      ensures Sound() && data == old(data)
      ensures Model() == Release(old(Model()), k) && k < |blocks| && blocks[k] == Block(mem, false)
      ensures SamePayloads(Owned(old(Model())), old(data[..]), data[..])
    {
      hide Tiled, HeaderOf, Chained, LinkAt, Owned, SamePayloads, Splice;
      ghost var s, h := data[..], Model();
      ReadHeader(s, blocks, k, h.End());
      assert data[mem + 4] == 1 && data[mem] == MAGIC;   // the assertions of lua_free
      data[mem + 4] := 0;
      data[mem] := 0;
      if mem < lfree {
        lfree := mem;
      }
      ghost var s1 := data[..];
      LinkStays(s, s1, mem);
      usedMem := usedMem - (Link(mem + 1) - mem);
      blocks := Splice(blocks, k, 1, [Block(mem, false)]);
      MarkChained(s, s1, h.blocks, k, Block(mem, false), h.End());
      MarkPayloads(h, s, s1, k);
    }

    /** lua_free: NULL and pointers outside the heap are ignored; any other pointer must be owned. */
    method LuaFree(rmem: Option<int>)
      requires Valid()
      requires rmem.Some? && 0 <= rmem.value < size + HDR ==> HDR <= rmem.value && Live(Model(), rmem.value - HDR)
      modifies this, data
      ensures Valid() && data == old(data)
      ensures if rmem.Some? && 0 <= rmem.value < size + HDR
              then Model() == Free(old(Model()), rmem.value - HDR)
              else Model() == old(Model()) && data[..] == old(data[..])
      ensures SamePayloads(Owned(Model()), old(data[..]), data[..])
    {
      hide Tiled, HeaderOf, Chained, LinkAt, Owned, UsedSpans;
      hide OnWords, NoFreeNeighbours, FreeAt, SamePayloads, PlugHoles, Release, StopOf;
      ghost var s, h := data[..], Model();
      if rmem.None? || rmem.value < 0 || rmem.value >= size + HDR {
        SamePayloadsSame(Owned(h), s);
        return;
      }
      var mem := rmem.value - HDR;
      ghost var k := LiveIndex(h, mem);
      FreeKeeps(h, mem);
      ReleaseBytes(mem, k);
      ghost var m, s1 := Model(), data[..];
      PlugHolesBytes(mem, k);
      ReleaseOwned(h, k);
      PlugHolesOwned(m, k);
      SamePayloadsThen(Owned(h), Owned(m), s, s1, data[..]);
    }

    /** Writes the header of a free block at p. */
    method PutHeader(p: nat, next: nat, prev: nat, magic: bool)
      requires p + HDR <= data.Length && next < LINK && prev < LINK
      modifies data
      ensures HeaderPut(old(data[..]), data[..], p, next, prev) && (magic ==> data[p] == MAGIC)
    {
      if magic {
        data[p] := MAGIC;
      }
      data[p + 4] := 0;
      PutLink(p + 1, next);
      ghost var s := data[..];
      PutLink(p + 5, prev);
      PutPrevOnly(s, data[..], p, prev, p);
    }

    /** Splits block k at `cut`: the header at `cut` is written, then linked in.  lua_malloc marks
        block k used on the way; lua_realloc gives the new header the magic instead. */
    method CarveBytes(mem: nat, cut: nat, used: bool, ghost k: nat)
      requires Sound() && k < |blocks| && blocks[k].start == mem
      requires mem + HDR <= cut && cut + HDR <= NextOf(blocks, k, size + HDR)
      requires mem + HDR <= data.Length && (used || (data[mem + 4] == 1 && data[mem] == MAGIC))
      modifies data
      ensures CarvePut(old(data[..]), data[..], mem, cut, NextOf(blocks, k, size + HDR), size + HDR, true)
    {
      hide Tiled, HeaderOf, Chained, LinkAt, LinkPut, HeaderPut, CarvePut;
      ghost var s := data[..];
      ReadHeader(s, blocks, k, size + HDR);
      var after := Link(mem + 1);
      PutHeader(cut, after, mem, !used);
      ghost var s1 := data[..];
      PutLink(mem + 1, cut);
      ghost var s2 := data[..];
      if used {
        data[mem + 4] := 1;
      }
      ghost var s3 := data[..];
      if after != size + HDR {
        PutLink(after + 5, cut);
      }
      ghost var s4 := data[..];
      if used {
        data[mem] := MAGIC;
      }
      CarveSteps(s, s1, s2, s3, s4, data[..], mem, cut, after, size + HDR);
    }

    /** lua_malloc once a fitting block is found. */
    method TakeBytes(mem: nat, want: nat, ghost k: nat)
      requires Sound() && k < |blocks| && blocks[k] == Block(mem, false) && Model().Payload(k) >= want
      modifies this, data
      ensures Sound() && data == old(data)
      ensures Model() == Take(old(Model()), k, want)
      ensures SamePayloads(Owned(old(Model())), old(data[..]), data[..])
    {
      hide Tiled, HeaderOf, Chained, LinkAt, Owned, SamePayloads, Splice, Taken, NextFree;
      ghost var s, h := data[..], Model();
      MarkTaken(mem, want, k);
      if maxMem < usedMem {
        maxMem := usedMem;
      }
      blocks := Taken(h, k, want);
      TakenAt(h, k, want);
      if mem == lfree {
        LfreeWalk(k);
      }
    }

    /** The block is split when the rest can hold a block, and marked used. */
    method MarkTaken(mem: nat, want: nat, ghost k: nat)
      requires Sound() && k < |blocks| && blocks[k] == Block(mem, false) && Model().Payload(k) >= want
      modifies this`usedMem, data
      ensures Chained(data[..], Taken(old(Model()), k, want), size + HDR)
      ensures usedMem == Take(old(Model()), k, want).usedMem
      ensures SamePayloads(Owned(old(Model())), old(data[..]), data[..])
    {
      hide Tiled, HeaderOf, Chained, LinkAt, Owned, SamePayloads, CarvePut, Splice, NextFree;
      ghost var s, h := data[..], Model();
      ReadHeader(s, blocks, k, h.End());
      NotOwned(h, s, k);
      if Link(mem + 1) - (mem + HDR) >= want + HDR + MIN_SIZE {
        CarveBytes(mem, mem + HDR + want, true, k);
        usedMem := usedMem + want + HDR;
        CarveChained(s, data[..], blocks, k, Block(mem, true), Block(mem + HDR + want, false), h.End());
        CarvePayloads(h, s, data[..], k, mem + HDR + want, true, Owned(h));
      } else {
        data[mem + 4] := 1;
        usedMem := usedMem + Link(mem + 1) - mem;
        data[mem] := MAGIC;
        ghost var s1 := data[..];
        MarkChained(s, s1, blocks, k, Block(mem, true), h.End());
        MarkPayloads(h, s, s1, k);
      }
    }

    /** Moves lfree up to the next free block, or to heap_end. */
    method LfreeWalk(ghost k: nat)
      requires Sound() && k < |blocks| && lfree == blocks[k].start
      modifies this`lfree
      ensures lfree == NextFree(blocks, size + HDR, k)
    {
      hide Tiled, HeaderOf, Chained, LinkAt;
      ghost var j, s, end := k, data[..], size + HDR;
      ReadHeader(s, blocks, k, end);
      while data[lfree + 4] != 0 && lfree != size + HDR
        invariant k <= j <= |blocks| && data[..] == s
        invariant lfree == if j < |blocks| then blocks[j].start else end
        invariant lfree + 4 < data.Length
        invariant NextFree(blocks, end, j) == NextFree(blocks, end, k)
        invariant j < |blocks| ==> data[lfree + 4] == (if blocks[j].used then 1 else 0) && lfree != end
        decreases |blocks| - j
      {
        ReadHeader(s, blocks, j, end);
        lfree := Link(lfree + 1);
        j := j + 1;
        if j < |blocks| { ReadHeader(s, blocks, j, end); }
      }
    }

    /** The walk of lua_malloc: offset of the first block from lfree that fits, if any. */
    method Walk(want: nat) returns (ptr: Option<nat>)
      requires Valid() && want <= size
      ensures match FirstFit(Model(), want, IndexOf(blocks, lfree))
              case None => ptr == None
              case Some(k) => ptr == Some(blocks[k].start)
    {
      hide Tiled, HeaderOf, Chained, LinkAt, UsedSpans, OnWords, NoFreeNeighbours, IndexOf;
      ghost var h := Model();
      ghost var k := LfreeIndex(h);
      var at := lfree;
      while at < size - want
        invariant k <= |blocks| && at == if k < |blocks| then blocks[k].start else size + HDR
        invariant FirstFit(h, want, k) == FirstFit(h, want, IndexOf(blocks, lfree))
        decreases |blocks| - k
      {
        ReadHeader(data[..], blocks, k, size + HDR);
        if data[at + 4] == 0 && Link(at + 1) - (at + HDR) >= want {
          return Some(at);
        }
        at := Link(at + 1);
        k := k + 1;
      }
      return None;
    }

    /** lua_malloc, for calls that come back; LuaHeapTheorems.WalkEnds says which do. */
    method LuaMalloc(n: word) returns (p: Option<int>)
      requires Valid() && Returns(Model(), n)
      modifies this, data
      ensures Valid() && data == old(data)
      ensures Model() == Malloc(old(Model()), n).0
      ensures p == Pointer(Malloc(old(Model()), n).1)
      ensures SamePayloads(Owned(old(Model())), old(data[..]), data[..])
      ensures p.None? ==> data[..] == old(data[..])
    {
      hide Tiled, Chained, LinkAt, Owned, SamePayloads, UsedSpans, OnWords, NoFreeNeighbours, Take, StopOf, IndexOf, FirstFit;
      ghost var h, s := Model(), data[..];
      MallocKeeps(h, n);
      SamePayloadsSame(Owned(h), s);
      if n == 0 || Align(n) > size {
        return None;
      }
      var want := if Align(n) < MIN_SIZE then MIN_SIZE else Align(n);
      var ptr := Walk(want);
      if ptr == None {
        return None;
      }
      ghost var k := MallocFinds(h, n);
      TakeBytes(ptr.value, want, k);
      return Some(ptr.value + HDR);
    }

    /** The split of lua_realloc: block k keeps `want` bytes, the rest is freed. */
    method ShrinkBytes(mem: nat, want: nat, ghost k: nat)
      requires Sound() && k < |blocks| && blocks[k] == Block(mem, true) && want + HDR + MIN_SIZE < Model().Payload(k)
      modifies this, data
      ensures Sound() && data == old(data)
      ensures Model() == PlugHoles(Cut(old(Model()), k, want), k + 1)
      ensures SamePayloads(Owned(Model()), old(data[..]), data[..])
    {
      hide Tiled, HeaderOf, Chained, LinkAt, Owned, SamePayloads, CarvePut, PlugHoles;
      ghost var s, h := data[..], Model();
      ReadHeader(s, blocks, k, h.End());
      usedMem := usedMem - (Link(mem + 1) - (mem + HDR) - want);
      var cut := mem + HDR + want;
      CarveBytes(mem, cut, false, k);
      ghost var s1 := data[..];
      CarveChained(s, s1, blocks, k, Block(mem, true), Block(cut, false), h.End());
      blocks := Splice(blocks, k, 1, [blocks[k], Block(cut, false)]);
      ghost var m := Model();
      assert m == Cut(h, k, want);
      CutPayloads(h, s, s1, k, want);
      PlugHolesOwned(m, k + 1);
      PlugHolesBytes(cut, k + 1);
      SamePayloadsThen(Owned(m), Owned(m), s, s1, data[..]);
    }

    /** rt_memcpy within the heap. */
    method Copy(dst: nat, src: nat, n: nat)
      requires dst + n <= data.Length && src + n <= data.Length
      modifies data
      ensures CopyPut(old(data[..]), data[..], dst, src, n)
    {
      forall i | 0 <= i < n {
        data[dst + i] := data[src + i];
      }
    }

    /** Copies n bytes from the block at mem to the block at to, and frees the first. */
    method CopyThenFree(mem: nat, to: nat, n: nat, ghost stop: nat, ghost j: nat)
      requires Valid() && j < |blocks| && blocks[j] == Block(to, true) && to + HDR + n <= Model().Stop(j)
      requires Live(Model(), mem) && StopOf(Model(), mem) == stop && mem + HDR + n <= stop && mem != to
      requires stop <= Model().End()
      modifies this, data
      ensures Valid() && data == old(data)
      ensures Model() == Free(old(Model()), mem)
      ensures SamePayloads(Owned(Model()) - {(to, old(Model().Stop(j)))}, old(data[..]), data[..])
      ensures Copied(old(data[..]), data[..], mem + HDR, to + HDR, n)
    {
      hide Tiled, HeaderOf, Chained, LinkAt, Owned, SamePayloads, UsedSpans, OnWords, NoFreeNeighbours;
      hide FreeAt, Free, LastHasRoom, IndexOf, CopyPut, StopOf, Live, Inv, Copied;
      ghost var m, s1 := Model(), data[..];
      FreedOthers(m, s1, mem, j);
      Copy(to + HDR, mem + HDR, n);
      ghost var s2 := data[..];
      CopyChained(m, s1, s2, j, mem + HDR, n);
      LuaFree(Some(mem + HDR));
      ghost var s3 := data[..];
      FreedCopy(Owned(m), Owned(Model()), (to, m.Stop(j)), s1, s2, s3, mem + HDR, n);
    }

    /** The move of lua_realloc: take a block, copy, free the old one. */
    method MoveBytes(mem: nat, old_: nat, want: word, ghost k: nat) returns (p: Option<int>)
      requires Valid() && Returns(Model(), want)
      requires k < |blocks| && blocks[k] == Block(mem, true) && old_ == Model().Payload(k) && want % 4 == 0
      modifies this, data
      ensures Valid() && data == old(data)
      ensures var (m, r) := Malloc(old(Model()), want);
              && p == Pointer(r)
              && Model() == (if r.Some? then Free(m, mem) else m)
      ensures p.None? ==> data[..] == old(data[..])
      ensures SamePayloads(Owned(old(Model())) - {(mem, mem + HDR + old_)}, old(data[..]), data[..])
      ensures p.Some? ==> Copied(old(data[..]), data[..], mem + HDR, p.value, if old_ < want then old_ else want)
    {
      hide Tiled, HeaderOf, Chained, LinkAt, Owned, SamePayloads, UsedSpans, OnWords, NoFreeNeighbours, FreeAt;
      hide Malloc, Free, Splice, Take, PlugHoles, LastHasRoom, Live, StopOf, IndexOf, Taken, Copied;
      ghost var s, h := data[..], Model();
      ghost var rest := Owned(h) - {(mem, mem + HDR + old_)};
      SamePayloadsSame(rest, s);
      p := LuaMalloc(want);
      if p.Some? {
        ghost var m, s1 := Model(), data[..];
        MallocKeeps(h, want);
        ghost var at, stop, j := MoveLedger(h, s1, k, want);
        var n := if old_ < want then old_ else want;
        CopyThenFree(mem, p.value - HDR, n, mem + HDR + old_, j);
        SamePayloadsSub(Owned(h), rest, s, s1);
        SamePayloadsThen(Owned(h), rest, s, s1, data[..]) by { SamePayloadsSub(Owned(Model()) - {(at, stop)}, rest, s1, data[..]); }
        CopiedFrom(Owned(h), (mem, mem + HDR + old_), s, s1, data[..], mem + HDR, p.value, n);
      }
    }

    /** lua_realloc: a pointer outside the heap comes back as it is; any other must be owned. */
    method LuaRealloc(rmem: Option<int>, n: word) returns (p: Option<int>)
      requires Valid()
      requires rmem.Some? && 0 <= rmem.value < size + HDR ==> HDR <= rmem.value && Live(Model(), rmem.value - HDR)
      requires rmem == None ==> Returns(Model(), Align(n))
      modifies this, data
      ensures Valid() && data == old(data)
      ensures rmem.Some? && 0 <= rmem.value < old(size) + HDR ==> ReallocReturns(old(Model()), rmem.value - HDR, n)
      ensures if rmem == None then
                var (m, r) := if Align(n) > old(size) then (old(Model()), None) else Malloc(old(Model()), Align(n));
                Model() == m && p == Pointer(r)
              else if !(0 <= rmem.value < old(size) + HDR) then
                Model() == old(Model()) && p == if Align(n) > old(size) then None else rmem
              else
                var (m, r) := Realloc(old(Model()), rmem.value - HDR, n);
                Model() == m && p == Pointer(r)
      ensures rmem == None ==> SamePayloads(Owned(old(Model())), old(data[..]), data[..])
      ensures rmem.Some? && (p.None? || p == rmem) ==> SamePayloads(Owned(Model()), old(data[..]), data[..])
      ensures rmem.Some? && p.Some? && p != rmem ==>
                var at, stop := rmem.value - HDR, StopOf(old(Model()), rmem.value - HDR);
                && SamePayloads(Owned(old(Model())) - {(at, stop)}, old(data[..]), data[..])
                && Copied(old(data[..]), data[..], rmem.value, p.value, if stop - rmem.value < Align(n) then stop - rmem.value else Align(n))
      ensures p.None? ==> data[..] == old(data[..]) && Model() == old(Model())
    {
      hide Tiled, HeaderOf, Chained, LinkAt, Owned, SamePayloads, UsedSpans, OnWords, NoFreeNeighbours;
      hide FreeAt, Malloc, Free, Copied, PlugHoles, Cut, LastHasRoom, IndexOf, Live;
      ghost var s, h := data[..], Model();
      SamePayloadsSame(Owned(h), s);
      var want := Align(n);
      if want > size {
        return None;
      }
      if rmem == None {
        MallocKeeps(h, want);
        p := LuaMalloc(want);
        return;
      }
      if rmem.value < 0 || rmem.value >= size + HDR {
        return rmem;
      }
      p := ReallocBlock(rmem.value - HDR, n);
    }

    /** lua_realloc of an owned block, for a request that is not refused. */
    method ReallocBlock(mem: nat, n: word) returns (p: Option<int>)
      requires Valid() && Live(Model(), mem) && Align(n) <= size
      modifies this, data
      ensures Valid() && data == old(data)
      ensures ReallocReturns(old(Model()), mem, n)
      ensures var (m, r) := Realloc(old(Model()), mem, n); Model() == m && p == Pointer(r)
      ensures p.None? || p == Some(mem + HDR) ==> SamePayloads(Owned(Model()), old(data[..]), data[..])
      ensures p.Some? && p != Some(mem + HDR) ==>
                var stop := StopOf(old(Model()), mem);
                && SamePayloads(Owned(old(Model())) - {(mem, stop)}, old(data[..]), data[..])
                && Copied(old(data[..]), data[..], mem + HDR, p.value, if stop - (mem + HDR) < Align(n) then stop - (mem + HDR) else Align(n))
      ensures p.None? ==> data[..] == old(data[..]) && Model() == old(Model())
    {
      hide Tiled, HeaderOf, Chained, LinkAt, Owned, SamePayloads, UsedSpans, OnWords, NoFreeNeighbours;
      hide FreeAt, Malloc, Free, Copied, PlugHoles, Cut, LastHasRoom, IndexOf, Live;
      ghost var s, h := data[..], Model();
      SamePayloadsSame(Owned(h), s);
      var want := Align(n);
      ghost var k := LiveIndex(h, mem);
      ReallocKeeps(h, mem, n);
      ReadHeader(s, blocks, k, h.End());
      var old_ := Link(mem + 1) - mem - HDR;
      if old_ == want {
        return Some(mem + HDR);
      }
      if want + HDR + MIN_SIZE < old_ {
        ShrinkBytes(mem, want, k);
        return Some(mem + HDR);
      }
      p := MoveBytes(mem, old_, want, k);
      MallocKeeps(h, want);
      if p.Some? {
        MoveKeeps(h, mem, want);
      }
    }
  }

  /** Freeing one block leaves its owner every other; both lie in memory. */
  lemma FreedOthers(h: Heap, s: seq<byte>, at: nat, j: nat)
    requires Inv(h) && Chained(s, h.blocks, h.End()) && Live(h, at)
    requires j < |h.blocks| && h.blocks[j].used && h.blocks[j].start != at
    ensures Owned(Free(h, at)) <= Owned(h) && (h.blocks[j].start, h.Stop(j)) in Owned(Free(h, at))
    ensures at + HDR < h.End() && h.Stop(j) <= h.End() && h.End() + HDR == |s|
  {
    hide Free, Tiled, UsedSpans, HeaderOf, LinkAt;
    LiveInside(h, at);
    ReadHeader(s, h.blocks, j, h.End());
    FreeKeeps(h, at);
    OneOwned(h, j);
  }

  /** The n bytes at src were copied to dst. */
  ghost predicate CopyPut(s: seq<byte>, s': seq<byte>, dst: nat, src: nat, n: nat) {
    && dst + n <= |s| == |s'| && src + n <= |s|
    && s'[dst..dst + n] == s[src..src + n]
    && forall x | 0 <= x < |s| && !(dst <= x < dst + n) :: s'[x] == s[x]
  }

  /** n bytes at src before stand at dst after. */
  ghost predicate Copied(before: seq<byte>, after: seq<byte>, src: int, dst: int, n: int) {
    && 0 <= src && 0 <= dst && 0 <= n && src + n <= |before| && dst + n <= |after|
    && after[dst..dst + n] == before[src..src + n]
  }

  lemma CopyChained(h: Heap, s: seq<byte>, s': seq<byte>, k: nat, src: nat, n: nat)
    requires Chained(s, h.blocks, h.End()) && k < |h.blocks| && h.blocks[k].start + HDR + n <= h.Stop(k)
    requires CopyPut(s, s', h.blocks[k].start + HDR, src, n)
    ensures Chained(s', h.blocks, h.End())
    ensures SamePayloads(Owned(h) - {(h.blocks[k].start, h.Stop(k))}, s, s')
    ensures |s'| == |s| && src + n <= |s| && h.blocks[k].start + HDR + n <= |s|
    ensures s'[h.blocks[k].start + HDR..h.blocks[k].start + HDR + n] == s[src..src + n]
  {
    PayloadChained(h, s, s', k);
  }

  lemma SamePayloadsSlice(owned: set<(nat, nat)>, e: (nat, nat), s: seq<byte>, s': seq<byte>, lo: nat, n: nat)
    requires SamePayloads(owned, s, s') && e in owned && e.0 + HDR <= lo && lo + n <= e.1 <= |s|
    ensures |s'| == |s| && s'[lo..lo + n] == s[lo..lo + n]
  {
  }

  lemma SamePayloadsSub(a: set<(nat, nat)>, b: set<(nat, nat)>, s: seq<byte>, s': seq<byte>)
    requires SamePayloads(a, s, s') && b <= a
    ensures SamePayloads(b, s, s')
  {
  }

  /** What the copy and the free behind it leave of the payloads. */
  lemma FreedCopy(before: set<(nat, nat)>, after: set<(nat, nat)>, e: (nat, nat), s1: seq<byte>, s2: seq<byte>, s3: seq<byte>,
                  src: nat, n: nat)
    requires SamePayloads(before - {e}, s1, s2) && SamePayloads(after, s2, s3) && after <= before && e in after
    requires e.0 + HDR + n <= e.1 <= |s2| && src + n <= |s1| && s2[e.0 + HDR..e.0 + HDR + n] == s1[src..src + n]
    ensures SamePayloads(after - {e}, s1, s3) && Copied(s1, s3, src, e.0 + HDR, n)
  {
    hide SamePayloads, Copied;
    SamePayloadsSub(after, after - {e}, s2, s3);
    SamePayloadsThen(before - {e}, after - {e}, s1, s2, s3);
    CopiedKept(after, e, s1, s2, s3, src, e.0 + HDR, n);
  }

  lemma CopiedKept(owned: set<(nat, nat)>, e: (nat, nat), s1: seq<byte>, s2: seq<byte>, s3: seq<byte>, src: nat, dst: nat, n: nat)
    requires SamePayloads(owned, s2, s3) && e in owned && e.0 + HDR <= dst && dst + n <= e.1 <= |s2|
    requires src + n <= |s1| && s2[dst..dst + n] == s1[src..src + n]
    ensures Copied(s1, s3, src, dst, n)
  {
    SamePayloadsSlice(owned, e, s2, s3, dst, n);
  }

  lemma CopiedFrom(owned: set<(nat, nat)>, e: (nat, nat), s: seq<byte>, s1: seq<byte>, s2: seq<byte>, src: nat, dst: int, n: nat)
    requires SamePayloads(owned, s, s1) && e in owned && e.0 + HDR <= src && src + n <= e.1 <= |s|
    requires Copied(s1, s2, src, dst, n)
    ensures Copied(s, s2, src, dst, n)
  {
    SamePayloadsSlice(owned, e, s, s1, src, n);
  }

  /** Where the two blocks of a move stand, and who owns what before and after. */
  lemma MoveLedger(h: Heap, s1: seq<byte>, k: nat, want: word) returns (at: nat, stop: nat, j: nat)
    requires Inv(h) && Returns(h, want) && k < |h.blocks| && h.blocks[k].used && Malloc(h, want).1.Some? && want % 4 == 0
    requires Chained(s1, Malloc(h, want).0.blocks, h.End())
    ensures var m, mem := Malloc(h, want).0, h.blocks[k].start;
            var rest := Owned(h) - {(mem, h.Stop(k))};
            && at == Malloc(h, want).1.value
            && j < |m.blocks| && m.blocks[j] == Block(at, true) && m.Stop(j) == stop && m.size == h.size
            && at + HDR + want <= stop <= h.End() && h.Stop(k) <= h.End() && h.End() + HDR == |s1|
            && Live(m, mem) && mem != at && StopOf(m, mem) == h.Stop(k)
            && Owned(m) == Owned(h) + {(at, stop)}
            && (mem, h.Stop(k)) in Owned(h)
            && rest <= Owned(h) && rest <= Owned(Free(m, mem)) - {(at, stop)}
  {
    hide Tiled, HeaderOf, LinkAt, Owned, UsedSpans, OnWords, NoFreeNeighbours, FreeAt, Malloc, Free;
    var (m, r) := Malloc(h, want);
    var mem := h.blocks[k].start;
    at := r.value;
    MallocKeeps(h, want);
    assert Live(h, mem);
    var i := LiveIndex(h, mem);
    IndexIs(h.blocks, h.End(), k);
    MoveKeeps(h, mem, want);
    j := LiveIndex(m, at);
    stop := StopOf(m, at);
    ReadHeader(s1, m.blocks, j, h.End());
    LiveOwned(h, mem);
    var rest := Owned(h) - {(mem, h.Stop(k))};
    assert (at, stop) !in Owned(h) by {
      if (at, stop) in Owned(h) { OwnedStop(h, at, stop); }
    }
    StopInside(h, k);
  }

  lemma StopInside(h: Heap, k: nat)
    requires Tiled(h.blocks, h.End()) && k < |h.blocks|
    ensures h.Stop(k) <= h.End()
  {
  }

  /** The carved block keeps its first bytes, and nobody else loses any. */
  lemma CutPayloads(h: Heap, s: seq<byte>, s': seq<byte>, k: nat, want: nat)
    requires Chained(s, h.blocks, h.End()) && k < |h.blocks| && h.blocks[k].used && |s'| == |s|
    requires want + HDR + MIN_SIZE < h.Payload(k) && h.Stop(k) <= h.End()
    requires CarvePut(s, s', h.blocks[k].start, h.blocks[k].start + HDR + want, h.Stop(k), h.End(), true)
    ensures SamePayloads(Owned(Cut(h, k, want)), s, s')
  {
    hide LinkAt, HeaderOf;
    var mem := h.blocks[k].start;
    CutOwned(h, k, want);
    var rest := Owned(h) - {(mem, h.Stop(k))};
    CarvePayloads(h, s, s', k, mem + HDR + want, true, rest);
    forall e: (nat, nat), x: nat | e in Owned(Cut(h, k, want)) && e.0 + HDR <= x < e.1 && x < |s| ensures s'[x] == s[x] {
      assert e in rest || e == (mem, mem + HDR + want);
    }
  }

  /** The payload pointer of a block. */
  function Pointer(at: Option<nat>): Option<int> {
    match at
    case None => None
    case Some(start) => Some(start + HDR)
  }

  lemma NotOwned(h: Heap, s: seq<byte>, k: nat)
    requires Chained(s, h.blocks, h.End())
    requires k < |h.blocks| && !h.blocks[k].used
    ensures (h.blocks[k].start, h.Stop(k)) !in Owned(h)
  {
  }

  lemma TakenAt(h: Heap, k: nat, want: nat)
    requires k < |h.blocks|
    ensures k < |Taken(h, k, want)| && Taken(h, k, want)[k] == Block(h.blocks[k].start, true)
  {
  }
}
