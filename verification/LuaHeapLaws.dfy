/** What every run of the Lua heap keeps, and what one call means for its caller. */
module LuaHeapLaws {
  import opened LuaHeapModel

  // ---------------------------------------------------------------- sums and indices

  lemma {:induction false} UsedSpansConcat(a: seq<Block>, c: seq<Block>, end: nat)
    ensures UsedSpans(a + c, end) == UsedSpans(a, if |c| > 0 then c[0].start else end) + UsedSpans(c, end)
  {
    if |a| == 0 {
      assert a + c == c;
    } else {
      UsedSpansConcat(a[1..], c, end);
      assert (a + c)[1..] == a[1..] + c;
    }
  }

  /** Replacing a middle part that begins at the same offset changes the sum by its own. */
  lemma UsedSpansSplice(b: seq<Block>, k: nat, m: nat, mid: seq<Block>, end: nat)
    requires m > 0 && k + m <= |b| && |mid| > 0 && b[k].start == mid[0].start
    ensures var stop := if k + m < |b| then b[k + m].start else end;
            UsedSpans(Splice(b, k, m, mid), end) - UsedSpans(b, end) == UsedSpans(mid, stop) - UsedSpans(b[k..k + m], stop)
  {
    var pre, old_, post := b[..k], b[k..k + m], b[k + m..];
    var stop := if |post| > 0 then post[0].start else end;
    UsedSpansConcat(pre + old_, post, end);
    UsedSpansConcat(pre + mid, post, end);
    UsedSpansConcat(pre, old_, stop);
    UsedSpansConcat(pre, mid, stop);
    assert b == pre + old_ + post;
  }

  lemma UsedSpansOne(b: Block, stop: nat)
    ensures UsedSpans([b], stop) == if b.used then stop - b.start else 0
  {
  }

  lemma UsedSpansTwo(b: Block, c: Block, stop: nat)
    ensures UsedSpans([b, c], stop) == (if b.used then c.start - b.start else 0) + (if c.used then stop - c.start else 0)
  {
    assert [b, c][1..] == [c];
    UsedSpansOne(c, stop);
  }

  lemma IndexIs(blocks: seq<Block>, end: nat, k: nat)
    requires Tiled(blocks, end) && k < |blocks|
    ensures IndexOf(blocks, blocks[k].start) == k
  {
    var i := IndexOf(blocks, blocks[k].start);
    assert i <= k;
  }

  lemma LiveIndex(h: Heap, at: nat) returns (k: nat)
    requires Tiled(h.blocks, h.End()) && Live(h, at)
    ensures k < |h.blocks| && h.blocks[k] == Block(at, true) && IndexOf(h.blocks, at) == k
  {
    k :| 0 <= k < |h.blocks| && h.blocks[k].start == at && h.blocks[k].used;
    IndexIs(h.blocks, h.End(), k);
  }

  // ---------------------------------------------------------------- what a step keeps

  lemma SpliceFreeAt(b: seq<Block>, k: nat, m: nat, mid: seq<Block>, at: nat)
    requires k + m <= |b| && FreeAt(b, at)
    requires forall i | k <= i < k + m && b[i] == Block(at, false) :: i - k < |mid| && mid[i - k] == b[i]
    ensures FreeAt(Splice(b, k, m, mid), at)
  {
    var b' := Splice(b, k, m, mid);
    var f :| 0 <= f < |b| && b[f].start == at && !b[f].used;
    if f < k + m {
      assert b'[f] == b[f];
    } else {
      assert b'[f - m + |mid|] == b[f];
    }
  }

  /** Splicing in a part that tiles the same stretch keeps the tiling. */
  lemma SpliceTiled(b: seq<Block>, k: nat, m: nat, mid: seq<Block>, end: nat)
    requires Tiled(b, end) && m > 0 && k + m <= |b| && |mid| > 0 && mid[0].start == b[k].start
    requires forall i | 0 <= i < |mid| ::
               mid[i].start + HDR <= if k + m < |b| then b[k + m].start else end
    requires forall i, j | 0 <= i < j < |mid| :: mid[i].start + HDR <= mid[j].start
    ensures Tiled(Splice(b, k, m, mid), end)
  {
    var r := Splice(b, k, m, mid);
    assert r[0].start == 0;
    forall i | 0 <= i < |r| ensures r[i].start + HDR <= end {
      if k + m < |b| { assert b[k + m].start + HDR <= end; }
    }
    forall i, j | 0 <= i < j < |r| ensures r[i].start + HDR <= r[j].start {
      if k <= i < k + |mid| <= j {
        assert r[j] == b[j + m - |mid|];
        assert b[k + m].start <= b[j + m - |mid|].start;
      } else if i < k <= j < k + |mid| {
        assert b[i].start + HDR <= mid[0].start <= mid[j - k].start;
      }
    }
  }

  lemma SpliceOneTiled(b: seq<Block>, k: nat, m: nat, x: Block, end: nat)
    requires Tiled(b, end) && m > 0 && k + m <= |b| && x.start == b[k].start
    ensures Tiled(Splice(b, k, m, [x]), end)
  {
    SpliceTiled(b, k, m, [x], end);
  }

  lemma SpliceTwoTiled(b: seq<Block>, k: nat, x: Block, y: Block, end: nat)
    requires Tiled(b, end) && k < |b| && x.start == b[k].start && x.start + HDR <= y.start
    requires y.start + HDR <= if k + 1 < |b| then b[k + 1].start else end
    ensures Tiled(Splice(b, k, 1, [x, y]), end)
  {
    SpliceTiled(b, k, 1, [x, y], end);
  }

  lemma SpliceOnWords(b: seq<Block>, k: nat, m: nat, mid: seq<Block>, end: nat)
    requires OnWords(b, end) && k + m <= |b| && OnWords(mid, end)
    ensures OnWords(Splice(b, k, m, mid), end)
  {
  }

  lemma SpliceOneOnWords(b: seq<Block>, k: nat, m: nat, x: Block, end: nat)
    requires OnWords(b, end) && m > 0 && k + m <= |b| && x.start == b[k].start
    ensures OnWords(Splice(b, k, m, [x]), end)
  {
    SpliceOnWords(b, k, m, [x], end);
  }

  lemma RestOnWords(b: seq<Block>, k: nat, x: Block, size: nat, end: nat)
    requires OnWords(b, end) && k < |b| && x.start == b[k].start && size % 4 == 0
    ensures OnWords(Splice(b, k, 1, [x, Block(x.start + HDR + size, false)]), end)
    ensures OnWords(Splice(b, k, 1, [x]), end)
  {
    hide Splice, OnWords;
    RestStart(b, k, x, size, end);
    SpliceOnWords(b, k, 1, [x, Block(x.start + HDR + size, false)], end);
    SpliceOnWords(b, k, 1, [x], end);
  }

  lemma RestStart(b: seq<Block>, k: nat, x: Block, size: nat, end: nat)
    requires OnWords(b, end) && k < |b| && x.start == b[k].start && size % 4 == 0
    ensures OnWords([x, Block(x.start + HDR + size, false)], end) && OnWords([x], end)
  {
    assert (x.start + HDR + size) % 4 == 0;
  }

  lemma SpliceLast(b: seq<Block>, k: nat, m: nat, mid: seq<Block>, end: nat)
    requires LastHasRoom(b, end) && k + m <= |b| && |mid| > 0
    requires k + m == |b| ==> mid[|mid| - 1].used ==> mid[|mid| - 1].start + HDR < end
    ensures LastHasRoom(Splice(b, k, m, mid), end)
  {
  }

  /** The invariant, but that block k may have free neighbours on the sides named. */
  ghost predicate InvBut(h: Heap, k: nat, prev: bool, next: bool) {
    && InLinks(h)
    && Tiled(h.blocks, h.End())
    && OnWords(h.blocks, h.End())
    && LastHasRoom(h.blocks, h.End())
    && k < |h.blocks|
    && ApartBut(h.blocks, k, prev, next)
    && Counted(h)
    && LfreeIsFree(h)
  }

  ghost predicate LfreeIsFree(h: Heap) {
    h.lfree == h.End() || FreeAt(h.blocks, h.lfree)
  }

  ghost predicate ApartBut(b: seq<Block>, k: nat, prev: bool, next: bool) {
    forall i | 0 < i < |b| && !(prev && i == k) && !(next && i == k + 1) :: b[i - 1].used || b[i].used
  }

  ghost predicate Counted(h: Heap) {
    h.usedMem == UsedSpans(h.blocks, h.End()) && h.usedMem <= h.maxMem
  }

  lemma PlugNextCounted(h: Heap, k: nat)
    requires Counted(h) && k < |h.blocks| && !h.blocks[k].used
    ensures Counted(PlugNext(h, k))
  {
    var b := h.blocks;
    if k + 1 < |b| && !b[k + 1].used {
      UsedSpansSplice(b, k, 2, [b[k]], h.End());
      UsedSpansTwo(b[k], b[k + 1], h.Stop(k + 1));
      UsedSpansOne(b[k], h.Stop(k + 1));
      assert b[k..k + 2] == [b[k], b[k + 1]];
    }
  }

  lemma PlugNextApart(b: seq<Block>, k: nat)
    requires k + 1 < |b| && !b[k].used && !b[k + 1].used && ApartBut(b, k, true, true)
    ensures ApartBut(Splice(b, k, 2, [b[k]]), k, true, false)
  {
    var r := Splice(b, k, 2, [b[k]]);
    forall i | 0 < i < |r| && i != k ensures r[i - 1].used || r[i].used {
      if i > k {
        assert r[i] == b[i + 1];
        assert b[i].used || b[i + 1].used;
        assert i > k + 1 ==> r[i - 1] == b[i];
      } else {
        assert r[i] == b[i] && r[i - 1] == b[i - 1];
      }
    }
  }

  lemma PlugPrevApart(b: seq<Block>, k: nat)
    requires 0 < k < |b| && !b[k].used && !b[k - 1].used && ApartBut(b, k, true, false)
    ensures NoFreeNeighbours(Splice(b, k - 1, 2, [b[k - 1]]))
  {
    var r := Splice(b, k - 1, 2, [b[k - 1]]);
    forall i | 0 < i < |r| ensures r[i - 1].used || r[i].used {
      if i >= k {
        assert r[i] == b[i + 1];
        assert b[i].used || b[i + 1].used;
        assert i > k ==> r[i - 1] == b[i];
      } else {
        assert r[i] == b[i] && r[i - 1] == b[i - 1];
      }
    }
  }

  /** Splitting a block, or marking it used, leaves at most the split-off part beside a free block. */
  lemma SplitApart(b: seq<Block>, k: nat, mid: seq<Block>)
    requires k < |b| && 1 <= |mid| <= 2 && mid[0].used && NoFreeNeighbours(b)
    ensures ApartBut(Splice(b, k, 1, mid), k + 1, true, true)
    ensures |mid| == 1 || !b[k].used ==> NoFreeNeighbours(Splice(b, k, 1, mid))
  {
    var r := Splice(b, k, 1, mid);
    var d := |mid| - 1;
    forall i | 0 < i < |r| && (i == k + 2 ==> |mid| == 1 || !b[k].used) ensures r[i - 1].used || r[i].used {
      if i > k + d {
        assert r[i] == b[i - d];
        assert b[i - d - 1].used || b[i - d].used;
        assert i > k + d + 1 ==> r[i - 1] == b[i - d - 1];
      } else if i < k {
        assert r[i] == b[i] && r[i - 1] == b[i - 1];
      }
    }
  }

  lemma PlugNextLfree(h: Heap, k: nat)
    requires LfreeIsFree(h) && k < |h.blocks| && !h.blocks[k].used
    ensures LfreeIsFree(PlugNext(h, k)) && PlugNext(h, k).blocks[k] == h.blocks[k]
  {
    var h', b := PlugNext(h, k), h.blocks;
    assert h'.blocks[k] == b[k];
    if h' != h && h.lfree != b[k + 1].start && h.lfree != h.End() {
      SpliceFreeAt(b, k, 2, [b[k]], h.lfree);
    }
  }

  lemma PlugNextKeeps(h: Heap, k: nat)
    requires InvBut(h, k, true, true) && !h.blocks[k].used
    ensures var h' := PlugNext(h, k);
            InvBut(h', k, true, false) && h'.blocks[k] == h.blocks[k]
  {
    hide Tiled, OnWords, LastHasRoom, Counted, LfreeIsFree;
    var b := h.blocks;
    PlugNextCounted(h, k);
    PlugNextLfree(h, k);
    if k + 1 < |b| && !b[k + 1].used {
      PlugNextApart(b, k);
      SpliceOneTiled(b, k, 2, b[k], h.End());
      SpliceOneOnWords(b, k, 2, b[k], h.End());
      SpliceLast(b, k, 2, [b[k]], h.End());
    }
  }

  lemma PlugPrevCounted(h: Heap, k: nat)
    requires Counted(h) && k < |h.blocks| && !h.blocks[k].used
    ensures Counted(PlugPrev(h, k))
  {
    var b := h.blocks;
    if k > 0 && !b[k - 1].used {
      UsedSpansSplice(b, k - 1, 2, [b[k - 1]], h.End());
      UsedSpansTwo(b[k - 1], b[k], h.Stop(k));
      UsedSpansOne(b[k - 1], h.Stop(k));
      assert b[k - 1..k + 1] == [b[k - 1], b[k]];
    }
  }

  lemma PlugPrevLfree(h: Heap, k: nat)
    requires LfreeIsFree(h) && k < |h.blocks| && !h.blocks[k].used
    ensures LfreeIsFree(PlugPrev(h, k))
  {
    var h', b := PlugPrev(h, k), h.blocks;
    if h' != h {
      assert h'.blocks[k - 1] == b[k - 1];
      if h.lfree != b[k].start && h.lfree != h.End() {
        SpliceFreeAt(b, k - 1, 2, [b[k - 1]], h.lfree);
      }
    }
  }

  lemma PlugPrevKeeps(h: Heap, k: nat)
    requires InvBut(h, k, true, false) && !h.blocks[k].used
    ensures Inv(PlugPrev(h, k))
  {
    hide Tiled, OnWords, LastHasRoom, UsedSpans, FreeAt;
    var b := h.blocks;
    PlugPrevCounted(h, k);
    PlugPrevLfree(h, k);
    if k > 0 && !b[k - 1].used {
      PlugPrevApart(b, k);
      SpliceOneTiled(b, k - 1, 2, b[k - 1], h.End());
      SpliceOneOnWords(b, k - 1, 2, b[k - 1], h.End());
      SpliceLast(b, k - 1, 2, [b[k - 1]], h.End());
    }
  }

  lemma PlugHolesKeeps(h: Heap, k: nat)
    requires InvBut(h, k, true, true) && !h.blocks[k].used
    ensures Inv(PlugHoles(h, k))
  {
    PlugNextKeeps(h, k);
    PlugPrevKeeps(PlugNext(h, k), k);
  }

  lemma ReleaseCounted(h: Heap, k: nat)
    requires Tiled(h.blocks, h.End()) && Counted(h) && k < |h.blocks| && h.blocks[k].used
    ensures Counted(Release(h, k))
  {
    var b := h.blocks;
    UsedSpansSplice(b, k, 1, [Block(b[k].start, false)], h.End());
    UsedSpansOne(b[k], h.Stop(k));
    UsedSpansOne(Block(b[k].start, false), h.Stop(k));
    assert b[k..k + 1] == [b[k]];
  }

  lemma ReleaseLfree(h: Heap, k: nat)
    requires LfreeIsFree(h) && k < |h.blocks| && h.blocks[k].used
    ensures LfreeIsFree(Release(h, k))
  {
    var h', b := Release(h, k), h.blocks;
    var mid := [Block(b[k].start, false)];
    assert h'.blocks[k] == mid[0];
    if h'.lfree == h.lfree && h.lfree != h.End() {
      SpliceFreeAt(b, k, 1, mid, h.lfree);
    }
  }

  lemma ReleaseKeeps(h: Heap, k: nat)
    requires Inv(h) && k < |h.blocks| && h.blocks[k].used
    ensures InvBut(Release(h, k), k, true, true) && Release(h, k).blocks[k] == Block(h.blocks[k].start, false)
  {
    hide Tiled, OnWords, LastHasRoom, UsedSpans, FreeAt, NoFreeNeighbours, ApartBut, Splice;
    var b := h.blocks;
    ReleaseCounted(h, k);
    ReleaseLfree(h, k);
    ReleaseApart(h, k);
    SpliceOneTiled(b, k, 1, Block(b[k].start, false), h.End());
    SpliceOneOnWords(b, k, 1, Block(b[k].start, false), h.End());
    SpliceLast(b, k, 1, [Block(b[k].start, false)], h.End());
  }

  lemma ReleaseApart(h: Heap, k: nat)
    requires NoFreeNeighbours(h.blocks) && k < |h.blocks| && h.blocks[k].used
    ensures |Release(h, k).blocks| == |h.blocks| && Release(h, k).blocks[k] == Block(h.blocks[k].start, false)
    ensures ApartBut(Release(h, k).blocks, k, true, true)
  {
  }

  lemma CutCounted(h: Heap, k: nat, size: nat)
    requires Counted(h) && k < |h.blocks| && h.blocks[k].used && h.Payload(k) >= size
    ensures Counted(Cut(h, k, size))
  {
    var b, rest := h.blocks, Block(h.blocks[k].start + HDR + size, false);
    UsedSpansSplice(b, k, 1, [b[k], rest], h.End());
    UsedSpansOne(b[k], h.Stop(k));
    UsedSpansTwo(b[k], rest, h.Stop(k));
    assert b[k..k + 1] == [b[k]];
  }

  lemma CutKeeps(h: Heap, k: nat, size: nat)
    requires Inv(h) && k < |h.blocks| && h.blocks[k].used
    requires size % 4 == 0 && size + HDR + MIN_SIZE < h.Payload(k)
    ensures InvBut(Cut(h, k, size), k + 1, true, true)
    ensures Cut(h, k, size).blocks[k] == h.blocks[k] && Cut(h, k, size).Payload(k) == size
    ensures Cut(h, k, size).blocks[k + 1] == Block(h.blocks[k].start + HDR + size, false)
  {
    hide Tiled, OnWords, LastHasRoom, UsedSpans, NoFreeNeighbours, ApartBut, FreeAt;
    var h', b := Cut(h, k, size), h.blocks;
    var mid := [b[k], Block(b[k].start + HDR + size, false)];
    CutCounted(h, k, size);
    SplitApart(b, k, mid);
    assert h'.blocks[k] == mid[0] && h'.blocks[k + 1] == mid[1];
    if h.lfree != h.End() {
      SpliceFreeAt(b, k, 1, mid, h.lfree);
    }
    SpliceTwoTiled(b, k, mid[0], mid[1], h.End());
    RestOnWords(b, k, b[k], size, h.End());
    SpliceLast(b, k, 1, mid, h.End());
  }

  lemma TakeCounted(h: Heap, k: nat, size: nat)
    requires Counted(h) && k < |h.blocks| && !h.blocks[k].used
    ensures Counted(Take(h, k, size))
  {
    var b := h.blocks;
    var taken, rest := Block(b[k].start, true), Block(b[k].start + HDR + size, false);
    var mid := if h.Payload(k) >= size + HDR + MIN_SIZE then [taken, rest] else [taken];
    UsedSpansSplice(b, k, 1, mid, h.End());
    UsedSpansOne(b[k], h.Stop(k));
    UsedSpansOne(taken, h.Stop(k));
    UsedSpansTwo(taken, rest, h.Stop(k));
    assert b[k..k + 1] == [b[k]];
  }

  lemma TakeLfree(h: Heap, k: nat, size: nat)
    requires LfreeIsFree(h) && k < |h.blocks| && !h.blocks[k].used
    ensures LfreeIsFree(Take(h, k, size))
  {
    var b := h.blocks;
    if h.lfree != h.End() && h.lfree != b[k].start {
      var taken, rest := Block(b[k].start, true), Block(b[k].start + HDR + size, false);
      SpliceFreeAt(b, k, 1, if h.Payload(k) >= size + HDR + MIN_SIZE then [taken, rest] else [taken], h.lfree);
    }
  }

  lemma TakeTiled(h: Heap, k: nat, size: nat)
    requires Tiled(h.blocks, h.End()) && k < |h.blocks| && h.Payload(k) >= size
    ensures Tiled(Taken(h, k, size), h.End())
  {
    hide Tiled, Splice;
    var b := h.blocks;
    var taken, rest := Block(b[k].start, true), Block(b[k].start + HDR + size, false);
    if h.Payload(k) >= size + HDR + MIN_SIZE {
      assert rest.start + HDR <= if k + 1 < |b| then b[k + 1].start else h.End();
      SpliceTwoTiled(b, k, taken, rest, h.End());
    } else {
      SpliceOneTiled(b, k, 1, taken, h.End());
    }
  }

  lemma TakeKeeps(h: Heap, k: nat, size: nat)
    requires Inv(h) && k < |h.blocks| && !h.blocks[k].used
    requires size % 4 == 0 && h.Payload(k) >= size > 0
    ensures Inv(Take(h, k, size))
  {
    hide Tiled, OnWords, LastHasRoom, UsedSpans, FreeAt, NoFreeNeighbours, ApartBut, NextFree;
    var b := h.blocks;
    var taken, rest := Block(b[k].start, true), Block(b[k].start + HDR + size, false);
    var mid := if h.Payload(k) >= size + HDR + MIN_SIZE then [taken, rest] else [taken];
    TakeCounted(h, k, size);
    TakeLfree(h, k, size);
    SplitApart(b, k, mid);
    TakeTiled(h, k, size);
    RestOnWords(b, k, taken, size, h.End());
    SpliceLast(b, k, 1, mid, h.End());
  }

  // ---------------------------------------------------------------- who owns what

  /** Start and stop of every block in a caller's hands. */
  ghost function Owned(h: Heap): set<(nat, nat)> {
    set k | 0 <= k < |h.blocks| && h.blocks[k].used :: (h.blocks[k].start, h.Stop(k))
  }

  /** Splicing changes the ownership of the part replaced and of nothing else. */
  lemma SpliceOwned(h: Heap, h': Heap, k: nat, m: nat, mid: seq<Block>)
    requires m > 0 && k + m <= |h.blocks| && |mid| > 0 && h.blocks[k].start == mid[0].start
    requires h'.blocks == Splice(h.blocks, k, m, mid) && h'.size == h.size
    ensures Owned(h') + OwnedIn(h, k, k + m) == Owned(h) + OwnedIn(h', k, k + |mid|)
  {
    hide Splice, Owned, OwnedIn;
    SpliceOwnedKept(h, h', k, m, mid);
    SpliceOwnedNew(h, h', k, m, mid);
    InOwned(h, k, k + m);
    InOwned(h', k, k + |mid|);
  }

  lemma InOwned(h: Heap, lo: nat, hi: nat)
    requires hi <= |h.blocks|
    ensures OwnedIn(h, lo, hi) <= Owned(h)
  {
  }

  /** A block outside the part replaced, and where it stops, before and after. */
  lemma SpliceKeeps(h: Heap, h': Heap, k: nat, m: nat, mid: seq<Block>, i: nat)
    requires m > 0 && k + m <= |h.blocks| && |mid| > 0 && h.blocks[k].start == mid[0].start
    requires h'.blocks == Splice(h.blocks, k, m, mid) && h'.size == h.size
    requires i < k || k + m <= i < |h.blocks|
    ensures var i' := if i < k then i else i - m + |mid|;
            i' < |h'.blocks| && h'.blocks[i'] == h.blocks[i] && h'.Stop(i') == h.Stop(i)
  {
  }

  lemma SpliceOwnedKept(h: Heap, h': Heap, k: nat, m: nat, mid: seq<Block>)
    requires m > 0 && k + m <= |h.blocks| && |mid| > 0 && h.blocks[k].start == mid[0].start
    requires h'.blocks == Splice(h.blocks, k, m, mid) && h'.size == h.size
    ensures Owned(h) <= Owned(h') + OwnedIn(h, k, k + m)
  {
    hide Splice;
    forall x | x in Owned(h) ensures x in Owned(h') + OwnedIn(h, k, k + m) {
      var i :| 0 <= i < |h.blocks| && h.blocks[i].used && x == (h.blocks[i].start, h.Stop(i));
      if !(k <= i < k + m) {
        SpliceKeeps(h, h', k, m, mid, i);
      }
    }
  }

  lemma SpliceOwnedNew(h: Heap, h': Heap, k: nat, m: nat, mid: seq<Block>)
    requires m > 0 && k + m <= |h.blocks| && |mid| > 0 && h.blocks[k].start == mid[0].start
    requires h'.blocks == Splice(h.blocks, k, m, mid) && h'.size == h.size
    ensures Owned(h') <= Owned(h) + OwnedIn(h', k, k + |mid|)
  {
    hide Splice;
    forall x | x in Owned(h') ensures x in Owned(h) + OwnedIn(h', k, k + |mid|) {
      var i :| 0 <= i < |h'.blocks| && h'.blocks[i].used && x == (h'.blocks[i].start, h'.Stop(i));
      if !(k <= i < k + |mid|) {
        SpliceKeeps(h, h', k, m, mid, if i < k then i else i + m - |mid|);
      }
    }
  }

  ghost function OwnedIn(h: Heap, lo: nat, hi: nat): set<(nat, nat)>
    requires hi <= |h.blocks|
  {
    set k | lo <= k < hi && h.blocks[k].used :: (h.blocks[k].start, h.Stop(k))
  }

  lemma PlugNextOwned(h: Heap, k: nat)
    requires k < |h.blocks| && !h.blocks[k].used
    ensures Owned(PlugNext(h, k)) == Owned(h)
  {
    var m := PlugNext(h, k);
    if m != h {
      SpliceOwned(h, m, k, 2, [h.blocks[k]]);
      assert OwnedIn(h, k, k + 2) == {};
      assert m.blocks[k] == h.blocks[k];
      assert OwnedIn(m, k, k + 1) == {};
    }
  }

  /** Merging free blocks changes no ownership. */
  lemma PlugHolesOwned(h: Heap, k: nat)
    requires k < |h.blocks| && !h.blocks[k].used
    ensures Owned(PlugHoles(h, k)) == Owned(h)
    ensures PlugHoles(h, k).size == h.size && PlugHoles(h, k).usedMem == h.usedMem
  {
    PlugNextOwned(h, k);
    var m := PlugNext(h, k);
    assert m.blocks[k] == h.blocks[k];
    var p := PlugPrev(m, k);
    if p != m {
      SpliceOwned(m, p, k - 1, 2, [m.blocks[k - 1]]);
      assert OwnedIn(m, k - 1, k + 1) == {};
      assert p.blocks[k - 1] == m.blocks[k - 1];
      assert OwnedIn(p, k - 1, k) == {};
    }
  }

  lemma OneOwned(h: Heap, k: nat)
    requires k < |h.blocks| && h.blocks[k].used
    ensures OwnedIn(h, k, k + 1) == {(h.blocks[k].start, h.Stop(k))}
    ensures (h.blocks[k].start, h.Stop(k)) in Owned(h)
  {
    var x := (h.blocks[k].start, h.Stop(k));
    assert x in OwnedIn(h, k, k + 1);
  }

  lemma ReleaseOwned(h: Heap, k: nat)
    requires Tiled(h.blocks, h.End()) && k < |h.blocks| && h.blocks[k].used
    ensures Owned(Release(h, k)) == Owned(h) - {(h.blocks[k].start, h.Stop(k))}
  {
    var h', x := Release(h, k), (h.blocks[k].start, h.Stop(k));
    SpliceOwned(h, h', k, 1, [Block(h.blocks[k].start, false)]);
    OneOwned(h, k);
    assert OwnedIn(h', k, k + 1) == {};
    assert x !in Owned(h');
  }

  lemma TakenStarts(h: Heap, k: nat, size: nat)
    requires k < |h.blocks|
    ensures var b, at, rest := Taken(h, k, size), h.blocks[k].start, Block(h.blocks[k].start + HDR + size, false);
            && k < |b| && b[k] == Block(at, true)
            && (h.Payload(k) >= size + HDR + MIN_SIZE ==> k + 1 < |b| && b[k + 1] == rest)
            && (h.Payload(k) < size + HDR + MIN_SIZE ==>
                  |b| == |h.blocks| && (k + 1 < |h.blocks| ==> b[k + 1] == h.blocks[k + 1]))
  {
  }

  lemma TakeOwned(h: Heap, k: nat, size: nat)
    requires k < |h.blocks| && !h.blocks[k].used && h.Payload(k) >= size
    ensures var h' := Take(h, k, size);
            && h'.blocks[k] == Block(h.blocks[k].start, true)
            && h'.Payload(k) >= size
            && Owned(h') == Owned(h) + {(h'.blocks[k].start, h'.Stop(k))}
  {
    hide Splice, NextFree, Owned;
    var h', b := Take(h, k, size), h.blocks;
    var taken, rest := Block(b[k].start, true), Block(b[k].start + HDR + size, false);
    var mid := if h.Payload(k) >= size + HDR + MIN_SIZE then [taken, rest] else [taken];
    TakenStarts(h, k, size);
    SpliceOwned(h, h', k, 1, mid);
    assert OwnedIn(h, k, k + 1) == {};
    OneOwned(h', k);
    assert OwnedIn(h', k, k + |mid|) == OwnedIn(h', k, k + 1);
  }

  lemma CutOwned(h: Heap, k: nat, size: nat)
    requires Tiled(h.blocks, h.End()) && k < |h.blocks| && h.blocks[k].used && size + HDR + MIN_SIZE < h.Payload(k)
    ensures var at := h.blocks[k].start;
            Owned(Cut(h, k, size)) == Owned(h) - {(at, h.Stop(k))} + {(at, at + HDR + size)}
  {
    hide Splice, Tiled;
    var h', b := Cut(h, k, size), h.blocks;
    var at := b[k].start;
    SpliceOwned(h, h', k, 1, [b[k], Block(at + HDR + size, false)]);
    CutShape(h, k, size);
    OneOwned(h, k);
    OneOwned(h', k);
    CutGone(h, k, size);
  }

  lemma CutHead(h: Heap, k: nat, size: nat)
    requires k < |h.blocks|
    ensures var h' := Cut(h, k, size);
            && k + 1 < |h'.blocks| && h'.blocks[k] == h.blocks[k]
            && h'.blocks[k + 1] == Block(h.blocks[k].start + HDR + size, false)
  {
  }

  lemma CutShape(h: Heap, k: nat, size: nat)
    requires k < |h.blocks| && h.blocks[k].used
    ensures var h', at := Cut(h, k, size), h.blocks[k].start;
            && k + 1 < |h'.blocks| && h'.blocks[k] == h.blocks[k] && h'.Stop(k) == at + HDR + size
            && OwnedIn(h', k, k + 2) == OwnedIn(h', k, k + 1)
  {
    var h', at := Cut(h, k, size), h.blocks[k].start;
    CutHead(h, k, size);
    assert OwnedIn(h', k, k + 2) == OwnedIn(h', k, k + 1);
  }

  lemma CutGone(h: Heap, k: nat, size: nat)
    requires Tiled(h.blocks, h.End()) && k < |h.blocks| && size + HDR + MIN_SIZE < h.Payload(k)
    ensures (h.blocks[k].start, h.Stop(k)) !in Owned(Cut(h, k, size))
  {
    var h', at := Cut(h, k, size), h.blocks[k].start;
    forall i | 0 <= i < |h'.blocks| && h'.blocks[i].start == at ensures h'.Stop(i) != h.Stop(k) {
      CutStarts(h, k, size, i);
    }
  }

  lemma CutStarts(h: Heap, k: nat, size: nat, i: nat)
    requires Tiled(h.blocks, h.End()) && k < |h.blocks| && size + HDR + MIN_SIZE < h.Payload(k)
    requires i < |Cut(h, k, size).blocks| && Cut(h, k, size).blocks[i].start == h.blocks[k].start
    ensures i == k && Cut(h, k, size).Stop(i) == h.blocks[k].start + HDR + size
  {
    hide Tiled, IndexOf, Splice;
    var h', rest := Cut(h, k, size), Block(h.blocks[k].start + HDR + size, false);
    CutHead(h, k, size);
    SpliceTwoTiled(h.blocks, k, h.blocks[k], rest, h.End());
    IndexIs(h'.blocks, h.End(), k);
    IndexIs(h'.blocks, h.End(), i);
  }
}
