/** The results a user of the Lua heap relies on. */
module LuaHeapTheorems {
  import opened Common
  import opened LuaHeapModel
  import opened LuaHeapLaws

  /** Where the block starting at `at` stops. */
  ghost function StopOf(h: Heap, at: nat): nat {
    var k := IndexOf(h.blocks, at);
    if k < |h.blocks| then h.Stop(k) else at
  }

  // ---------------------------------------------------------------- lua_malloc

  /** Block k is free and offers `size` bytes. */
  ghost predicate Fits(h: Heap, k: nat, size: nat) {
    k < |h.blocks| && !h.blocks[k].used && h.Payload(k) >= size
  }

  lemma {:induction false} FirstFitIsFirst(h: Heap, size: nat, k: nat)
    requires Tiled(h.blocks, h.End()) && k <= |h.blocks| && size <= h.size
    ensures match FirstFit(h, size, k)
            case Some(r) => Fits(h, r, size) && h.blocks[r].start < h.size - size && forall j | k <= j < r :: !Fits(h, j, size)
            case None => forall j | k <= j < |h.blocks| && h.blocks[j].start < h.size - size :: !Fits(h, j, size)
    decreases |h.blocks| - k
  {
    if k == |h.blocks| || h.blocks[k].start >= h.size - size {
    } else if !Fits(h, k, size) {
      FirstFitIsFirst(h, size, k + 1);
    }
  }

  lemma LfreeIndex(h: Heap) returns (k: nat)
    requires Tiled(h.blocks, h.End()) && LfreeIsFree(h)
    ensures k == IndexOf(h.blocks, h.lfree) && k <= |h.blocks|
    ensures k < |h.blocks| ==> h.blocks[k] == Block(h.lfree, false)
    ensures forall i | 0 <= i < |h.blocks| :: h.blocks[i].start < h.lfree <==> i < k
  {
    k := IndexOf(h.blocks, h.lfree);
    if h.lfree != h.End() {
      var f :| 0 <= f < |h.blocks| && h.blocks[f].start == h.lfree && !h.blocks[f].used;
      IndexIs(h.blocks, h.End(), f);
    }
  }

  /** A grant takes a free block at or above lfree. */
  lemma MallocFinds(h: Heap, n: word) returns (k: nat)
    requires Inv(h) && Returns(h, n) && Malloc(h, n).1.Some?
    ensures Fits(h, k, Need(n)) && h.lfree <= h.blocks[k].start
    ensures Malloc(h, n) == (Take(h, k, Need(n)), Some(h.blocks[k].start))
  {
    var i := LfreeIndex(h);
    FirstFitIsFirst(h, Need(n), i);
    k := FirstFit(h, Need(n), i).value;
  }

  lemma BlockOnWords(b: seq<Block>, end: nat, k: nat)
    requires OnWords(b, end) && k < |b|
    ensures b[k].start % 4 == 0
  {
  }

  lemma TakeGivesOwner(h: Heap, k: nat, size: nat)
    requires Inv(h) && Fits(h, k, size) && size % 4 == 0
    ensures var h', at := Take(h, k, size), h.blocks[k].start;
            && Owned(h') == Owned(h) + {(at, StopOf(h', at))}
            && !Live(h, at) && Live(h', at)
            && StopOf(h', at) - (at + HDR) >= size
  {
    var h', at := Take(h, k, size), h.blocks[k].start;
    TakeOwned(h, k, size);
    assert IndexOf(h'.blocks, at) == k by {
      TakeTiled(h, k, size);
      IndexIs(h'.blocks, h.End(), k);
    }
    if Live(h, at) {
      var j := LiveIndex(h, at);
      IndexIs(h.blocks, h.End(), k);
    }
  }

  /** A block handed out is new to its owner, aligned, long enough, and nobody else's changes. */
  lemma MallocKeeps(h: Heap, n: word)
    requires Inv(h) && Returns(h, n)
    ensures var (h', r) := Malloc(h, n);
            && Inv(h') && h'.size == h.size
            && (r.None? ==> h' == h)
            && (r.Some? ==>
                  && Owned(h') == Owned(h) + {(r.value, StopOf(h', r.value))}
                  && !Live(h, r.value) && Live(h', r.value)
                  && (r.value + HDR) % 4 == 0
                  && StopOf(h', r.value) - (r.value + HDR) >= Need(n))
  {
    hide Tiled, OnWords, LastHasRoom, UsedSpans, FreeAt, NoFreeNeighbours, NextFree, Taken, Owned, Live, StopOf, FirstFit, IndexOf;
    if Malloc(h, n).1.Some? {
      var k := MallocFinds(h, n);
      TakeKeeps(h, k, Need(n));
      TakeGivesOwner(h, k, Need(n));
      BlockOnWords(h.blocks, h.End(), k);
    }
  }

  /** First fit from a true lowest-free pointer: the lowest block that fits, or a refusal
      when the only fitting blocks begin exactly at the bound the walk never reaches. */
  lemma MallocTakesLowestFit(h: Heap, n: word)
    requires Inv(h) && Returns(h, n) && LowestFree(h) && 0 < n && Align(n) <= h.size
    ensures var (h', r) := Malloc(h, n);
            match r
            case Some(at) =>
              exists k: nat :: Fits(h, k, Need(n)) && h.blocks[k].start == at && forall j | 0 <= j < k :: !Fits(h, j, Need(n))
            case None =>
              forall j | 0 <= j < |h.blocks| && Fits(h, j, Need(n)) :: h.blocks[j].start == h.size - Need(n)
    ensures Malloc(h, n).1.None? <==>
            forall j | 0 <= j < |h.blocks| :: Fits(h, j, Need(n)) ==> h.blocks[j].start == h.size - Need(n)
  {
    var size := Need(n);
    var i := LfreeIndex(h);
    FirstFitIsFirst(h, size, i);
    assert forall j | 0 <= j < i :: !Fits(h, j, size);
    forall j | 0 <= j < |h.blocks| && Fits(h, j, size) ensures h.blocks[j].start <= h.size - size {
      assert h.Stop(j) <= h.End();
    }
  }

  /** The aligned size covers the request unless rounding up wraps: exactly then is it too small. */
  lemma NeedCovers(n: word)
    ensures Need(n) >= n <==> n <= WORD - 4
    ensures n > WORD - 4 ==> Need(n) == MIN_SIZE
  {
  }

  /** A block handed out holds the bytes asked for exactly if rounding up did not wrap: a request
      within four bytes of the word size is granted a block that does not. */
  lemma GrantHolds(h: Heap, n: word)
    requires Inv(h) && Returns(h, n) && Malloc(h, n).1.Some?
    ensures var (h', r) := Malloc(h, n);
            StopOf(h', r.value) - (r.value + HDR) >= n <==> n <= WORD - 4
  {
    hide Tiled, OnWords, LastHasRoom, UsedSpans, FreeAt, NoFreeNeighbours, Owned, FirstFit, IndexOf;
    var (h', r) := Malloc(h, n);
    MallocKeeps(h, n);
    StopWithin(h', r.value);
    NeedCovers(n);
  }

  lemma StopWithin(h: Heap, at: nat)
    requires Tiled(h.blocks, h.End()) && Live(h, at)
    ensures StopOf(h, at) <= h.End()
  {
    var k := LiveIndex(h, at);
  }

  /** A fresh heap of `size` bytes grants every non-zero request below its size, never one of its size. */
  lemma FreshHeapGrants(size: nat, n: word)
    requires size % 4 == 0 && size + HDR < LINK && Returns(Init(size, 0, 0), n)
    ensures Malloc(Init(size, 0, 0), n).1.Some? <==> n != 0 && Need(n) < size
  {
    var h := Init(size, 0, 0);
    assert IndexOf(h.blocks, 0) == 0;
    if Need(n) <= size {
      assert FirstFit(h, Need(n), 1) == None;
    }
  }

  // ---------------------------------------------------------------- lua_free

  /** Freeing takes exactly the one block from its owner. */
  lemma FreeKeeps(h: Heap, at: nat)
    requires Inv(h) && Live(h, at)
    ensures Inv(Free(h, at)) && Free(h, at).size == h.size
    ensures Owned(Free(h, at)) == Owned(h) - {(at, StopOf(h, at))}
    ensures Free(h, at).usedMem == h.usedMem - (StopOf(h, at) - at)
  {
    hide Tiled, OnWords, LastHasRoom, UsedSpans, FreeAt, NoFreeNeighbours, ApartBut, Owned, PlugHoles;
    var k := LiveIndex(h, at);
    ReleaseKeeps(h, k);
    ReleaseOwned(h, k);
    var m := Release(h, k);
    PlugHolesKeeps(m, k);
    PlugHolesOwned(m, k);
  }

  lemma {:induction false} NextFreeAbove(b: seq<Block>, end: nat, k: nat)
    requires Tiled(b, end) && k <= |b|
    ensures NextFree(b, end, k) > if k > 0 then b[k - 1].start else -1
    ensures forall i | k <= i < |b| && b[i].start < NextFree(b, end, k) :: b[i].used
    decreases |b| - k
  {
    if k < |b| && b[k].used {
      NextFreeAbove(b, end, k + 1);
    }
  }

  /** lua_free undoes lua_malloc: all that is left of the pair is the high-water mark. */
  lemma FreeUndoesMalloc(h: Heap, n: word)
    requires Inv(h) && Returns(h, n) && Malloc(h, n).1.Some?
    ensures var (h', r) := Malloc(h, n);
            Free(h', r.value) == h.(maxMem := h'.maxMem)
  {
    var k := MallocFinds(h, n);
    var at, size := h.blocks[k].start, Need(n);
    var h' := Take(h, k, size);
    assert IndexOf(h'.blocks, at) == k && (h.lfree == at ==> h'.lfree > at) by {
      TakeTiled(h, k, size);
      TakeOwned(h, k, size);
      IndexIs(h'.blocks, h.End(), k);
      NextFreeAbove(h'.blocks, h.End(), k + 1);
    }
    if h.Payload(k) >= size + HDR + MIN_SIZE {
      RestIsNew(h, k, at + HDR + size);
    }
    assert k > 0 ==> h.blocks[k - 1].used;
    assert k + 1 < |h.blocks| ==> h.blocks[k + 1].used;
    TakeUndone(h, k, size);
  }

  lemma RestIsNew(h: Heap, k: nat, at: nat)
    requires Tiled(h.blocks, h.End()) && LfreeIsFree(h) && k < |h.blocks| && h.blocks[k].start < at < h.Stop(k)
    ensures h.lfree != at
  {
    assert h.Stop(k) <= h.End();
    if h.lfree != h.End() {
      var f :| 0 <= f < |h.blocks| && h.blocks[f].start == h.lfree && !h.blocks[f].used;
    }
  }

  lemma TakeUndone(h: Heap, k: nat, size: nat)
    requires Fits(h, k, size) && h.lfree <= h.blocks[k].start
    requires k > 0 ==> h.blocks[k - 1].used
    requires k + 1 < |h.blocks| ==> h.blocks[k + 1].used
    requires h.lfree == h.blocks[k].start ==> Take(h, k, size).lfree > h.lfree
    requires h.Payload(k) >= size + HDR + MIN_SIZE ==> h.lfree != h.blocks[k].start + HDR + size
    ensures var h' := Take(h, k, size);
            PlugHoles(Release(h', k), k) == h.(maxMem := h'.maxMem)
  {
    hide Splice, NextFree;
    var h', b, at := Take(h, k, size), h.blocks, h.blocks[k].start;
    var rest := Block(at + HDR + size, false);
    MergeBack(b, k, rest);
    var m := Release(h', k);
    TakenStarts(h, k, size);
    assert m.lfree == h.lfree;
    if h.Payload(k) >= size + HDR + MIN_SIZE {
      assert m.usedMem == h.usedMem;
    } else {
      assert m.blocks == b;
    }
    assert PlugNext(m, k).blocks == b;
  }

  lemma MergeBack(b: seq<Block>, k: nat, rest: Block)
    requires k < |b| && !b[k].used
    ensures var taken := Block(b[k].start, true);
            && Splice(Splice(Splice(b, k, 1, [taken, rest]), k, 1, [b[k]]), k, 2, [b[k]]) == b
            && Splice(Splice(b, k, 1, [taken, rest]), k, 1, [b[k]])[k + 1] == rest
            && Splice(Splice(b, k, 1, [taken]), k, 1, [b[k]]) == b
  {
    var t := Splice(b, k, 1, [Block(b[k].start, true), rest]);
    var u := Splice(t, k, 1, [b[k]]);
    assert t[k + 1] == rest && u[k + 1] == rest;
    forall i | 0 <= i < |b| ensures Splice(u, k, 2, [b[k]])[i] == b[i] {
      if i > k {
        assert Splice(u, k, 2, [b[k]])[i] == u[i + 1] == t[i + 1] == b[i];
      }
    }
    assert Splice(u, k, 2, [b[k]]) == b;
  }

  // ---------------------------------------------------------------- lua_realloc

  lemma OwnedStop(h: Heap, at: nat, stop: nat)
    requires Tiled(h.blocks, h.End()) && (at, stop) in Owned(h)
    ensures Live(h, at) && StopOf(h, at) == stop
  {
    var k :| 0 <= k < |h.blocks| && h.blocks[k].used && (at, stop) == (h.blocks[k].start, h.Stop(k));
    IndexIs(h.blocks, h.End(), k);
  }

  /** A pointer a caller owns lies below heap_end, so lua_free never takes it for foreign. */
  lemma LiveInside(h: Heap, at: nat)
    requires Inv(h) && Live(h, at)
    ensures at + HDR < h.End()
  {
    var k := LiveIndex(h, at);
    assert k + 1 < |h.blocks| ==> at + HDR <= h.blocks[k + 1].start;
  }

  lemma LiveOwned(h: Heap, at: nat)
    requires Tiled(h.blocks, h.End()) && Live(h, at)
    ensures (at, StopOf(h, at)) in Owned(h)
  {
    var k := LiveIndex(h, at);
    OneOwned(h, k);
  }

  /** The block is longer than asked by enough to cut a block off its end. */
  predicate Shrinks(h: Heap, at: nat, n: word) {
    var k := IndexOf(h.blocks, at);
    k < |h.blocks| && Align(n) <= h.size && Align(n) + HDR + MIN_SIZE < h.Payload(k)
  }

  lemma ShrinkIs(h: Heap, at: nat, n: word) returns (k: nat)
    requires Tiled(h.blocks, h.End()) && Live(h, at) && Shrinks(h, at, n)
    ensures k < |h.blocks| && h.blocks[k] == Block(at, true) && StopOf(h, at) == h.Stop(k)
    ensures Align(n) + HDR + MIN_SIZE < h.Payload(k)
    ensures Realloc(h, at, n) == (PlugHoles(Cut(h, k, Align(n)), k + 1), Some(at))
  {
    k := LiveIndex(h, at);
  }

  lemma ShrinkKeeps(h: Heap, at: nat, n: word)
    requires Inv(h) && Live(h, at) && Shrinks(h, at, n)
    ensures var (h', r) := Realloc(h, at, n);
            && Inv(h') && r == Some(at) && h'.size == h.size
            && Owned(h') == Owned(h) - {(at, StopOf(h, at))} + {(at, at + HDR + Align(n))}
  {
    hide Tiled, OnWords, LastHasRoom, UsedSpans, FreeAt, NoFreeNeighbours, ApartBut, Owned, PlugHoles, Realloc;
    var k := ShrinkIs(h, at, n);
    var m := Cut(h, k, Align(n));
    CutKeeps(h, k, Align(n));
    PlugHolesKeeps(m, k + 1);
    CutOwned(h, k, Align(n));
    PlugHolesOwned(m, k + 1);
  }

  /** Growing a block: a new one is taken, then the old one is freed. */
  lemma MoveKeeps(h: Heap, at: nat, n: word)
    requires Inv(h) && Returns(h, n) && Live(h, at) && Malloc(h, n).1.Some?
    ensures var (m, r) := Malloc(h, n);
            var h' := Free(m, at);
            && Inv(h') && h'.size == h.size && Live(m, at) && at != r.value
            && StopOf(m, at) == StopOf(h, at)
            && StopOf(h', r.value) == StopOf(m, r.value) >= r.value + HDR + Need(n)
            && (r.value, StopOf(h', r.value)) in Owned(h')
            && Owned(h') == Owned(h) - {(at, StopOf(h, at))} + {(r.value, StopOf(h', r.value))}
            && (r.value + HDR) % 4 == 0
  {
    hide Tiled, OnWords, NoFreeNeighbours, UsedSpans, Owned, Live, StopOf, Free, Malloc, FreeAt;
    var (m, r) := Malloc(h, n);
    MallocKeeps(h, n);
    LiveOwned(h, at);
    OwnedStop(m, at, StopOf(h, at));
    FreeKeeps(m, at);
    OwnedStop(Free(m, at), r.value, StopOf(m, r.value));
  }

  /** lua_realloc of a block a caller owns never asks lua_malloc for what it cannot answer. */
  lemma LiveRealloc(h: Heap, at: nat, n: word)
    requires Inv(h) && Live(h, at)
    ensures ReallocReturns(h, at, n)
  {
    var k := LiveIndex(h, at);
  }

  /** lua_realloc either changes nothing or trades the one block for one of at least the aligned size. */
  lemma ReallocKeeps(h: Heap, at: nat, n: word)
    requires Inv(h) && Live(h, at)
    ensures ReallocReturns(h, at, n)
    ensures var (h', r) := Realloc(h, at, n);
            && Inv(h') && h'.size == h.size
            && (r.None? ==> h' == h)
            && (r.Some? ==>
                  && (r.value, StopOf(h', r.value)) in Owned(h')
                  && Owned(h') == Owned(h) - {(at, StopOf(h, at))} + {(r.value, StopOf(h', r.value))}
                  && StopOf(h', r.value) - (r.value + HDR) >= Align(n)
                  && (r.value + HDR) % 4 == 0)
  {
    hide Tiled, OnWords, NoFreeNeighbours, UsedSpans, Owned, Live, Free, Malloc, FreeAt, LastHasRoom, PlugHoles, Cut;
    var size := Align(n);
    var k := LiveIndex(h, at);
    LiveRealloc(h, at, n);
    BlockOnWords(h.blocks, h.End(), k);
    if Shrinks(h, at, n) {
      ShrinkKeeps(h, at, n);
      OwnedStop(Realloc(h, at, n).0, at, at + HDR + size);
    } else {
      LiveOwned(h, at);
      if size <= h.size && h.Payload(k) != size {
        if Malloc(h, size).1.Some? {
          MoveKeeps(h, at, size);
        } else {
          MallocKeeps(h, size);
        }
      }
    }
  }

  /** The block lua_realloc hands back holds the bytes asked for exactly if rounding up did not wrap. */
  lemma ReallocHolds(h: Heap, at: nat, n: word)
    requires Inv(h) && Live(h, at) && ReallocReturns(h, at, n) && Realloc(h, at, n).1.Some?
    ensures var (h', r) := Realloc(h, at, n);
            StopOf(h', r.value) - (r.value + HDR) >= n <==> n <= WORD - 4
  {
    hide Tiled, OnWords, LastHasRoom, UsedSpans, FreeAt, NoFreeNeighbours, Owned, Malloc, Realloc;
    var (h', r) := Realloc(h, at, n);
    ReallocKeeps(h, at, n);
    OwnedStop(h', r.value, StopOf(h', r.value));
    StopWithin(h', r.value);
  }

  /** Asked to grow to nearly 2^32 bytes, lua_realloc cuts a block of 40 bytes down to none and hands it back. */
  lemma WrappedRealloc()
    ensures var h := Heap(64, [Block(0, true), Block(48, false)], 48, 48, 48);
            && Inv(h) && Live(h, 0) && ReallocReturns(h, 0, WORD - 1)
            && Realloc(h, 0, WORD - 1) == (Heap(64, [Block(0, true), Block(8, false)], 8, 8, 48), Some(0))
  {
    hide Splice, PlugHoles, Cut, UsedSpans;
    var h := Heap(64, [Block(0, true), Block(48, false)], 48, 48, 48);
    assert h.blocks[0] == Block(0, true) && h.blocks[1] == Block(48, false);
    TwoBlocks(h);
    assert IndexOf(h.blocks, 0) == 0;
    CutToNothing(h);
  }

  lemma TwoBlocks(h: Heap)
    requires h.size == 64 && h.blocks == [Block(0, true), Block(48, false)] && h.lfree == 48
    ensures UsedSpans(h.blocks, h.End()) == 48 && FreeAt(h.blocks, 48)
  {
    assert h.blocks[1] == Block(48, false);
    assert h.blocks[1..] == [Block(48, false)];
    UsedSpansOne(Block(48, false), h.End());
  }

  lemma CutToNothing(h: Heap)
    requires h == Heap(64, [Block(0, true), Block(48, false)], 48, 48, 48)
    ensures PlugHoles(Cut(h, 0, 0), 1) == Heap(64, [Block(0, true), Block(8, false)], 8, 8, 48)
  {
    var m := Cut(h, 0, 0);
    assert m.blocks == [Block(0, true), Block(8, false), Block(48, false)];
    assert PlugNext(m, 1).blocks == [Block(0, true), Block(8, false)];
  }

  // ---------------------------------------------------------------- the lowest free block

  lemma PlugNextLowest(h: Heap, k: nat)
    requires Tiled(h.blocks, h.End()) && LowestFree(h) && k < |h.blocks| && !h.blocks[k].used
    ensures LowestFree(PlugNext(h, k)) && PlugNext(h, k).blocks[k] == h.blocks[k]
  {
    var m := PlugNext(h, k);
    assert m.blocks[k] == h.blocks[k];
    forall i | 0 <= i < |m.blocks| && m.blocks[i].start < m.lfree ensures m.blocks[i].used {
      assert m.lfree == h.lfree <= h.blocks[k].start;
      assert i <= k;
      assert m.blocks[i] == h.blocks[i];
    }
  }

  lemma PlugPrevLowest(h: Heap, k: nat)
    requires Tiled(h.blocks, h.End()) && LowestFree(h) && k < |h.blocks| && !h.blocks[k].used
    ensures LowestFree(PlugPrev(h, k))
  {
    if k > 0 && !h.blocks[k - 1].used {
      var p := PlugPrev(h, k);
      forall i | 0 <= i < |p.blocks| && p.blocks[i].start < p.lfree ensures p.blocks[i].used {
        assert p.lfree == h.lfree <= h.blocks[k - 1].start;
        assert i <= k - 1;
        assert p.blocks[i] == h.blocks[i];
      }
    }
  }

  lemma PlugHolesLowest(h: Heap, k: nat)
    requires InvBut(h, k, true, true) && LowestFree(h) && !h.blocks[k].used
    ensures LowestFree(PlugHoles(h, k))
  {
    PlugNextLowest(h, k);
    PlugNextKeeps(h, k);
    PlugPrevLowest(PlugNext(h, k), k);
  }

  lemma ReleaseLowest(h: Heap, k: nat)
    requires LowestFree(h) && k < |h.blocks| && h.blocks[k].used
    ensures LowestFree(Release(h, k))
  {
  }

  lemma FreeLowest(h: Heap, at: nat)
    requires Inv(h) && Live(h, at) && LowestFree(h)
    ensures LowestFree(Free(h, at))
  {
    hide Tiled, OnWords, LastHasRoom, UsedSpans, FreeAt, NoFreeNeighbours, ApartBut, PlugHoles;
    var k := LiveIndex(h, at);
    ReleaseKeeps(h, k);
    ReleaseLowest(h, k);
    PlugHolesLowest(Release(h, k), k);
  }

  lemma MallocLowest(h: Heap, n: word)
    requires Inv(h) && Returns(h, n) && LowestFree(h)
    ensures LowestFree(Malloc(h, n).0)
  {
    hide Tiled, OnWords, LastHasRoom, UsedSpans, FreeAt, NoFreeNeighbours, FirstFit, IndexOf, Taken, NextFree, LowestFree;
    if Malloc(h, n).1.Some? {
      var k := MallocFinds(h, n);
      TakeLowest(h, k, Need(n));
    }
  }

  lemma TakeLowest(h: Heap, k: nat, size: nat)
    requires Tiled(h.blocks, h.End()) && LowestFree(h) && Fits(h, k, size) && h.lfree <= h.blocks[k].start
    ensures LowestFree(Take(h, k, size))
  {
    hide IndexOf, FirstFit, UsedSpans, OnWords, NoFreeNeighbours, LastHasRoom;
    var h' := Take(h, k, size);
    TakeTiled(h, k, size);
    if h.lfree == h.blocks[k].start {
      NextFreeAbove(h'.blocks, h.End(), k);
    }
    assert forall i | 0 <= i < k :: h'.blocks[i] == h.blocks[i];
  }

  /** What the split of lua_realloc leaves behind. */
  lemma ShrinkShape(h: Heap, k: nat, size: nat)
    requires Tiled(h.blocks, h.End()) && LfreeIsFree(h) && k < |h.blocks| && h.blocks[k].used
    requires size + HDR + MIN_SIZE < h.Payload(k)
    ensures var p, rest := PlugHoles(Cut(h, k, size), k + 1), h.blocks[k].start + HDR + size;
            && |p.blocks| > k + 1 && p.blocks[k + 1] == Block(rest, false)
            && (forall i | 0 <= i <= k :: p.blocks[i] == h.blocks[i])
            && (forall i | k + 1 < i < |p.blocks| :: rest < p.blocks[i].start)
            && p.lfree == if h.lfree == h.Stop(k) < h.End() then rest else h.lfree
  {
    hide Splice;
    var b, stop := h.blocks, h.Stop(k);
    var m, rest := Cut(h, k, size), Block(b[k].start + HDR + size, false);
    CutBlocks(h, k, size);
    LfreeBehind(h, k);
    var p := PlugNext(m, k + 1);
    PlugBlocks(m, k + 1);
    assert p.blocks[k] == b[k] && p.blocks[k + 1] == rest;
    assert PlugHoles(m, k + 1) == p;
    forall i | k + 1 < i < |p.blocks| ensures rest.start < p.blocks[i].start {
      assert p.blocks[i] in b[k + 1..];
    }
  }

  lemma CutBlocks(h: Heap, k: nat, size: nat)
    requires k < |h.blocks|
    ensures var m, rest := Cut(h, k, size), Block(h.blocks[k].start + HDR + size, false);
            && |m.blocks| == |h.blocks| + 1 && m.blocks[k + 1] == rest
            && (forall i | 0 <= i <= k :: m.blocks[i] == h.blocks[i])
            && m.blocks[k + 2..] == h.blocks[k + 1..]
  {
    var m := Cut(h, k, size);
    forall i | k + 2 <= i < |m.blocks| ensures m.blocks[i] == h.blocks[i - 1] {
    }
  }

  lemma PlugBlocks(h: Heap, k: nat)
    requires k < |h.blocks|
    ensures var p, gone := PlugNext(h, k), k + 1 < |h.blocks| && !h.blocks[k + 1].used;
            && |p.blocks| == (if gone then |h.blocks| - 1 else |h.blocks|)
            && (forall i | 0 <= i <= k :: p.blocks[i] == h.blocks[i])
            && p.blocks[k + 1..] == h.blocks[if gone then k + 2 else k + 1..]
  {
    var p, gone := PlugNext(h, k), k + 1 < |h.blocks| && !h.blocks[k + 1].used;
    forall i | k + 1 <= i < |p.blocks| ensures p.blocks[i] == h.blocks[if gone then i + 1 else i] {
    }
  }

  lemma LfreeBehind(h: Heap, k: nat)
    requires Tiled(h.blocks, h.End()) && LfreeIsFree(h) && k < |h.blocks|
    ensures h.lfree == h.Stop(k) < h.End() ==> k + 1 < |h.blocks| && !h.blocks[k + 1].used
    ensures k + 1 < |h.blocks| ==> h.Stop(k) < h.End()
  {
    if h.lfree == h.Stop(k) < h.End() {
      var f :| 0 <= f < |h.blocks| && h.blocks[f].start == h.lfree && !h.blocks[f].used;
      assert f == k + 1;
    }
  }

  /** The split of lua_realloc never lowers lfree: it stays the lowest free block exactly when
      it lay below the block cut, or was the block right behind it and merged with the cut. */
  lemma ShrinkLowest(h: Heap, at: nat, n: word)
    requires Inv(h) && Live(h, at) && LowestFree(h) && Shrinks(h, at, n)
    ensures LowestFree(Realloc(h, at, n).0) <==> h.lfree < at || h.lfree == StopOf(h, at) < h.End()
  {
    hide Realloc, PlugHoles, Cut, Tiled, UsedSpans, NoFreeNeighbours, OnWords, LastHasRoom, FreeAt, Live, Shrinks;
    var k := ShrinkIs(h, at, n);
    ShrinkShape(h, k, Align(n));
    LfreeOutside(h, k);
  }

  /** lfree never points into a used block. */
  lemma LfreeOutside(h: Heap, k: nat)
    requires Tiled(h.blocks, h.End()) && LfreeIsFree(h) && k < |h.blocks| && h.blocks[k].used
    ensures h.lfree < h.blocks[k].start || h.Stop(k) <= h.lfree
    ensures forall i | 0 <= i < k :: h.blocks[i].start < h.blocks[k].start
    ensures h.blocks[k].start < h.Stop(k) <= h.End()
  {
    if h.lfree != h.End() {
      var f :| 0 <= f < |h.blocks| && h.blocks[f].start == h.lfree && !h.blocks[f].used;
      assert f != k;
    }
  }

  /** Memory below lfree is hidden: a shrink leaves 24 free bytes at offset 16 that no request of
      24 bytes gets, although such a block exists, until a free next to it lowers lfree. */
  lemma ShrunkMemoryHidden()
    ensures var h := Heap(72, [Block(0, true), Block(48, true), Block(64, false)], 64, 64, 64);
            var h' := Realloc(h, 0, 8).0;
            && h'.blocks == [Block(0, true), Block(16, false), Block(48, true), Block(64, false)]
            && Fits(h', 1, Need(24)) && Malloc(h', 24).1 == None
            && Malloc(Free(h', 48), 24).1 == Some(16)
  {
    hide Free, FirstFit, Take, Splice, PlugHoles, Cut;
    var h := Heap(72, [Block(0, true), Block(48, true), Block(64, false)], 64, 64, 64);
    assert IndexOf(h.blocks, 0) == 0 && h.Payload(0) == 40;
    CutsToEight(h);
    var h' := Realloc(h, 0, 8).0;
    HiddenRefused(h');
    HiddenUntilFreed(h');
  }

  lemma CutsToEight(h: Heap)
    requires h.size == 72 && h.blocks == [Block(0, true), Block(48, true), Block(64, false)] && h.lfree == 64
    ensures PlugHoles(Cut(h, 0, 8), 1).blocks == [Block(0, true), Block(16, false), Block(48, true), Block(64, false)]
    ensures PlugHoles(Cut(h, 0, 8), 1).lfree == 64 && PlugHoles(Cut(h, 0, 8), 1).size == 72
  {
    assert Cut(h, 0, 8).blocks == [Block(0, true), Block(16, false), Block(48, true), Block(64, false)];
  }

  lemma HiddenRefused(h: Heap)
    requires h == Heap(72, [Block(0, true), Block(16, false), Block(48, true), Block(64, false)], 64, h.usedMem, h.maxMem)
    ensures Fits(h, 1, Need(24)) && Malloc(h, 24).1 == None
  {
    var b := h.blocks;
    assert b[1..] == [Block(16, false), Block(48, true), Block(64, false)];
    assert b[1..][1..] == [Block(48, true), Block(64, false)];
    assert b[1..][1..][1..] == [Block(64, false)];
    assert IndexOf(b, 64) == 3;
  }

  lemma HiddenUntilFreed(h: Heap)
    requires h == Heap(72, [Block(0, true), Block(16, false), Block(48, true), Block(64, false)], 64, h.usedMem, h.maxMem)
    ensures Malloc(Free(h, 48), 24).1 == Some(16)
  {
    var b := h.blocks;
    assert b[1..] == [Block(16, false), Block(48, true), Block(64, false)];
    assert b[1..][1..] == [Block(48, true), Block(64, false)];
    assert IndexOf(b, 48) == 2;
    var f := Free(h, 48);
    assert PlugNext(Release(h, 2), 2).blocks == [Block(0, true), Block(16, false), Block(48, false)];
    assert f.blocks == [Block(0, true), Block(16, false)] && f.lfree == 16;
    OneFreeOf(f);
  }

  lemma OneFreeOf(f: Heap)
    requires f.size == 72 && f.blocks == [Block(0, true), Block(16, false)] && f.lfree == 16
    ensures Malloc(f, 24).1 == Some(16)
  {
    assert f.blocks[1..] == [Block(16, false)];
    assert IndexOf(f.blocks, 16) == 1;
  }

  // ---------------------------------------------------------------- the walk of lua_malloc

  /** Offset reached by the walk of lua_malloc: heap_end is its own successor. */
  function WalkOffset(h: Heap, steps: nat): nat {
    if steps == 0 then h.lfree
    else
      var k := IndexOf(h.blocks, WalkOffset(h, steps - 1));
      if k < |h.blocks| then h.Stop(k) else h.End()
  }

  /** The bound of the walk, a subtraction of 32-bit sizes. */
  function Bound(h: Heap, size: nat): nat {
    (h.size - size) % WORD
  }

  /** The walk stops after `steps` steps: at its bound, or at a block that fits. */
  ghost predicate StopsAt(h: Heap, size: nat, steps: nat) {
    var at := WalkOffset(h, steps);
    at >= Bound(h, size) || exists k: nat :: Fits(h, k, size) && h.blocks[k].start == at
  }

  /** The call answers before its walk, or the walk stops. */
  ghost predicate Ends(h: Heap, n: word) {
    n == 0 || Align(n) > h.size || exists steps: nat :: StopsAt(h, Need(n), steps)
  }

  /** Offset of block k, or of heap_end behind the last block. */
  function OffsetOf(h: Heap, k: nat): nat {
    if k < |h.blocks| then h.blocks[k].start else h.End()
  }

  lemma OffsetIndex(h: Heap, k: nat)
    requires Tiled(h.blocks, h.End())
    ensures IndexOf(h.blocks, OffsetOf(h, k)) == if k < |h.blocks| then k else |h.blocks|
  {
    if k < |h.blocks| {
      IndexIs(h.blocks, h.End(), k);
    }
  }

  lemma LfreeOffset(h: Heap)
    requires Tiled(h.blocks, h.End()) && LfreeIsFree(h)
    ensures h.lfree == OffsetOf(h, IndexOf(h.blocks, h.lfree))
  {
    var k := LfreeIndex(h);
  }

  lemma {:induction false} WalkAt(h: Heap, steps: nat)
    requires Tiled(h.blocks, h.End()) && LfreeIsFree(h)
    ensures WalkOffset(h, steps) == OffsetOf(h, IndexOf(h.blocks, h.lfree) + steps)
  {
    hide Tiled, IndexOf, FreeAt;
    if steps == 0 {
      LfreeOffset(h);
    } else {
      WalkAt(h, steps - 1);
      OffsetIndex(h, IndexOf(h.blocks, h.lfree) + steps - 1);
    }
  }

  lemma StopBelowEnd(h: Heap, k: nat)
    requires Tiled(h.blocks, h.End()) && k < |h.blocks|
    ensures h.Stop(k) <= h.End()
  {
  }

  lemma OffsetBelowEnd(h: Heap, k: nat)
    requires Tiled(h.blocks, h.End())
    ensures OffsetOf(h, k) <= h.End()
  {
  }

  /** On a heap of less than eight bytes a request of at least a byte that passes the test of the
      heap size has a bound that wraps, and no block fits. */
  lemma TinyNeverStops(h: Heap, n: word, steps: nat)
    requires Inv(h) && !Returns(h, n)
    ensures !StopsAt(h, Need(n), steps)
  {
    hide IndexOf, UsedSpans, WalkOffset;
    WalkAt(h, steps);
    assert h.size - Need(n) + WORD == Bound(h, Need(n));
    forall k: nat ensures !Fits(h, k, Need(n)) {
      if k < |h.blocks| { StopBelowEnd(h, k); }
    }
    OffsetBelowEnd(h, IndexOf(h.blocks, h.lfree) + steps);
  }

  /** lua_malloc comes back exactly if it answers before the walk or the size it looks for is at
      most the heap's: for every heap whose offsets fit the links and every request. */
  lemma WalkEnds(h: Heap, n: word)
    requires Inv(h)
    ensures Ends(h, n) <==> Returns(h, n)
  {
    if !Returns(h, n) {
      forall steps: nat ensures !StopsAt(h, Need(n), steps) {
        TinyNeverStops(h, n, steps);
      }
    } else if n != 0 && Align(n) <= h.size {
      WalkAt(h, |h.blocks|);
      assert StopsAt(h, Need(n), |h.blocks|);
    }
  }

  /** Where the walk first stops, malloc takes the block, or refuses at the bound. */
  lemma WalkFinds(h: Heap, n: word, steps: nat)
    requires Inv(h) && Returns(h, n) && n != 0 && Align(n) <= h.size
    requires StopsAt(h, Need(n), steps) && forall t: nat | t < steps :: !StopsAt(h, Need(n), t)
    ensures Malloc(h, n).1 == if WalkOffset(h, steps) < Bound(h, Need(n)) then Some(WalkOffset(h, steps)) else None
  {
    hide Tiled, OnWords, LastHasRoom, UsedSpans, FreeAt, NoFreeNeighbours, IndexOf, WalkOffset, Take;
    var size, j := Need(n), IndexOf(h.blocks, h.lfree) + steps;
    BoundNoWrap(h, n);
    WalkSkips(h, size, steps);
    WalkAt(h, steps);
    if OffsetOf(h, j) < Bound(h, size) {
      var k: nat :| Fits(h, k, size) && h.blocks[k].start == OffsetOf(h, j);
      SameBlock(h, j, k);
    }
  }

  lemma BoundNoWrap(h: Heap, n: word)
    requires InLinks(h) && Need(n) <= h.size
    ensures Bound(h, Need(n)) == h.size - Need(n)
  {
  }

  lemma SameBlock(h: Heap, j: nat, k: nat)
    requires Tiled(h.blocks, h.End()) && k < |h.blocks| && h.blocks[k].start == OffsetOf(h, j)
    ensures j == k
  {
    OffsetIndex(h, j);
    OffsetIndex(h, k);
  }

  lemma NotStopped(h: Heap, size: nat, steps: nat, j: nat)
    requires !StopsAt(h, size, steps) && WalkOffset(h, steps) == OffsetOf(h, j) && size <= h.size && Bound(h, size) == h.size - size
    ensures j < |h.blocks| && h.blocks[j].start < h.size - size && !Fits(h, j, size)
  {
  }

  /** Steps that do not stop skip blocks the first-fit search skips. */
  lemma {:induction false} WalkSkips(h: Heap, size: nat, steps: nat)
    requires Tiled(h.blocks, h.End()) && LfreeIsFree(h) && size <= h.size && Bound(h, size) == h.size - size
    requires forall t: nat | t < steps :: !StopsAt(h, size, t)
    ensures var i := IndexOf(h.blocks, h.lfree);
            i + steps <= |h.blocks| && FirstFit(h, size, i) == FirstFit(h, size, i + steps)
  {
    hide Tiled, FreeAt, IndexOf, WalkOffset, StopsAt;
    if steps > 0 {
      WalkSkips(h, size, steps - 1);
      WalkAt(h, steps - 1);
      NotStopped(h, size, steps - 1, IndexOf(h.blocks, h.lfree) + steps - 1);
    }
  }

  // ---------------------------------------------------------------- whole runs

  /** A call on the heap; blocks are named by their start, payload pointer minus HDR. */
  datatype Call = CallMalloc(n: word) | CallFree(at: nat) | CallRealloc(at: nat, n: word)

  /** A call that comes back, on a block the caller owns. */
  ghost predicate Legal(h: Heap, c: Call) {
    match c
    case CallMalloc(n) => Returns(h, n)
    case CallFree(at) => Live(h, at)
    case CallRealloc(at, n) => Live(h, at) && ReallocReturns(h, at, n)
  }

  ghost function After(h: Heap, c: Call): Heap
    requires Legal(h, c)
  {
    match c
    case CallMalloc(n) => Malloc(h, n).0
    case CallFree(at) => Free(h, at)
    case CallRealloc(at, n) => Realloc(h, at, n).0
  }

  /** `run` is a sequence of heaps, each reached from the one before by the matching legal call. */
  ghost predicate Run(run: seq<Heap>, calls: seq<Call>) {
    && |run| == |calls| + 1
    && forall i | 0 <= i < |calls| :: Legal(run[i], calls[i]) && run[i + 1] == After(run[i], calls[i])
  }

  /** Initialisation keeps the counters of the heap before it, so it is sound exactly when
      nothing was in use and heap_end fits a link; LuaHeapInit says what it writes when it does not. */
  lemma InitKeeps(size: nat, usedMem: int, maxMem: int)
    requires size % 4 == 0 && usedMem <= maxMem
    ensures Inv(Init(size, usedMem, maxMem)) <==> usedMem == 0 && size + HDR < LINK
    ensures LowestFree(Init(size, usedMem, maxMem))
  {
    var h := Init(size, usedMem, maxMem);
    UsedSpansOne(h.blocks[0], h.End());
    assert h.blocks[0].start == h.lfree;
  }

  /** Every run from the first initialisation keeps the chain, the counters and lfree sound. */
  lemma {:induction false} RunKeeps(run: seq<Heap>, calls: seq<Call>, size: nat)
    requires size % 4 == 0 && size + HDR < LINK && Run(run, calls) && run[0] == Init(size, 0, 0)
    ensures Inv(run[|calls|]) && run[|calls|].size == size
    decreases |calls|
  {
    if |calls| == 0 {
      InitKeeps(size, 0, 0);
    } else {
      var n := |calls| - 1;
      RunKeeps(run[..n + 1], calls[..n], size);
      CallKeeps(run[n], calls[n]);
    }
  }

  lemma CallKeeps(h: Heap, c: Call)
    requires Inv(h) && Legal(h, c)
    ensures Inv(After(h, c)) && After(h, c).size == h.size
  {
    match c
    case CallMalloc(n) => MallocKeeps(h, n);
    case CallFree(at) => FreeKeeps(h, at);
    case CallRealloc(at, n) => ReallocKeeps(h, at, n);
  }

  /** A shrinking lua_realloc meets the condition of ShrinkLowest; any other call does. */
  ghost predicate KeepsLowest(h: Heap, c: Call) {
    c.CallRealloc? && Shrinks(h, c.at, c.n) ==> h.lfree < c.at || h.lfree == StopOf(h, c.at) < h.End()
  }

  /** lfree is the lowest free block all through a run exactly if every shrinking lua_realloc of
      the run cuts a block above lfree or right below it. */
  lemma RunLowest(run: seq<Heap>, calls: seq<Call>, size: nat)
    requires size % 4 == 0 && size + HDR < LINK && Run(run, calls) && run[0] == Init(size, 0, 0)
    ensures (forall i | 0 <= i <= |calls| :: LowestFree(run[i])) <==> (forall i | 0 <= i < |calls| :: KeepsLowest(run[i], calls[i]))
  {
    forall i | 0 <= i < |calls| && LowestFree(run[i])
      ensures LowestFree(run[i + 1]) <==> KeepsLowest(run[i], calls[i])
    {
      RunKeeps(run[..i + 1], calls[..i], size);
      CallLowest(run[i], calls[i]);
    }
    if forall i | 0 <= i < |calls| :: KeepsLowest(run[i], calls[i]) {
      InitKeeps(size, 0, 0);
      LowestUpTo(run, calls, |calls|);
    } else {
      var i :| 0 <= i < |calls| && !KeepsLowest(run[i], calls[i]);
      assert LowestFree(run[i]) ==> !LowestFree(run[i + 1]);
    }
  }

  lemma {:induction false} LowestUpTo(run: seq<Heap>, calls: seq<Call>, n: nat)
    requires |run| == |calls| + 1 && n <= |calls| && LowestFree(run[0])
    requires forall i | 0 <= i < |calls| && LowestFree(run[i]) :: LowestFree(run[i + 1])
    ensures forall i | 0 <= i <= n :: LowestFree(run[i])
  {
    if n > 0 {
      LowestUpTo(run, calls, n - 1);
      assert LowestFree(run[n - 1]);
    }
  }

  lemma CallLowest(h: Heap, c: Call)
    requires Inv(h) && Legal(h, c) && LowestFree(h)
    ensures LowestFree(After(h, c)) <==> KeepsLowest(h, c)
  {
    match c
    case CallMalloc(n) => MallocLowest(h, n);
    case CallFree(at) => FreeLowest(h, at);
    case CallRealloc(at, n) =>
      if Shrinks(h, at, n) {
        ShrinkLowest(h, at, n);
      } else {
        MoveLowest(h, at, n);
      }
  }

  /** A lua_realloc that cuts nothing off keeps lfree the lowest free block. */
  lemma MoveLowest(h: Heap, at: nat, n: word)
    requires Inv(h) && Live(h, at) && LowestFree(h) && ReallocReturns(h, at, n) && !Shrinks(h, at, n)
    ensures LowestFree(Realloc(h, at, n).0)
  {
    hide Tiled, OnWords, NoFreeNeighbours, UsedSpans, Owned, Free, Malloc, FreeAt, LastHasRoom, LowestFree, StopOf, Live;
    var k := LiveIndex(h, at);
    var size := Align(n);
    if size <= h.size && h.Payload(k) != size && Malloc(h, size).1.Some? {
      MallocLowest(h, size);
      MallocKeeps(h, size);
      MoveKeeps(h, at, size);
      FreeLowest(Malloc(h, size).0, at);
    } else if size <= h.size && h.Payload(k) != size {
      MallocKeeps(h, size);
    }
  }

  /** lua_malloc alone never brings lfree down. */
  lemma MallocRaises(h: Heap, n: word)
    requires Inv(h) && Returns(h, n)
    ensures h.lfree <= Malloc(h, n).0.lfree
    ensures Malloc(h, n).1.Some? ==> h.lfree <= Malloc(h, n).1.value
  {
    if Malloc(h, n).1.Some? {
      var k := MallocFinds(h, n);
      if h.blocks[k].start == h.lfree {
        TakeTiled(h, k, Need(n));
        NextFreeAbove(Take(h, k, Need(n)).blocks, h.End(), k);
        NextFreeAbove(Take(h, k, Need(n)).blocks, h.End(), k + 1);
      }
    }
  }

  /** Memory below lfree is out of reach of lua_malloc: a run of it alone never grants any,
      however long it is. */
  lemma {:induction false} MallocsStayAbove(run: seq<Heap>, calls: seq<Call>)
    requires Run(run, calls) && Inv(run[0]) && forall c | c in calls :: c.CallMalloc?
    ensures Inv(run[|calls|]) && run[0].lfree <= run[|calls|].lfree
    ensures forall i | 0 <= i < |calls| :: calls[i].CallMalloc? && Returns(run[i], calls[i].n)
    ensures forall i | 0 <= i < |calls| && Malloc(run[i], calls[i].n).1.Some? ::
              run[0].lfree <= Malloc(run[i], calls[i].n).1.value
    decreases |calls|
  {
    hide Inv, Malloc, Returns;
    if |calls| > 0 {
      var n := |calls| - 1;
      RunStep(run, calls);
      assert calls[n] in calls;
      MallocsStayAbove(run[..n + 1], calls[..n]);
      MallocKeeps(run[n], calls[n].n);
      MallocRaises(run[n], calls[n].n);
    }
  }

  lemma RunStep(run: seq<Heap>, calls: seq<Call>)
    requires Run(run, calls) && calls != []
    ensures var n := |calls| - 1;
            Run(run[..n + 1], calls[..n]) && Legal(run[n], calls[n]) && run[n + 1] == After(run[n], calls[n])
  {
  }

  /** Blocks in callers' hands never overlap. */
  lemma OwnedApart(h: Heap, a: (nat, nat), b: (nat, nat))
    requires Inv(h) && a in Owned(h) && b in Owned(h) && a != b
    ensures a.1 <= b.0 || b.1 <= a.0
    ensures a.0 + HDR <= a.1 <= h.End()
  {
    var i :| 0 <= i < |h.blocks| && h.blocks[i].used && a == (h.blocks[i].start, h.Stop(i));
    var j :| 0 <= j < |h.blocks| && h.blocks[j].used && b == (h.blocks[j].start, h.Stop(j));
    if i < j {
      assert i + 1 < j ==> h.blocks[i + 1].start + HDR <= h.blocks[j].start;
    } else {
      assert j + 1 < i ==> h.blocks[j + 1].start + HDR <= h.blocks[i].start;
    }
  }
}
