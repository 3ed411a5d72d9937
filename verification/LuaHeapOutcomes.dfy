/** When lua_malloc and lua_realloc succeed, how long the block is that they give, and the high-water mark. */
module LuaHeapOutcomes {
  import opened Common
  import opened LuaHeapModel
  import opened LuaHeapLaws
  import opened LuaHeapTheorems

  /** Bytes that the block at `at` offers. */
  ghost function Room(h: Heap, at: nat): int {
    StopOf(h, at) - (at + HDR)
  }

  // ---------------------------------------------------------------- lua_malloc

  lemma TakeRoom(h: Heap, k: nat, size: nat)
    requires Inv(h) && Fits(h, k, size)
    ensures var at, hole := h.blocks[k].start, h.Payload(k);
            && Room(h, at) == hole
            && Room(Take(h, k, size), at) == if hole >= size + HDR + MIN_SIZE then size else hole
  {
    hide Splice, NextFree;
    var h', at := Take(h, k, size), h.blocks[k].start;
    TakeTiled(h, k, size);
    TakenStarts(h, k, size);
    IndexIs(h.blocks, h.End(), k);
    IndexIs(h'.blocks, h.End(), k);
  }

  /** The block granted is what was looked for, or the whole hole when the rest could hold no block:
      never sixteen bytes longer than what was looked for. */
  lemma GrantSize(h: Heap, n: word)
    requires Inv(h) && Returns(h, n) && Malloc(h, n).1.Some?
    ensures var (h', r) := Malloc(h, n);
            && FreeAt(h.blocks, r.value)
            && Room(h', r.value) == (if Room(h, r.value) >= Need(n) + HDR + MIN_SIZE then Need(n) else Room(h, r.value))
            && Need(n) <= Room(h', r.value) < Need(n) + HDR + MIN_SIZE
  {
    hide Take, Inv, FirstFit, IndexOf, Room;
    var k := MallocFinds(h, n);
    TakeRoom(h, k, Need(n));
  }

  // ---------------------------------------------------------------- lua_realloc

  /** Without any condition on lfree: lua_realloc of an owned block is refused above the heap's size,
      keeps a block that is exactly right, cuts one that is more than sixteen bytes too long, and in
      every other case does as well as lua_malloc of the aligned size. */
  lemma ReallocOutcome(h: Heap, at: nat, n: word)
    requires Inv(h) && Live(h, at)
    ensures ReallocReturns(h, at, n)
    ensures Align(n) > h.size ==> Realloc(h, at, n) == (h, None)
    ensures Align(n) <= h.size && Room(h, at) == Align(n) ==> Realloc(h, at, n) == (h, Some(at))
    ensures Align(n) <= h.size && Align(n) + HDR + MIN_SIZE < Room(h, at) ==>
              var (h', r) := Realloc(h, at, n);
              r == Some(at) && Room(h', at) == Align(n)
    ensures Align(n) <= h.size && Room(h, at) != Align(n) && Align(n) + HDR + MIN_SIZE >= Room(h, at) ==>
              && Returns(h, Align(n))
              && var (m, r) := Malloc(h, Align(n));
                 Realloc(h, at, n) == (if r.Some? then Free(m, at) else h, r)
  {
    hide Tiled, OnWords, NoFreeNeighbours, UsedSpans, Owned, Free, Malloc, FreeAt, LastHasRoom, PlugHoles, Cut, Live;
    var k := LiveIndex(h, at);
    ReallocKeeps(h, at, n);
    assert Room(h, at) == h.Payload(k);
    if Shrinks(h, at, n) {
      ShrinkKeeps(h, at, n);
      OwnedStop(Realloc(h, at, n).0, at, at + HDR + Align(n));
    } else if Align(n) <= h.size && Room(h, at) != Align(n) {
      MallocKeeps(h, Align(n));
    }
  }

  /** With lfree the lowest free block: null comes back exactly above the heap's size, or when the
      block is neither right nor sixteen bytes too long and either the request is for nothing or
      every other block that fits begins at the bound that the walk does not reach. */
  lemma ReallocFails(h: Heap, at: nat, n: word)
    requires Inv(h) && Live(h, at) && LowestFree(h)
    ensures ReallocReturns(h, at, n)
    ensures var size := Align(n);
            Realloc(h, at, n).1.None? <==>
              || size > h.size
              || (&& Room(h, at) != size && size + HDR + MIN_SIZE >= Room(h, at)
                  && (size == 0 || forall j | 0 <= j < |h.blocks| :: Fits(h, j, Need(size)) ==> h.blocks[j].start == h.size - Need(size)))
  {
    hide Inv, Live, LowestFree, Malloc, Realloc, Free, Fits, Room;
    ReallocOutcome(h, at, n);
    var size := Align(n);
    AlignTwice(n);
    if size <= h.size && Room(h, at) != size && size + HDR + MIN_SIZE >= Room(h, at) {
      if size == 0 {
        MallocOfNothing(h);
      } else {
        MallocTakesLowestFit(h, size);
      }
    }
  }

  lemma AlignTwice(n: word)
    ensures Align(Align(n)) == Align(n)
  {
  }

  lemma MallocOfNothing(h: Heap)
    requires Returns(h, 0)
    ensures Malloc(h, 0) == (h, None)
  {
  }

  /** A request for less can fail: the block is sixteen bytes longer than asked, so it is not cut,
      and there is no other. */
  lemma SmallerRefused()
    ensures var h := Heap(40, [Block(0, true), Block(32, true)], 48, 48, 48);
            && Inv(h) && LowestFree(h) && Live(h, 0) && Room(h, 0) == 24
            && ReallocReturns(h, 0, 8) && Realloc(h, 0, 8) == (h, None)
  {
    var h := Heap(40, [Block(0, true), Block(32, true)], 48, 48, 48);
    FullHeap(h);
    assert h.blocks[0] == Block(0, true) && IndexOf(h.blocks, 0) == 0;
    assert Live(h, 0);
    hide Inv, Realloc, Fits, UsedSpans, LowestFree, Live;
    ReallocFails(h, 0, 8);
    NoneFits(h);
    ReallocKeeps(h, 0, 8);
  }

  lemma FullHeap(h: Heap)
    requires h == Heap(40, [Block(0, true), Block(32, true)], 48, 48, 48)
    ensures Inv(h) && LowestFree(h)
  {
    assert h.blocks[0] == Block(0, true) && h.blocks[1] == Block(32, true);
    assert h.blocks[1..] == [Block(32, true)];
    UsedSpansOne(Block(32, true), h.End());
  }

  lemma NoneFits(h: Heap)
    requires h.blocks == [Block(0, true), Block(32, true)]
    ensures forall j: nat, size: nat :: !Fits(h, j, size)
  {
  }

  // ---------------------------------------------------------------- the high-water mark

  function Max(a: int, b: int): int {
    if a < b then b else a
  }

  /** Bytes in use at the most during a call: a move holds both blocks for a while. */
  ghost function Peak(h: Heap, c: Call): int
    requires Legal(h, c)
  {
    match c
    case CallMalloc(n) => Malloc(h, n).0.usedMem
    case CallFree(_) => h.usedMem
    case CallRealloc(at, n) =>
      if Align(n) <= h.size && Room(h, at) != Align(n) && !Shrinks(h, at, n) && Returns(h, Align(n))
      then Malloc(h, Align(n)).0.usedMem
      else h.usedMem
  }

  lemma MallocPeak(h: Heap, n: word)
    requires Inv(h) && Returns(h, n)
    ensures Malloc(h, n).0.maxMem == Max(h.maxMem, Malloc(h, n).0.usedMem)
    ensures Malloc(h, n).0.usedMem >= h.usedMem
  {
    if Malloc(h, n).1.Some? {
      var k := MallocFinds(h, n);
    }
  }

  lemma FreePeak(h: Heap, at: nat)
    ensures Free(h, at).maxMem == h.maxMem
  {
    hide IndexOf, Splice;
  }

  /** A call raises the mark exactly to what was in use at its peak. */
  lemma CallPeak(h: Heap, c: Call)
    requires Inv(h) && Legal(h, c)
    ensures After(h, c).maxMem == Max(h.maxMem, Peak(h, c))
  {
    hide Malloc, Free, Tiled, OnWords, NoFreeNeighbours, LastHasRoom, UsedSpans, FreeAt, Room, PlugHoles, Cut, IndexOf, Live;
    match c
    case CallMalloc(n) => MallocPeak(h, n);
    case CallFree(at) => FreePeak(h, at);
    case CallRealloc(at, n) => ReallocPeak(h, at, n);
  }

  lemma ReallocPeak(h: Heap, at: nat, n: word)
    requires Inv(h) && Live(h, at) && ReallocReturns(h, at, n)
    ensures Realloc(h, at, n).0.maxMem == Max(h.maxMem, Peak(h, CallRealloc(at, n)))
  {
    hide Malloc, Free, Inv, PlugHoles, Cut, Live;
    ReallocOutcome(h, at, n);
    if Shrinks(h, at, n) {
      ShrinkPeak(h, at, n);
    } else if Align(n) <= h.size && Room(h, at) != Align(n) {
      RoomShrinks(h, at, n);
      MallocPeak(h, Align(n));
      MallocKeeps(h, Align(n));
      FreePeak(Malloc(h, Align(n)).0, at);
    }
    InvCounts(h);
    RoomShrinks(h, at, n);
  }

  lemma InvCounts(h: Heap)
    requires Inv(h)
    ensures h.usedMem <= h.maxMem
  {
  }

  lemma RoomShrinks(h: Heap, at: nat, n: word)
    requires Inv(h) && Live(h, at)
    ensures Shrinks(h, at, n) <==> Align(n) <= h.size && Align(n) + HDR + MIN_SIZE < Room(h, at)
  {
    hide Tiled;
    var k := LiveIndex(h, at);
  }

  lemma ShrinkPeak(h: Heap, at: nat, n: word)
    requires Inv(h) && Live(h, at) && Shrinks(h, at, n)
    ensures ReallocReturns(h, at, n) && Realloc(h, at, n).0.maxMem == h.maxMem
  {
    hide Splice, Tiled, OnWords, UsedSpans;
    var k := ShrinkIs(h, at, n);
  }

  /** The most bytes in use in a run, during its calls as well as between them. */
  ghost function RunPeak(run: seq<Heap>, calls: seq<Call>): int
    requires Run(run, calls)
  {
    if calls == [] then run[0].usedMem
    else
      var n := |calls| - 1;
      Max(RunPeak(run[..n + 1], calls[..n]), Peak(run[n], calls[n]))
  }

  /** The mark after a run is the most that was in use. */
  lemma {:induction false} RunHighWater(run: seq<Heap>, calls: seq<Call>, size: nat)
    requires size % 4 == 0 && size + HDR < LINK && Run(run, calls) && run[0] == Init(size, 0, 0)
    ensures run[|calls|].maxMem == RunPeak(run, calls)
    decreases |calls|
  {
    hide Inv, Peak;
    if |calls| > 0 {
      var n := |calls| - 1;
      RunHighWater(run[..n + 1], calls[..n], size);
      RunKeeps(run[..n + 1], calls[..n], size);
      CallPeak(run[n], calls[n]);
    }
  }
}
