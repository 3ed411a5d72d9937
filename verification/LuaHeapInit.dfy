/**
 The walk of lua_malloc over the links in memory, and what lua_system_heap_init leaves for it:
 links have 24 bits, sizes have 32, and initialisation accepts every size.
 */
module LuaHeapInit {
  import opened Common
  import opened LuaHeapModel
  import opened LuaHeapLaws
  import opened LuaHeapTheorems
  import opened LuaHeapBytes

  // ---------------------------------------------------------------- the walk in memory

  /** Offset reached after `steps` links from `from`. */
  function WalkLinks(s: seq<byte>, from: nat, steps: nat): nat {
    if steps == 0 then from
    else
      var at := WalkLinks(s, from, steps - 1);
      if at + HDR <= |s| then LinkAt(s, at + 1) else at
  }

  /** The walk for `want` bytes is over at offset `at`: at its bound, or at a free header with room;
      both differences are of 32-bit numbers. */
  predicate Over(s: seq<byte>, size: nat, want: nat, at: nat) {
    || at >= (size - want) % WORD
    || (at + HDR <= |s| && s[at + 4] == 0 && (LinkAt(s, at + 1) - (at + HDR)) % WORD >= want)
  }

  /** lua_malloc(n) on this memory comes back. */
  ghost predicate ComesBack(s: seq<byte>, size: nat, lfree: nat, n: word) {
    n == 0 || Align(n) > size || exists steps: nat :: Over(s, size, Need(n), WalkLinks(s, lfree, steps))
  }

  /** On a sound chain the walk in memory is that of the model. */
  lemma {:induction false} WalkIsModel(s: seq<byte>, h: Heap, steps: nat)
    requires Chained(s, h.blocks, h.End()) && Inv(h)
    ensures WalkLinks(s, h.lfree, steps) == OffsetOf(h, IndexOf(h.blocks, h.lfree) + steps)
  {
    hide Tiled, HeaderOf, LinkAt, Chained, IndexOf, Inv;
    Pieces(h);
    if steps == 0 {
      LfreeOffset(h);
    } else {
      WalkIsModel(s, h, steps - 1);
      NextLink(s, h, IndexOf(h.blocks, h.lfree) + steps - 1);
    }
  }

  lemma Pieces(h: Heap)
    requires Inv(h)
    ensures Tiled(h.blocks, h.End()) && LfreeIsFree(h) && h.End() < LINK
  {
  }

  lemma NextLink(s: seq<byte>, h: Heap, k: nat)
    requires Chained(s, h.blocks, h.End())
    ensures OffsetOf(h, k) + HDR <= |s| && LinkAt(s, OffsetOf(h, k) + 1) == OffsetOf(h, k + 1)
    ensures s[OffsetOf(h, k) + 4] == 0 <==> k < |h.blocks| && !h.blocks[k].used
    ensures k < |h.blocks| ==> OffsetOf(h, k + 1) == h.Stop(k)
  {
    hide LinkAt;
    if k < |h.blocks| {
      ReadHeader(s, h.blocks, k, h.End());
    }
  }

  lemma OverIsStop(s: seq<byte>, h: Heap, want: nat, steps: nat)
    requires Chained(s, h.blocks, h.End()) && Inv(h)
    ensures Over(s, h.size, want, WalkLinks(s, h.lfree, steps)) <==> StopsAt(h, want, steps)
  {
    hide Tiled, HeaderOf, LinkAt, Chained, IndexOf, Inv, WalkLinks, WalkOffset;
    var k := IndexOf(h.blocks, h.lfree) + steps;
    WalkIsModel(s, h, steps);
    Pieces(h);
    WalkAt(h, steps);
    NextLink(s, h, k);
    if k < |h.blocks| {
      StopFits(h, k);
      assert Fits(h, k, want) <==> s[OffsetOf(h, k) + 4] == 0 && (h.Stop(k) - (OffsetOf(h, k) + HDR)) % WORD >= want;
    }
    FitsOnlyHere(h, k, want);
  }

  lemma StopFits(h: Heap, k: nat)
    requires Tiled(h.blocks, h.End()) && h.End() < LINK && k < |h.blocks|
    ensures 0 <= h.Payload(k) == h.Payload(k) % WORD
  {
  }

  lemma FitsOnlyHere(h: Heap, k: nat, want: nat)
    requires Tiled(h.blocks, h.End())
    ensures (exists j: nat :: Fits(h, j, want) && h.blocks[j].start == OffsetOf(h, k)) <==> Fits(h, k, want)
  {
    forall j: nat | Fits(h, j, want) && h.blocks[j].start == OffsetOf(h, k) ensures j == k {
      SameBlock(h, k, j);
    }
  }

  /** On a sound chain lua_malloc comes back for exactly the calls the model answers. */
  lemma SoundComesBack(s: seq<byte>, h: Heap, n: word)
    requires Chained(s, h.blocks, h.End()) && Inv(h)
    ensures ComesBack(s, h.size, h.lfree, n) <==> Returns(h, n)
  {
    hide Chained, Inv, StopsAt, Over, WalkLinks;
    forall steps: nat ensures Over(s, h.size, Need(n), WalkLinks(s, h.lfree, steps)) <==> StopsAt(h, Need(n), steps) {
      OverIsStop(s, h, Need(n), steps);
    }
    WalkEnds(h, n);
  }

  // ---------------------------------------------------------------- after initialisation

  /** The headers in memory are those of some blocks up to heap_end at `end`. */
  ghost predicate Linked(s: seq<byte>, end: nat) {
    exists b: seq<Block> :: Chained(s, b, end)
  }

  /** Initialisation makes a sound heap of one free block exactly if heap_end fits a link and nothing
      was in use; if it does not fit, the memory is no chain of blocks at all. */
  lemma InitSound(s: seq<byte>, size: nat, usedMem: int, maxMem: int)
    requires InitMem(s, size) && size % 4 == 0 && usedMem <= maxMem
    ensures Chained(s, [Block(0, false)], size + HDR) && Inv(Init(size, usedMem, maxMem)) <==> size + HDR < LINK && usedMem == 0
    ensures Linked(s, size + HDR) <==> size + HDR < LINK
  {
    InitKeeps(size, usedMem, maxMem);
    if size + HDR < LINK {
      InitChained(s, size);
    }
  }

  /** From block 0 the walk goes to where heap_end was written, and stays. */
  lemma {:induction false} InitWalk(s: seq<byte>, size: nat, steps: nat)
    requires InitMem(s, size)
    ensures WalkLinks(s, 0, steps) == if steps == 0 then 0 else (size + HDR) % LINK
  {
    hide LinkAt;
    if steps > 0 {
      InitWalk(s, size, steps - 1);
    }
  }

  /** The first lua_malloc comes back: block 0 as its link bounds it has room, or heap_end lies
      at the bound of the walk or behind it. */
  predicate FirstReturns(size: nat, n: word) {
    var link := (size + HDR) % LINK;
    || n == 0 || Align(n) > size
    || (Need(n) <= size && (Need(n) + HDR <= link || size - Need(n) <= link))
  }

  /** For every size that initialisation accepts and every request: exactly these calls come back. */
  lemma FirstComesBack(s: seq<byte>, size: nat, n: word)
    requires InitMem(s, size) && size % 4 == 0 && size + 2 * HDR < WORD
    ensures ComesBack(s, size, 0, n) <==> FirstReturns(size, n)
  {
    hide InitMem, WalkLinks, Over;
    var link := (size + HDR) % LINK;
    InitWalk(s, size, 0);
    InitWalk(s, size, 1);
    if n != 0 && Align(n) <= size {
      FirstOver(s, size, n);
      assert Over(s, size, Need(n), WalkLinks(s, 0, 0)) || Over(s, size, Need(n), WalkLinks(s, 0, 1)) <==> FirstReturns(size, n);
      forall steps: nat ensures Over(s, size, Need(n), WalkLinks(s, 0, steps)) ==> FirstReturns(size, n) {
        InitWalk(s, size, steps);
      }
    }
  }

  lemma FirstOver(s: seq<byte>, size: nat, n: word)
    requires InitMem(s, size) && size % 4 == 0 && size + 2 * HDR < WORD && n != 0 && Align(n) <= size
    ensures Over(s, size, Need(n), 0) || Over(s, size, Need(n), (size + HDR) % LINK) <==> FirstReturns(size, n)
  {
    hide LinkAt;
  }

  /** The smallest heap whose end does not fit a link: its end marker is written over block 0, and
      the first request for eight bytes walks from there to there for ever. */
  lemma EndOverStart(s: seq<byte>, steps: nat)
    requires InitMem(s, LINK - HDR)
    ensures WalkLinks(s, 0, steps) == 0 && !Over(s, LINK - HDR, Need(8), 0)
    ensures !ComesBack(s, LINK - HDR, 0, 8)
  {
    InitWalk(s, LINK - HDR, steps);
    FirstComesBack(s, LINK - HDR, 8);
    assert !FirstReturns(LINK - HDR, 8);
    FirstOver(s, LINK - HDR, 8);
  }
}
