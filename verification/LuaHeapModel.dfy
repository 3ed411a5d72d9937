/**
 The Lua heap of board/lua/lua_mem.c on values: the chain of blocks, the lowest-free
 pointer and the usage counters.  Every operation of the allocator is a function on
 this state; class LuaHeap carries the same operations out on the bytes of the heap.
 */
module LuaHeapModel {
  import opened Common

  const HDR: nat := 8        // SIZEOF_STRUCT_MEM
  const MIN_SIZE: nat := 8   // MIN_SIZE and MIN_SIZE_ALIGNED
  const LINK: nat := 0x100_0000   // links are 24 bits wide

  /** A block begins with its header at offset `start` and runs to the next block. */
  datatype Block = Block(start: nat, used: bool)

  /** `size` is mem_size_aligned; heap_end lies at offset size + HDR. */
  datatype Heap = Heap(size: nat, blocks: seq<Block>, lfree: nat, usedMem: int, maxMem: int) {
    function End(): nat {
      size + HDR
    }

    function Stop(k: nat): nat
      requires k < |blocks|
    {
      if k + 1 < |blocks| then blocks[k + 1].start else End()
    }

    /** Bytes a block offers to its owner. */
    function Payload(k: nat): int
      requires k < |blocks|
    {
      Stop(k) - (blocks[k].start + HDR)
    }
  }

  // ---------------------------------------------------------------- invariants

  /** The blocks tile the heap from offset 0 to heap_end, each with room for its header. */
  ghost predicate Tiled(blocks: seq<Block>, end: nat) {
    && |blocks| > 0
    && blocks[0].start == 0
    && (forall i | 0 <= i < |blocks| :: blocks[i].start + HDR <= end)
    && (forall i, j | 0 <= i < j < |blocks| :: blocks[i].start + HDR <= blocks[j].start)
  }

  /** Every block, and heap_end, lies on a four-byte boundary. */
  ghost predicate OnWords(blocks: seq<Block>, end: nat) {
    end % 4 == 0 && forall i | 0 <= i < |blocks| :: blocks[i].start % 4 == 0
  }

  ghost predicate NoFreeNeighbours(blocks: seq<Block>) {
    forall i | 0 < i < |blocks| :: blocks[i - 1].used || blocks[i].used
  }

  /** A used block at the end of the heap has a payload, so its pointer lies below heap_end. */
  ghost predicate LastHasRoom(blocks: seq<Block>, end: nat) {
    |blocks| > 0 && (blocks[|blocks| - 1].used ==> blocks[|blocks| - 1].start + HDR < end)
  }

  function UsedSpans(blocks: seq<Block>, end: nat): int {
    if |blocks| == 0 then 0
    else
      (if blocks[0].used then (if |blocks| > 1 then blocks[1].start else end) - blocks[0].start else 0)
      + UsedSpans(blocks[1..], end)
  }

  ghost predicate FreeAt(blocks: seq<Block>, at: nat) {
    exists k :: 0 <= k < |blocks| && blocks[k].start == at && !blocks[k].used
  }

  /** Every offset up to heap_end fits a link. */
  predicate InLinks(h: Heap) {
    h.End() < LINK
  }

  ghost predicate Inv(h: Heap) {
    && InLinks(h)
    && Tiled(h.blocks, h.End())
    && OnWords(h.blocks, h.End())
    && NoFreeNeighbours(h.blocks)
    && LastHasRoom(h.blocks, h.End())
    && h.usedMem == UsedSpans(h.blocks, h.End())
    && h.usedMem <= h.maxMem
    && (h.lfree == h.End() || FreeAt(h.blocks, h.lfree))
  }

  /** `lfree` is the lowest free block, or heap_end when every block is used. */
  ghost predicate LowestFree(h: Heap) {
    forall i | 0 <= i < |h.blocks| && h.blocks[i].start < h.lfree :: h.blocks[i].used
  }

  /** `at` is the start of a used block, so at + HDR is a pointer a caller owns. */
  ghost predicate Live(h: Heap, at: nat) {
    exists k :: 0 <= k < |h.blocks| && h.blocks[k].start == at && h.blocks[k].used
  }

  // ---------------------------------------------------------------- operations

  /** RT_ALIGN(n, 4) on 32-bit sizes: the addition wraps. */
  function Align(n: word): (r: word)
    ensures r % 4 == 0
    ensures n <= WORD - 4 ==> n <= r < n + 4
    ensures n > WORD - 4 ==> r == 0
  {
    (n + 3) % WORD / 4 * 4
  }

  /** The bytes lua_malloc looks for when asked for n. */
  function Need(n: word): word {
    if Align(n) < MIN_SIZE then MIN_SIZE else Align(n)
  }

  /** lua_malloc(n) comes back: it answers before its walk, or the bound of the walk does not wrap.
      WalkEnds shows that the walk goes on for ever in every other case. */
  predicate Returns(h: Heap, n: word) {
    n == 0 || Align(n) > h.size || Need(n) <= h.size
  }

  /** Index of the block starting at `at`, or |blocks|. */
  function IndexOf(blocks: seq<Block>, at: nat): (k: nat)
    ensures k <= |blocks|
    ensures k < |blocks| ==> blocks[k].start == at
    ensures forall i | 0 <= i < k :: blocks[i].start != at
  {
    if |blocks| == 0 then 0
    else if blocks[0].start == at then 0
    else
      var k := IndexOf(blocks[1..], at);
      assert forall i | 1 <= i < 1 + k :: blocks[i] == blocks[1..][i - 1];
      1 + k
  }

  /** `s` with the m elements from index k replaced by `mid`. */
  function Splice<T>(s: seq<T>, k: nat, m: nat, mid: seq<T>): (r: seq<T>)
    requires k + m <= |s|
    ensures |r| == |s| - m + |mid|
    ensures forall i | 0 <= i < |r| ::
              r[i] == if i < k then s[i] else if i < k + |mid| then mid[i - k] else s[i + m - |mid|]
  {
    s[..k] + mid + s[k + m..]
  }

  /** Start of the first free block at or after index k, or `end`. */
  function NextFree(blocks: seq<Block>, end: nat, k: nat): (at: nat)
    requires k <= |blocks|
    ensures at == end || FreeAt(blocks, at)
    decreases |blocks| - k
  {
    if k == |blocks| then end
    else if !blocks[k].used then blocks[k].start
    else NextFree(blocks, end, k + 1)
  }

  /** The first-fit walk of lua_malloc from index k; the bound of the walk is strict. */
  function FirstFit(h: Heap, size: nat, k: nat): (r: Option<nat>)
    requires k <= |h.blocks| && size <= h.size
    ensures r.Some? ==> k <= r.value < |h.blocks|
    decreases |h.blocks| - k
  {
    if k == |h.blocks| || h.blocks[k].start >= h.size - size then None
    else if !h.blocks[k].used && h.Payload(k) >= size then Some(k)
    else FirstFit(h, size, k + 1)
  }

  /** The blocks once block k is taken for `size` bytes: split when the rest can hold a block. */
  function Taken(h: Heap, k: nat, size: nat): seq<Block>
    requires k < |h.blocks|
  {
    var taken := Block(h.blocks[k].start, true);
    if h.Payload(k) >= size + HDR + MIN_SIZE then
      Splice(h.blocks, k, 1, [taken, Block(taken.start + HDR + size, false)])
    else
      Splice(h.blocks, k, 1, [taken])
  }

  /** lua_malloc once block k is found. */
  function Take(h: Heap, k: nat, size: nat): Heap
    requires k < |h.blocks|
  {
    var at := h.blocks[k].start;
    var blocks := Taken(h, k, size);
    var split := h.Payload(k) >= size + HDR + MIN_SIZE;
    var usedMem := h.usedMem + (if split then size + HDR else h.Stop(k) - at);
    h.(blocks := blocks,
       usedMem := usedMem,
       maxMem := if h.maxMem < usedMem then usedMem else h.maxMem,
       lfree := if at == h.lfree then NextFree(blocks, h.End(), k) else h.lfree)
  }

  /** lua_malloc: the new heap and the start of the block taken. */
  function Malloc(h: Heap, n: word): (Heap, Option<nat>)
    requires Returns(h, n)
  {
    if n == 0 || Align(n) > h.size then (h, None)
    else
      match FirstFit(h, Need(n), IndexOf(h.blocks, h.lfree))
      case None => (h, None)
      case Some(k) => (Take(h, k, Need(n)), Some(h.blocks[k].start))
  }

  /** Merges free block k with its successor (first half of plug_holes). */
  function PlugNext(h: Heap, k: nat): Heap
    requires k < |h.blocks|
  {
    if k + 1 < |h.blocks| && !h.blocks[k + 1].used then
      h.(blocks := Splice(h.blocks, k, 2, [h.blocks[k]]),
         lfree := if h.lfree == h.blocks[k + 1].start then h.blocks[k].start else h.lfree)
    else h
  }

  /** Merges free block k into its predecessor (second half of plug_holes). */
  function PlugPrev(h: Heap, k: nat): Heap
    requires k < |h.blocks|
  {
    if k > 0 && !h.blocks[k - 1].used then
      h.(blocks := Splice(h.blocks, k - 1, 2, [h.blocks[k - 1]]),
         lfree := if h.lfree == h.blocks[k].start then h.blocks[k - 1].start else h.lfree)
    else h
  }

  /** plug_holes on free block k. */
  function PlugHoles(h: Heap, k: nat): Heap
    requires k < |h.blocks|
  {
    PlugPrev(PlugNext(h, k), k)
  }

  /** lua_free before plug_holes: block k is marked free. */
  function Release(h: Heap, k: nat): Heap
    requires k < |h.blocks|
  {
    var at := h.blocks[k].start;
    h.(blocks := Splice(h.blocks, k, 1, [Block(at, false)]),
       lfree := if at < h.lfree then at else h.lfree,
       usedMem := h.usedMem - (h.Stop(k) - at))
  }

  /** lua_free of the pointer to the block at `at`. */
  function Free(h: Heap, at: nat): Heap {
    var k := IndexOf(h.blocks, at);
    if k == |h.blocks| then h else PlugHoles(Release(h, k), k)
  }

  /** The in-place split of lua_realloc before plug_holes. */
  function Cut(h: Heap, k: nat, size: nat): Heap
    requires k < |h.blocks|
  {
    h.(blocks := Splice(h.blocks, k, 1, [h.blocks[k], Block(h.blocks[k].start + HDR + size, false)]),
       usedMem := h.usedMem - (h.Payload(k) - size))
  }

  /** lua_realloc comes back: where it calls lua_malloc, that does.  LiveRealloc shows that this is
      so for every block a caller owns. */
  predicate ReallocReturns(h: Heap, at: nat, n: word) {
    var size := Align(n);
    var k := IndexOf(h.blocks, at);
    size > h.size || k == |h.blocks| || h.Payload(k) == size || size + HDR + MIN_SIZE < h.Payload(k) || Returns(h, size)
  }

  /** lua_realloc of the pointer to the block at `at`: the new heap and block start. */
  function Realloc(h: Heap, at: nat, n: word): (Heap, Option<nat>)
    requires ReallocReturns(h, at, n)
  {
    var size := Align(n);
    var k := IndexOf(h.blocks, at);
    if size > h.size || k == |h.blocks| then (h, None)
    else if h.Payload(k) == size then (h, Some(at))
    else if size + HDR + MIN_SIZE < h.Payload(k) then (PlugHoles(Cut(h, k, size), k + 1), Some(at))
    else
      var (h', r) := Malloc(h, size);
      (if r.Some? then Free(h', at) else h', r)
  }

  /** lua_system_heap_init; the usage counters keep what they held. */
  function Init(size: nat, usedMem: int, maxMem: int): Heap {
    Heap(size, [Block(0, false)], 0, usedMem, maxMem)
  }
}
