/**
 The kmalloc heap as a chain of blocks, without the bytes.

 A block is a 16-byte header at `at` followed by `size` payload bytes. The chain
 starts right after the 8-byte page record at the heap base, and the heap may use
 memory up to its limit, which moves in whole pages.
 */
module HeapChain {
  import opened Machine

  /** sizeof(t_mem_infos) and sizeof(t_page_infos) on the 32-bit target. */
  const HEADER: int := 16
  const PAGE_INFOS: int := 8

  /** Address of the first header. */
  const START: int := HEAP_BASE + PAGE_INFOS

  datatype Block = Block(at: int, size: int, free: bool) {
    function Begin(): int { at + HEADER }
    function End(): int { at + HEADER + size }
  }

  datatype Chain = Chain(blocks: seq<Block>, pages: int)

  /** The chain that get_first_value sets up: no block, one page. */
  const FRESH: Chain := Chain([], 1)

  function Top(bs: seq<Block>): int {
    if bs == [] then START else bs[|bs| - 1].End()
  }

  function Limit(c: Chain): int { START + c.pages * 0x1000 }

  // ---------------------------------------------------------------- invariant

  /** Headers and payloads cover START..Top without gap or overlap. */
  ghost predicate Tiled(bs: seq<Block>) {
    && (bs != [] ==> bs[0].at == START)
    && (forall k | 0 <= k < |bs| - 1 :: bs[k].End() == bs[k + 1].at)
    && (forall k | 0 <= k < |bs| :: bs[k].size >= 1)
  }

  ghost predicate Coalesced(bs: seq<Block>) {
    forall k | 0 <= k < |bs| - 1 :: !(bs[k].free && bs[k + 1].free)
  }

  /** Headers tile the heap, no two free blocks touch, and the unused tail is at most a page. */
  ghost predicate Sound(c: Chain) {
    && c.pages >= 0 && Tiled(c.blocks) && Coalesced(c.blocks)
    && Top(c.blocks) <= Limit(c) <= Top(c.blocks) + 0x1000
  }

  /** Between operations, moreover, a free last block leaves no whole page to give back. */
  ghost predicate Inv(c: Chain) {
    && Sound(c)
    && (c.blocks != [] && c.blocks[|c.blocks| - 1].free ==> Limit(c) < c.blocks[|c.blocks| - 1].at + 0x1000)
  }

  /** An empty chain keeps no page. True of every chain once a kmalloc has succeeded. */
  ghost predicate Settled(c: Chain) { c.blocks == [] ==> c.pages == 0 }

  ghost function LiveBlocks(bs: seq<Block>): set<Block> {
    set b | b in bs && !b.free
  }

  // --------------------------------------------------------------- operations

  predicate Fits(b: Block, size: int) { b.free && b.size >= size }

  /** `i` is the smallest free block of at least `size` bytes, the lowest one among ties. */
  ghost predicate IsBestFit(bs: seq<Block>, size: int, i: int) {
    && 0 <= i < |bs| && Fits(bs[i], size)
    && (forall j | 0 <= j < |bs| && Fits(bs[j], size) :: bs[i].size <= bs[j].size)
    && (forall j | 0 <= j < i && Fits(bs[j], size) :: bs[i].size < bs[j].size)
  }

  /** Index of the best fit, or -1. */
  function BestFit(bs: seq<Block>, size: int): (r: int)
    ensures r == -1 ==> forall j | 0 <= j < |bs| :: !Fits(bs[j], size)
    ensures r != -1 ==> IsBestFit(bs, size, r)
  {
    if bs == [] then -1
    else
      var n := |bs| - 1;
      var r := BestFit(bs[..n], size);
      if Fits(bs[n], size) && (r == -1 || bs[n].size < bs[r].size) then n else r
  }

  /** Index of the block whose payload begins at `ptr`, or -1. */
  function Find(bs: seq<Block>, ptr: int): (r: int)
    ensures r == -1 ==> forall j | 0 <= j < |bs| :: bs[j].Begin() != ptr
    ensures r != -1 ==> 0 <= r < |bs| && bs[r].Begin() == ptr
  {
    if bs == [] then -1
    else if bs[|bs| - 1].Begin() == ptr then |bs| - 1
    else Find(bs[..|bs| - 1], ptr)
  }

  /** The chain with bs[lo..hi] replaced by `mid`. */
  function Splice(bs: seq<Block>, lo: int, mid: seq<Block>, hi: int): seq<Block>
    requires 0 <= lo <= hi <= |bs|
  {
    bs[..lo] + mid + bs[hi..]
  }

  /** What free block `b` becomes when `size` bytes of it are allocated; the rest is a block if it can hold a byte. */
  function Pieces(b: Block, size: int): seq<Block> {
    var rest := b.size - size - HEADER;
    if rest >= 1 then [Block(b.at, size, false), Block(b.at + HEADER + size, rest, true)]
    else [b.(free := false)]
  }

  /** Allocate `size` bytes in free block `i`. */
  function Take(bs: seq<Block>, i: int, size: int): seq<Block>
    requires 0 <= i < |bs|
  {
    Splice(bs, i, Pieces(bs[i], size), i + 1)
  }

  function Append(bs: seq<Block>, size: int): seq<Block> {
    bs + [Block(Top(bs), size, false)]
  }

  /** Pages by which the limit must move before `size` bytes can be appended. */
  function PagesNeeded(c: Chain, size: int): int {
    var end := Top(c.blocks) + HEADER + size;
    if end > Limit(c) then (end - Limit(c)) / 0x1000 + 1 else 0
  }

  /** First and one-past-last index of the blocks that freeing `i` joins. */
  function MergeLow(bs: seq<Block>, i: int): int
    requires 0 <= i < |bs|
  {
    if i > 0 && bs[i - 1].free then i - 1 else i
  }

  function MergeHigh(bs: seq<Block>, i: int): int
    requires 0 <= i < |bs|
  {
    if i + 1 < |bs| && bs[i + 1].free then i + 2 else i + 1
  }

  /** One free block over everything that freeing `i` joins. */
  function Merged(bs: seq<Block>, i: int): Block
    requires 0 <= i < |bs|
  {
    var at := bs[MergeLow(bs, i)].at;
    Block(at, bs[MergeHigh(bs, i) - 1].End() - at - HEADER, true)
  }

  function Coalesce(bs: seq<Block>, i: int): seq<Block>
    requires 0 <= i < |bs|
  {
    Splice(bs, MergeLow(bs, i), [Merged(bs, i)], MergeHigh(bs, i))
  }

  /** Give back the whole pages above a free last block, and the block with them. */
  function ReleaseTail(c: Chain): Chain {
    if c.blocks == [] then c
    else
      var n := |c.blocks| - 1;
      var pages := (Limit(c) - c.blocks[n].at) / 0x1000;
      if c.blocks[n].free && pages > 0 then Chain(c.blocks[..n], c.pages - pages) else c
  }

  /** kmalloc: the new chain and the pointer, 0 for NULL. `granted` tells whether the break may move. */
  function Kmalloc(c: Chain, size: int, granted: bool): (Chain, int) {
    if size == 0 then (c, 0)
    else
      var i := BestFit(c.blocks, size);
      if i != -1 then (c.(blocks := Take(c.blocks, i, size)), c.blocks[i].Begin())
      else if PagesNeeded(c, size) > 0 && !granted then (c, 0)
      else
        (Chain(Append(c.blocks, size), c.pages + PagesNeeded(c, size)), Top(c.blocks) + HEADER)
  }

  function Free(c: Chain, ptr: int): Chain {
    var i := Find(c.blocks, ptr);
    if i == -1 then c
    else ReleaseTail(c.(blocks := Coalesce(c.blocks, i)))
  }

  /**
   realloc of NULL or of a pointer that names a block: it is free for size 0, and otherwise
   keeps the block if it is large enough or asks for another one.
   */
  function Realloc(c: Chain, ptr: int, size: int, granted: bool): (Chain, int) {
    var i := Find(c.blocks, ptr);
    if ptr != 0 && size == 0 then (Free(c, ptr), 0)
    else if ptr != 0 && i != -1 && c.blocks[i].size >= size then (c, ptr)
    else Kmalloc(c, size, granted)
  }

  // ------------------------------------------------------------ basic geometry

  lemma {:induction false} Ordered(bs: seq<Block>, i: int, j: int)
    requires Tiled(bs) && 0 <= i <= j < |bs|
    ensures START <= bs[i].at <= bs[j].at
    ensures i < j ==> bs[i].End() <= bs[j].at
    ensures bs[j].End() <= Top(bs)
    decreases j, |bs| - j
  {
    if j + 1 < |bs| {
      BelowTop(bs, j);
    }
    if i < j {
      Ordered(bs[..j], i, j - 1);
    } else if 0 < i {
      Ordered(bs[..i], i - 1, i - 1);
    }
  }

  lemma {:induction false} BelowTop(bs: seq<Block>, j: int)
    requires Tiled(bs) && 0 <= j < |bs|
    ensures bs[j].End() <= Top(bs)
    decreases |bs| - j
  {
    if j + 1 < |bs| {
      BelowTop(bs, j + 1);
    }
  }

  /** Two blocks of the chain never overlap, header and payload together. */
  lemma DisjointBlocks(bs: seq<Block>, b: Block, d: Block)
    requires Tiled(bs) && b in bs && d in bs && b != d
    ensures b.End() <= d.at || d.End() <= b.at
  {
    var i :| 0 <= i < |bs| && bs[i] == b;
    var j :| 0 <= j < |bs| && bs[j] == d;
    if i < j { Ordered(bs, i, j); } else { Ordered(bs, j, i); }
  }

  /** A pointer names at most one block. */
  lemma FindUnique(bs: seq<Block>, i: int)
    requires Tiled(bs) && 0 <= i < |bs|
    ensures Find(bs, bs[i].Begin()) == i
  {
    var r := Find(bs, bs[i].Begin());
    if r < i { Ordered(bs, r, i); } else { Ordered(bs, i, r); }
  }
}
