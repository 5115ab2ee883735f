/** kmalloc, free and realloc on bytes, proved against the chain of blocks. */
module Heaps {
  import opened Machine
  import opened HeapChain
  import opened HeapInvariant
  import opened HeapMemory
  import opened HeapArithmetic
  import opened HeapExact
  import opened Frames
  import opened KernelData
  import opened Storage
  import opened HeapSteps

  const NULL: int := 0

  class Heap {
    const kds: Kds
    /** The static pointer of get_first_value. */
    var first: int
    /** The heap, were every address storage of its own. */
    var mem: Bytes
    /** Physical memory, which every store of the heap reaches through the page tables. */
    var ram: Ram
    ghost var chain: Chain
    /** Heap offset below which `ram` is to agree with `mem`, and whether all words read so far agreed. */
    ghost const window: int
    ghost var agreed: bool

    ghost function Repr(): set<object> { {this} + kds.Repr() }

    ghost predicate Running()
      reads Repr()
    {
      this !in kds.Repr() && kds.Valid() && kds.size == |mem|
    }

    ghost predicate Valid()
      reads Repr()
    {
      && Running()
      && if first == 0 then mem == [] && chain == FRESH
         else first == HEAP_BASE && Stored(mem, chain) && Inv(chain) && |kds.owner| >= 2
    }

    ghost function Back(): Backing
      reads this`ram, kds`owner, kds.frames.table
    {
      Backing(kds.frames.table[..], kds.owner, ram)
    }

    /** All words read so far were those in physical memory, and below the window it holds the heap. */
    ghost predicate Physical()
      reads this`mem, this`ram, this`agreed, kds`owner, kds.space.dir, kds.space.low, kds.frames.table
    {
      agreed && Coherent(kds.Memory(), Back(), mem, window)
    }

    /** No frame record has been given its address, as boot leaves them. */
    ghost predicate AsBooted()
      reads kds.frames.table
    {
      Unaddressed(kds.frames.table[..])
    }

    /** Every record holds its frame's address, and every heap page, now and after any growth, lies above `end`. */
    ghost predicate Apart(end: int)
      reads kds`owner, kds.frames.table
    {
      Addressed(kds.frames.table[..]) && Clear(kds.frames.table[..], kds.owner, end)
    }

    /** Once get_first_value has run, or if it can: the heap is there whenever it is needed. */
    ghost predicate Ready()
      reads this, kds, kds.frames.table
    {
      first != 0 || CanGrow(2)
    }

    /** The end of the window. */
    ghost function Edge(): int { HEAP_BASE + window }

    constructor (kds: Kds, ram: Ram, ghost window: int)
      requires kds.Valid() && kds.size == 0
      ensures Valid() && this.kds == kds && first == 0 && this.window == window && this.ram == ram
      ensures Separable(kds.frames.table[..], window) ==> Physical()
    {
      this.kds, this.ram, this.window := kds, ram, window;
      first, mem, chain, agreed := 0, [], FRESH, true;
      new;
      if Separable(kds.frames.table[..], window) {
        CoherentEmpty(kds.Memory(), Back(), window);
      }
    }

    // ------------------------------------------------------------------ words

    method GetWord(a: int) returns (v: int)
      requires Running() && In(mem, a, 4)
      modifies this`agreed
      ensures v == Load(mem, a)
      ensures old(Physical()) && a + 4 <= Edge() ==> Physical()
    {
      hide HeapMapped, Coherent, Load, LoadVia;
      BelowKernel();
      v := Load(mem, a);
      if Physical() && a + 4 <= Edge() {
        LoadCoherent(kds.Memory(), Back(), mem, window, a);
      }
      agreed := agreed && v == LoadVia(kds.space.dir[..], kds.space.low[..], ram, a);
    }

    method SetWord(a: int, v: Word)
      requires Running() && In(mem, a, 4)
      modifies this`mem, this`ram
      ensures |mem| == |old(mem)| && Load(mem, a) == v && SameOutside(old(mem), mem, a, a + 4)
      ensures old(Physical()) && a + 4 <= Edge() ==> Physical()
    {
      hide HeapMapped, Coherent, Load, Store, StoreVia;
      BelowKernel();
      LoadStore(mem, a, v);
      if Physical() && a + 4 <= Edge() {
        StoreCoherent(kds.Memory(), Back(), mem, window, a, v);
      }
      ram := StoreVia(kds.space.dir[..], kds.space.low[..], ram, a, v);
      mem := Store(mem, a, v);
    }

    method GetByte(a: int) returns (v: Byte)
      requires Running() && In(mem, a, 1)
      modifies this`agreed
      ensures v == mem[a - HEAP_BASE]
      ensures old(Physical()) && a + 1 <= Edge() ==> Physical()
    {
      hide HeapMapped, Coherent, LoadByte;
      BelowKernel();
      v := mem[a - HEAP_BASE];
      if Physical() && a + 1 <= Edge() {
        LoadByteCoherent(kds.Memory(), Back(), mem, window, a);
      }
      agreed := agreed && v == LoadByte(kds.space.dir[..], kds.space.low[..], ram, a);
    }

    method SetByte(a: int, v: Byte)
      requires Running() && In(mem, a, 1)
      modifies this`mem, this`ram
      ensures mem == old(mem)[a - HEAP_BASE := v]
      ensures old(Physical()) && a + 1 <= Edge() ==> Physical()
    {
      hide HeapMapped, Coherent, StoreByte;
      BelowKernel();
      if Physical() && a + 1 <= Edge() {
        StoreByteCoherent(kds.Memory(), Back(), mem, window, a, v);
      }
      ram := StoreByte(kds.space.dir[..], kds.space.low[..], ram, a, v);
      mem := mem[a - HEAP_BASE := v];
    }

    lemma BelowKernel()
      requires Running()
      ensures kds.space.Shaped() && HEAP_BASE + |mem| <= SYSTEM_BASE
    {
    }

    method SetSize(h: int, v: Word)
      requires Running() && In(mem, h, HEADER)
      modifies this`mem, this`ram
      ensures |mem| == |old(mem)| && SameOutside(old(mem), mem, h, h + 4)
      ensures ReadHeader(mem, h) == ReadHeader(old(mem), h).(size := v)
      ensures old(Physical()) && h + HEADER <= Edge() ==> Physical()
    {
      hide Running, Physical;
      SetWord(h, v);
      OtherFields(old(mem), mem, h, h);
    }

    method SetIsFree(h: int, v: Word)
      requires Running() && In(mem, h, HEADER)
      modifies this`mem, this`ram
      ensures |mem| == |old(mem)| && SameOutside(old(mem), mem, h, h + HEADER)
      ensures ReadHeader(mem, h) == ReadHeader(old(mem), h).(isFree := v)
      ensures old(Physical()) && h + HEADER <= Edge() ==> Physical()
    {
      hide Running, Physical;
      SetWord(h + 4, v);
      OtherFields(old(mem), mem, h, h + 4);
    }

    method SetBegin(h: int, v: Word)
      requires Running() && In(mem, h, HEADER)
      modifies this`mem, this`ram
      ensures |mem| == |old(mem)| && SameOutside(old(mem), mem, h, h + HEADER)
      ensures ReadHeader(mem, h) == ReadHeader(old(mem), h).(begin := v)
      ensures old(Physical()) && h + HEADER <= Edge() ==> Physical()
    {
      hide Running, Physical;
      SetWord(h + 8, v);
      OtherFields(old(mem), mem, h, h + 8);
    }

    method SetNext(h: int, v: Word)
      requires Running() && In(mem, h, HEADER)
      modifies this`mem, this`ram
      ensures |mem| == |old(mem)| && SameOutside(old(mem), mem, h, h + HEADER)
      ensures ReadHeader(mem, h) == ReadHeader(old(mem), h).(next := v)
      ensures old(Physical()) && h + HEADER <= Edge() ==> Physical()
    {
      hide Running, Physical;
      SetWord(h + 12, v);
      OtherFields(old(mem), mem, h, h + 12);
    }

    /** All four fields of a header. */
    method WriteHeader(h: int, size: int, isFree: Word)
      requires Running() && In(mem, h, HEADER) && 0 <= size && h + HEADER + size < 0x8000_0000
      modifies this`mem, this`ram
      ensures |mem| == |old(mem)| && SameOutside(old(mem), mem, h, h + HEADER)
      ensures ReadHeader(mem, h) == Header(size, isFree, h + HEADER, h + HEADER + size)
      ensures old(Physical()) && h + HEADER <= Edge() ==> Physical()
    {
      hide HeapMapped, Physical, Load;
      SetSize(h, size);
      SetIsFree(h, isFree);
      SetBegin(h, h + HEADER);
      SetNext(h, h + HEADER + size);
    }

    // ---------------------------------------------------------------- the break

    /** The segment can grow by `n` pages now. */
    ghost predicate CanGrow(n: int)
      reads kds, kds.frames.table
    {
      kds.size >= 0 && kds.Affordable(n) && PagesFor(kds.size) == |kds.owner|
    }

    /** Once set up, with two of the frames now unused, the segment could grow by `n` pages more. */
    ghost predicate CanGrowSetUp(n: int)
      reads kds.frames.table
    {
      var t := kds.frames.table[..];
      && 1 + n <= (kds.frames.mapBase + kds.frames.mapLength / 0x1000) % 0x1_0000_0000
      && HasRun(WithCounts(t, FirstRun(t, 2), 2, 2), n)
    }

    /** sbrk with a positive amount, as the heap sees it. */
    method GrowSegment(bytes: int) returns (r: int)
      requires Running() && bytes > 0
      requires PagesFor(kds.size) + PagesFor(bytes) <= HEAP_PAGES || !kds.Affordable(PagesFor(bytes))
      modifies kds.Repr()
      ensures kds.Valid() && this !in kds.Repr() && kds.size == |mem| + if r == -1 then 0 else bytes
      ensures r != -1 ==> r == EndAddress(|mem|)
      ensures r == -1 <==> !old(CanGrow(PagesFor(bytes)))
      ensures r == -1 ==> !CanGrow(PagesFor(bytes))
      ensures |kds.owner| == |old(kds.owner)| + if r == -1 then 0 else PagesFor(bytes)
      ensures r != -1 ==> forall n :: kds.Affordable(n) ==> old(kds.Affordable(n))
      ensures r != -1 ==> CountsAfter(old(kds.frames.table[..]), kds.frames.table[..],
                                      FirstRun(old(kds.frames.table[..]), PagesFor(bytes)), PagesFor(bytes))
      ensures old(Physical()) ==> Physical()
      ensures old(AsBooted()) ==> AsBooted()
      ensures forall end :: old(Apart(end)) ==> Apart(end)
      ensures bytes % 0x1000 == 0 || |old(mem)| == 0 ==> forall lo, hi :: old(kds.Exact(lo, hi)) ==> kds.Exact(lo, hi)
    {
      hide HeapMapped, OtherPagesKept, Coherent, FirstRun, Kds.Exact, Clear, UnusedRun;
      ghost var (m, s, t) := (kds.Memory(), Back(), kds.frames.table[..]);
      r := kds.Sbrk(bytes);
      if old(Physical()) {
        CoherentMoves(m, s, kds.Memory(), Back(), mem, window);
      }
      if r != -1 {
        RunsShrink(t, kds.frames.table[..], FirstRun(t, PagesFor(bytes)), PagesFor(bytes));
      }
    }

    /** sbrk with a positive amount, and the memory that it adds, whatever its frames hold. */
    method GrowBreak(bytes: int) returns (r: int)
      requires Running() && bytes > 0
      requires PagesFor(kds.size) + PagesFor(bytes) <= HEAP_PAGES || !kds.Affordable(PagesFor(bytes))
      modifies kds.Repr(), this`mem
      ensures Running()
      ensures r == -1 <==> !old(CanGrow(PagesFor(bytes)))
      ensures r == -1 ==> !CanGrow(PagesFor(bytes))
      ensures r != -1 ==> r == EndAddress(|old(mem)|) && |mem| == |old(mem)| + bytes && old(mem) <= mem
      ensures r == -1 ==> mem == old(mem)
      ensures |kds.owner| == |old(kds.owner)| + if r == -1 then 0 else PagesFor(bytes)
      ensures r != -1 ==> forall n :: kds.Affordable(n) ==> old(kds.Affordable(n))
      ensures r != -1 ==> CountsAfter(old(kds.frames.table[..]), kds.frames.table[..],
                                      FirstRun(old(kds.frames.table[..]), PagesFor(bytes)), PagesFor(bytes))
      ensures old(Physical()) ==> Physical()
      ensures old(AsBooted()) ==> AsBooted()
      ensures forall end :: old(Apart(end)) ==> Apart(end)
      ensures bytes % 0x1000 == 0 || |old(mem)| == 0 ==> forall lo, hi :: old(kds.Exact(lo, hi)) ==> kds.Exact(lo, hi)
    {
      hide HeapMapped, OtherPagesKept, Coherent, FirstRun, Kds.Exact, CountsAfter, AsBooted, Apart, CanGrow, Kds.Affordable,
        Contents;
      r := GrowSegment(bytes);
      if r != -1 {
        SegmentBelowKernel();
        if Physical() {
          CoherentExtends(kds.Memory(), Back(), mem, window, bytes);
        }
        mem := mem + Contents(kds.space.dir[..], kds.space.low[..], ram, HEAP_BASE + |mem|, bytes);
      }
    }

    lemma SegmentBelowKernel()
      requires kds.Valid()
      ensures kds.space.Shaped() && HEAP_BASE + kds.size <= SYSTEM_BASE && PagesFor(kds.size) <= |kds.owner|
    {
    }

    /** sbrk with a negative amount; the heap forgets the memory. */
    method ShrinkBreak(bytes: int)
      requires Running() && 0 < bytes <= |mem|
      modifies kds.Repr(), this`mem
      ensures Running() && mem == old(mem)[..|old(mem)| - bytes] && kds.owner == old(kds.owner)
      ensures old(Physical()) ==> Physical()
      ensures old(AsBooted()) ==> AsBooted()
      ensures forall end :: old(Apart(end)) ==> Apart(end)
    {
      hide HeapMapped, Coherent;
      ghost var (m, s) := (kds.Memory(), Back());
      var r := kds.Sbrk(-bytes);
      assert r != -1;  // giving memory back cannot fail
      if old(Physical()) {
        CoherentMoves(m, s, kds.Memory(), Back(), mem, window);
        CoherentCut(kds.Memory(), Back(), mem, window, |mem| - bytes);
      }
      mem := mem[..|mem| - bytes];
    }

    /** get_first_value; NULL if the heap cannot be set up. */
    method GetFirstValue() returns (r: int)
      requires Valid()
      modifies Repr()
      ensures Valid() && chain == old(chain) && r == first
      ensures first == if old(first) != 0 || old(CanGrow(2)) then HEAP_BASE else 0
      ensures old(first) != 0 ==>
                && mem == old(mem) && ram == old(ram) && kds.State() == old(kds.State())
                && (forall n :: CanGrow(n) == old(CanGrow(n))) && Back() == old(Back())
      ensures first == 0 ==> mem == old(mem) && !CanGrow(2)
      ensures first != 0 ==> forall n :: kds.Affordable(n) ==> old(kds.Affordable(n))
      ensures old(first) == 0 && first != 0 ==> forall n :: CanGrow(n) == old(CanGrowSetUp(n))
      ensures old(Physical()) && START <= Edge() ==> Physical()
      ensures old(AsBooted()) ==> AsBooted()
      ensures forall end :: old(Apart(end)) ==> Apart(end)
      ensures forall lo, hi :: old(kds.Exact(lo, hi)) ==> kds.Exact(lo, hi)
    {
      hide HeapMapped, Stored, Physical, Load, AsBooted, Apart, Kds.Exact;
      if first == 0 {
        assert PagesFor(PAGE_INFOS + 0x1000) == 2 && PagesFor(0) == 0;
        ghost var t := kds.frames.table[..];
        var b := GrowBreak(PAGE_INFOS + 0x1000);
        if b == -1 {
          return NULL;
        }
        first := b;
        SameRuns(t, kds.frames.table[..], FirstRun(t, 2));
        SetWord(first, 1);
        ghost var m := mem;
        SetWord(first + 4, first + PAGE_INFOS);
        LoadAgrees(m, mem, first);
        FreshStored(mem);
      }
      return first;
    }

    /** The segment, set up first if need be, will not grow by `n` pages. */
    ghost predicate Refused(n: int)
      reads this, kds, kds.frames.table
    {
      if first == 0 then !CanGrow(2) || !CanGrowSetUp(n)
      else !CanGrow(n) && (chain.pages + 1 + n <= HEAP_PAGES || !kds.Affordable(n))
    }

    /** The moved limit stays below 2^31, or the request, exact in 32 bits, is refused. */
    ghost predicate Askable(size: int)
      reads this, kds, kds.frames.table
    {
      var n := PagesNeeded(chain, size);
      || Limit(chain) + n * 0x1000 < 0x8000_0000
      || (Top(chain.blocks) + HEADER + size < 0x1_0000_0000 && n < 0x8_0000 && Refused(n))
    }

    /** The break moves up by `n` pages, and the page record counts them. */
    method AddPages(n: int) returns (ok: bool)
      requires Valid() && first != 0 && 0 < n < 0x8_0000
      requires Limit(chain) + n * 0x1000 < 0x8000_0000 || Refused(n)
      modifies kds.Repr(), this`mem, this`ram, this`agreed
      ensures Running() && |kds.owner| >= 2
      ensures ok <==> old(CanGrow(n))
      ensures if ok then Extended(old(mem), chain, mem, n) else mem == old(mem)
      ensures old(Physical()) && START <= Edge() ==> Physical()
      ensures old(AsBooted()) ==> AsBooted()
      ensures forall end :: old(Apart(end)) ==> Apart(end)
      ensures forall lo, hi :: old(kds.Exact(lo, hi)) ==> kds.Exact(lo, hi)
    {
      hide HeapMapped, Stored, Load, Physical, Inv, AsBooted, Apart, HasRun, S32, Kds.Exact;
      PageRecord(mem, chain);
      WholePages(n);
      LimitPages(chain.pages);
      SignedRange(n * 0x1000);
      var r := GrowBreak(S32(n * 0x1000));
      if r == -1 {
        return false;
      }
      LoadAgrees(old(mem), mem, first);
      var before := GetWord(first);
      SetWord(first, before + n);
      return true;
    }

    /** pagesize_add_update: room for `size` more bytes above the last block, computed in 32 bits. */
    method PagesizeAddUpdate(size: int) returns (ok: bool)
      requires Valid() && first != 0 && size >= 1 && Askable(size)
      modifies kds.Repr(), this`mem, this`ram, this`agreed
      ensures Running() && |kds.owner| >= 2
      ensures ok <==> PagesNeeded(chain, size) == 0 || old(CanGrow(PagesNeeded(chain, size)))
      ensures PagesNeeded(chain, size) == 0 ==> forall n :: CanGrow(n) == old(CanGrow(n))
      ensures if ok then Extended(old(mem), chain, mem, PagesNeeded(chain, size)) else mem == old(mem)
      ensures old(Physical()) && START <= Edge() ==> Physical()
      ensures old(AsBooted()) ==> AsBooted()
      ensures forall end :: old(Apart(end)) ==> Apart(end)
      ensures forall lo, hi :: old(kds.Exact(lo, hi)) ==> kds.Exact(lo, hi)
    {
      hide HeapMapped, Stored, Load, Physical, Inv, AsBooted, Apart, CanGrow, PagesNeeded, PagesAsked, Kds.Exact;
      PageRecord(mem, chain);
      AskedFits(chain, size);
      AskedIsNeeded(chain, size);
      var maxPos := GetWord(first + 4);
      var pages := GetWord(first);
      var nbPages := PagesAsked(maxPos, first + PAGE_INFOS + pages * 0x1000, size);
      if nbPages > 0 {
        ok := AddPages(nbPages);
        return;
      }
      return true;
    }

    // ----------------------------------------------------------------- kmalloc

    /** The split of prepare_split_value: block `b` at `h` keeps `size` bytes, the rest becomes a free block. */
    method SplitBlock(h: int, size: int, freeSize: int, ghost b: Block)
      requires Running() && START <= h && b.at == h && In(mem, h, HEADER + b.size) && HEAP_BASE + |mem| < 0x8000_0000
      requires size >= 1 && freeSize == b.size - size >= HEADER + 1 && HeaderAt(mem, b.(free := false))
      modifies this`mem, this`ram, this`agreed
      ensures SameOutside(old(mem), mem, h, b.End()) && Holds(mem, Pieces(b, size))
      ensures HeaderAt(mem, Block(h, size, false)) && HeaderAt(mem, Block(h + 16 + size, freeSize - 16, true))
      ensures old(Physical()) && b.End() <= Edge() ==> Physical()
    {
      hide Load, HeapMapped, Physical;
      var begin := GetWord(h + 8);
      var rest := begin + size;
      ghost var m := mem;
      SetBegin(rest, rest + HEADER);
      SetIsFree(rest, 1);
      SetSize(rest, freeSize - HEADER);
      SetNext(rest, rest + HEADER + (freeSize - HEADER));
      HeaderKept(m, mem, h, rest, rest + HEADER);
      m := mem;
      SetSize(h, size);
      SetNext(h, rest);
      HeaderKept(m, mem, rest, h, h + HEADER);
    }

    /** prepare_split_value on free block `i`. */
    method PrepareSplitValue(h: int, size: int, ghost i: int)
      requires Running() && Stored(mem, chain) && Inv(chain) && size >= 1
      requires 0 <= i < |chain.blocks| && h == chain.blocks[i].at && Fits(chain.blocks[i], size)
      modifies this`mem, this`ram, this`agreed
      ensures |mem| == |old(mem)| && Stored(mem, chain.(blocks := Take(chain.blocks, i, size)))
      ensures PayloadsKept(old(mem), chain.blocks, mem, 0)
      ensures In(mem, h, HEADER) && Load(mem, h + 8) == chain.blocks[i].Begin()
      ensures var b := chain.blocks[i];
              if b.size >= size + 17
              then HeaderAt(mem, Block(h, size, false)) && HeaderAt(mem, Block(h + 16 + size, b.size - size - 16, true))
              else HeaderAt(mem, b.(free := false))
      ensures old(Physical()) && Top(chain.blocks) <= Edge() ==> Physical()
    {
      hide Load, HeapMapped, Physical, Stored, PayloadsKept, Inv, Take;
      BlockStored(mem, chain, i);
      PageRecord(mem, chain);
      SetIsFree(h, 0);
      var blockSize := GetWord(h);
      var freeSize := blockSize - size;
      if freeSize > 0 && freeSize >= HEADER + 1 {
        SplitBlock(h, size, freeSize, chain.blocks[i]);
      }
      FirstPiece(mem, chain.blocks[i], size);
      StoredTake(old(mem), mem, chain, i, size);
    }

    /** The test of mem_search_place: block `k` fits and is smaller than the best one so far, if there is one. */
    method IsBetter(h: int, place: int, size: int, ghost k: int, ghost best: int) returns (better: bool)
      requires Valid() && first != 0 && 0 <= k < |chain.blocks| && h == chain.blocks[k].at && -1 <= best < k
      requires place == if best == -1 then NULL else chain.blocks[best].at
      modifies this`agreed
      ensures var bs := chain.blocks;
              better <==> bs[k].free && bs[k].size >= size && (best == -1 || bs[k].size < bs[best].size)
      ensures old(Physical()) && Top(chain.blocks) <= Edge() ==> Physical()
    {
      hide Load, Stored, HeapMapped, Physical, Inv;
      PageRecord(mem, chain);
      BlockStored(mem, chain, k);
      if best != -1 { BlockStored(mem, chain, best); }
      var isFree := GetWord(h + 4);
      if isFree != 1 {
        return false;
      }
      var blockSize := GetWord(h);
      if blockSize < size {
        return false;
      }
      if place == NULL {
        return true;
      }
      var placeSize := GetWord(place);
      return blockSize < placeSize;
    }

    /** The walk of mem_search_place: the best fit among all blocks, NULL if none fits. */
    method FindPlace(size: int) returns (place: int)
      requires Valid() && first != 0
      modifies this`agreed
      ensures var i := BestFit(chain.blocks, size);
              place == if i == -1 then NULL else chain.blocks[i].at
      ensures old(Physical()) && Top(chain.blocks) <= Edge() ==> Physical()
    {
      hide Load, Stored, HeapMapped, Physical, Inv, BestFit, IsBestFit, Fits;
      ghost var bs := chain.blocks;
      ghost var k, best := 0, -1;
      place := NULL;
      PageRecord(mem, chain);
      WalkStart(mem, chain, size);
      var h := first + PAGE_INFOS;
      var maxPos := GetWord(first + 4);
      while h != 0 && h < maxPos
        invariant 0 <= k <= |bs| && h == if k < |bs| then bs[k].at else Top(bs)
        invariant -1 <= best < k && best == BestFit(bs[..k], size)
        invariant place == if best == -1 then NULL else bs[best].at
        invariant old(Physical()) && Top(bs) <= Edge() ==> Physical()
        decreases |bs| - k
      {
        BlockStored(mem, chain, k);
        BestFitStep(bs, k, size);
        var better := IsBetter(h, place, size, k, best);
        if better {
          place, best := h, k;
        }
        h := GetWord(h + 12);
        k := k + 1;
      }
      if k < |bs| { BlockStored(mem, chain, k); }
      assert bs[..k] == bs;
    }

    /** mem_search_place; NULL when no free block fits. */
    method MemSearchPlace(size: int) returns (p: int)
      requires Valid() && first != 0 && size >= 1
      modifies this`mem, this`ram, this`agreed, this`chain
      ensures Valid()
      ensures var i := BestFit(old(chain.blocks), size);
              if i == -1 then p == NULL && chain == old(chain) && mem == old(mem)
              else chain == old(chain).(blocks := Take(old(chain.blocks), i, size)) && p == old(chain.blocks)[i].Begin()
      ensures PayloadsKept(old(mem), old(chain.blocks), mem, 0)
      ensures old(Physical()) && Top(old(chain.blocks)) <= Edge() ==> Physical()
    {
      hide Load, Stored, Take, BestFit, HeapMapped, Physical, Inv, PayloadsKept;
      ghost var best := BestFit(chain.blocks, size);
      var place := FindPlace(size);
      if best != -1 { BlockStored(mem, chain, best); }
      if place != NULL {
        PrepareSplitValue(place, size, best);
        TakeKeepsInv(chain, best, size);
        chain := chain.(blocks := Take(chain.blocks, best, size));
        p := GetWord(place + 8);
      } else {
        SelfKept(mem, chain, 0);
        p := NULL;
      }
    }

    /** The request can be served or refused exactly: from a free block, or by a growth as above. */
    ghost predicate Reachable(size: int)
      reads this, kds, kds.frames.table
    {
      BestFit(chain.blocks, size) != -1 || Askable(size)
    }

    /** The header of a new block at the end of the heap, and the new end. */
    method WriteTop(size: int) returns (h: int)
      requires Running() && first == HEAP_BASE && |mem| >= PAGE_INFOS && size >= 1
      requires START <= Load(mem, first + 4) && Load(mem, first + 4) + HEADER + size <= HEAP_BASE + |mem| < 0x8000_0000
      modifies this`mem, this`ram, this`agreed
      ensures h == Load(old(mem), first + 4) && |mem| == |old(mem)| && HeaderAt(mem, Block(h, size, false))
      ensures Load(mem, first) == Load(old(mem), first) && Load(mem, first + 4) == h + HEADER + size
      ensures Agree(old(mem), mem, START, h)
      ensures old(Physical()) && h + HEADER + size <= Edge() ==> Physical()
    {
      hide HeapMapped, Load, Physical;
      h := GetWord(first + 4);
      WriteHeader(h, size, 0);
      LoadAgrees(old(mem), mem, first);
      ghost var m := mem;
      var next := GetWord(h + 12);
      SetWord(first + 4, next);
      LoadAgrees(m, mem, first);
      HeaderKept(m, mem, h, first + 4, first + 8);
    }

    /** The end of mem_add_value: a new block on top, once there is room for it. */
    method AppendBlock(size: int, ghost m: Bytes) returns (p: int)
      requires Running() && |kds.owner| >= 2 && first == HEAP_BASE
      requires Stored(m, chain) && Inv(chain) && size >= 1
      requires Limit(chain) + PagesNeeded(chain, size) * 0x1000 < 0x8000_0000
      requires Extended(m, chain, mem, PagesNeeded(chain, size))
      modifies this`mem, this`ram, this`agreed, this`chain
      ensures Valid() && p == Top(old(chain.blocks)) + HEADER
      ensures chain == Chain(Append(old(chain.blocks), size), old(chain.pages) + PagesNeeded(old(chain), size))
      ensures PayloadsKept(m, old(chain.blocks), mem, 0)
      ensures old(Physical()) && Top(chain.blocks) <= Edge() ==> Physical()
    {
      hide HeapMapped, Stored, Load, PayloadsKept, Physical, Inv, PagesNeeded;
      ghost var m1 := mem;
      PageRecord(m, chain);
      AppendFits(chain, size);
      LoadAgrees(m, mem, first + 4);
      var h := WriteTop(size);
      StoredAppend(m, m1, mem, chain, size);
      AppendKeepsInv(chain, size);
      p := GetWord(h + 8);
      chain := Chain(Append(chain.blocks, size), chain.pages + PagesNeeded(chain, size));
    }

    lemma TopAtLeastStart()
      requires Valid()
      ensures START <= Top(chain.blocks)
    {
      if chain.blocks != [] { Ordered(chain.blocks, 0, |chain.blocks| - 1); }
    }

    /** The second half of mem_add_value: a new block at the end, NULL if the break cannot move. */
    method AddBlock(size: int) returns (p: int)
      requires Valid() && first != 0 && size >= 1 && Askable(size)
      modifies kds.Repr(), this`mem, this`ram, this`agreed, this`chain
      ensures Valid()
      ensures if PagesNeeded(old(chain), size) == 0 || old(CanGrow(PagesNeeded(chain, size)))
              then chain == Chain(Append(old(chain.blocks), size), old(chain.pages) + PagesNeeded(old(chain), size))
                   && p == Top(old(chain.blocks)) + HEADER && p != NULL
              else chain == old(chain) && mem == old(mem) && p == NULL
      ensures PagesNeeded(old(chain), size) == 0 ==> forall n :: CanGrow(n) == old(CanGrow(n))
      ensures PayloadsKept(old(mem), old(chain.blocks), mem, 0)
      ensures old(Physical()) && START <= Edge() && Top(chain.blocks) <= Edge() ==> Physical()
      ensures old(AsBooted()) ==> AsBooted()
      ensures forall end :: old(Apart(end)) ==> Apart(end)
      ensures forall lo, hi :: old(kds.Exact(lo, hi)) ==> kds.Exact(lo, hi)
    {
      hide HeapMapped, Stored, Load, Append, PayloadsKept, Inv, Extended, Physical, PagesNeeded, AsBooted, Apart, Kds.Exact;
      ghost var m := mem;
      PageRecord(m, chain);
      var ok := PagesizeAddUpdate(size);
      if !ok {
        SelfKept(m, chain, 0);
        return NULL;
      }
      p := AppendBlock(size, m);
    }

    /** mem_add_value. `granted` is whether the break could move, had it to. */
    method MemAddValue(size: int) returns (p: int, ghost granted: bool)
      requires Valid() && size >= 1 && Reachable(size)
      modifies Repr()
      ensures Valid()
      ensures first == if old(first) != 0 || old(CanGrow(2)) then HEAP_BASE else 0
      ensures first == 0 ==> p == NULL && chain == old(chain) && mem == old(mem) && !CanGrow(2)
      ensures first != 0 ==> (chain, p) == HeapChain.Kmalloc(old(chain), size, granted)
      ensures old(first) != 0 ==> granted == old(CanGrow(PagesNeeded(chain, size)))
      ensures old(first) == 0 && first != 0 ==> granted == old(CanGrowSetUp(PagesNeeded(chain, size)))
      ensures first != 0 && PagesNeeded(old(chain), size) == 0 ==>
                forall n :: CanGrow(n) == if old(first) == 0 then old(CanGrowSetUp(n)) else old(CanGrow(n))
      ensures old(first) != 0 ==> PayloadsKept(old(mem), old(chain.blocks), mem, 0)
      ensures old(Physical()) && Top(old(chain.blocks)) <= Edge() && Top(chain.blocks) <= Edge() ==> Physical()
      ensures old(AsBooted()) ==> AsBooted()
      ensures forall end :: old(Apart(end)) ==> Apart(end)
      ensures forall lo, hi :: old(kds.Exact(lo, hi)) ==> kds.Exact(lo, hi)
    {
      hide HeapMapped, Stored, Load, Take, Append, BestFit, PayloadsKept, Inv, Extended, Physical, HeapChain.Kmalloc,
        PagesNeeded, AsBooted, Apart, CanGrow, CanGrowSetUp, Kds.Exact;
      TopAtLeastStart();
      var pageInfos := GetFirstValue();
      granted := CanGrow(PagesNeeded(chain, size));
      if pageInfos == NULL {
        return NULL, granted;
      }
      ghost var i := BestFit(chain.blocks, size);
      if i != -1 { BlockStored(mem, chain, i); }
      KmallocCases(chain, size, granted);
      p := MemSearchPlace(size);
      if p == NULL {
        p := AddBlock(size);
      }
    }

    /** The live blocks end within the window. */
    lemma LiveInWindow()
      requires Valid() && Top(chain.blocks) <= Edge()
      ensures forall b | b in LiveBlocks(chain.blocks) :: b.End() <= Edge()
    {
      forall b | b in LiveBlocks(chain.blocks)
        ensures b.End() <= Edge()
      {
        var k :| 0 <= k < |chain.blocks| && chain.blocks[k] == b;
        BelowTop(chain.blocks, k);
      }
    }

    /**
     kmalloc. In physical memory too every live payload is kept, if the heap ends within
     the window before and after.
     */
    method Kmalloc(size: int) returns (p: int, ghost granted: bool)
      requires Valid() && size >= 0 && (size > 0 ==> Reachable(size))
      modifies Repr()
      ensures Valid()
      ensures size == 0 ==> p == NULL && chain == old(chain) && mem == old(mem) && first == old(first)
      ensures size > 0 ==> first == if old(first) != 0 || old(CanGrow(2)) then HEAP_BASE else 0
      ensures first == 0 ==> p == NULL && chain == old(chain) && mem == old(mem)
      ensures first == 0 && size > 0 ==> !CanGrow(2)
      ensures first != 0 ==> (chain, p) == HeapChain.Kmalloc(old(chain), size, granted)
      ensures old(first) != 0 ==> granted == old(CanGrow(PagesNeeded(chain, size)))
      ensures old(first) == 0 && first != 0 ==> granted == old(CanGrowSetUp(PagesNeeded(chain, size)))
      ensures size == 0 ==> forall n :: CanGrow(n) == old(CanGrow(n))
      ensures first != 0 && PagesNeeded(old(chain), size) == 0 ==>
                forall n :: CanGrow(n) == if old(first) == 0 then old(CanGrowSetUp(n)) else old(CanGrow(n))
      ensures PayloadsKept(old(mem), old(chain.blocks), mem, 0)
      ensures old(Physical()) && Top(old(chain.blocks)) <= Edge() && Top(chain.blocks) <= Edge() ==>
                Physical() && RamKept(old(Back()), old(chain.blocks), Back(), 0)
      ensures p != NULL ==> Live(p) && SizeAt(p) >= size
      ensures old(AsBooted()) ==> AsBooted()
      ensures forall end :: old(Apart(end)) ==> Apart(end)
      ensures forall lo, hi :: old(kds.Exact(lo, hi)) ==> kds.Exact(lo, hi)
    {
      hide HeapMapped, Stored, Load, Take, Append, BestFit, Inv, Physical, Coherent, RamKept, PayloadsKept, AsBooted, Apart,
        Kds.Exact;
      ghost var bs, c := chain.blocks, chain;
      ghost var (m, s, v) := (kds.Memory(), Back(), mem);
      if Physical() { IsCoherent(); }
      if Top(chain.blocks) <= Edge() { LiveInWindow(); }
      if size == 0 {
        KeepsPayloads();
        p, granted := NULL, CanGrow(PagesNeeded(chain, size));
      } else {
        p, granted := MemAddValue(size);
        if p != NULL { GrantedIsLive(c, size, p, granted); }
      }
      NoPayload(v, mem, 0);
      if old(Physical()) && Top(bs) <= Edge() && Top(chain.blocks) <= Edge() {
        IsCoherent();
        KeptInRam(m, s, v, kds.Memory(), Back(), mem, window, bs, 0);
      }
    }

    lemma GrantedIsLive(c: Chain, size: int, p: int, granted: bool)
      requires Valid() && first != 0 && Inv(c) && size >= 1 && p != NULL && (chain, p) == HeapChain.Kmalloc(c, size, granted)
      ensures Live(p) && SizeAt(p) >= size
    {
      KmallocGrants(c, size, granted);
      FindLive(chain.blocks, Granted(c, size));
    }

    // -------------------------------------------------------------------- free

    /** The first half of merge_freed_ptr: block `i` takes in the next one, if that is free. */
    method MergeAfter(h: int, ghost i: int) returns (size: int)
      requires Running() && Stored(mem, chain) && first == HEAP_BASE && 0 <= i < |chain.blocks| && h == chain.blocks[i].at
      modifies this`mem, this`ram, this`agreed
      ensures |mem| == |old(mem)| && SameOutside(old(mem), mem, h, h + 4)
      ensures size == chain.blocks[i].size +
                if i + 1 < |chain.blocks| && chain.blocks[i + 1].free then HEADER + chain.blocks[i + 1].size else 0
      ensures In(mem, h, HEADER) && Load(mem, h) == size
      ensures old(Physical()) && Top(chain.blocks) <= Edge() ==> Physical()
    {
      hide Stored, Load, Merged, HeaderAt, HeapMapped, Physical;
      PageRecord(mem, chain);
      MergeNumbers(mem, chain, i);
      var maxPos := GetWord(first + 4);
      size := GetWord(h);
      if maxPos > h {
        var after := h + HEADER + size;
        if after < maxPos {
          var isFree := GetWord(after + 4);
          if isFree == 1 {
            var more := GetWord(after);
            size := size + HEADER + more;
            SetSize(h, size);
          }
        }
      }
    }

    /** merge_freed_ptr for block `i`: joins the sizes of free neighbours and returns the header that stays. */
    method MergeFreedPtr(h: int, before: int, ghost i: int) returns (r: int)
      requires Running() && Stored(mem, chain) && first == HEAP_BASE && 0 <= i < |chain.blocks|
      requires h == chain.blocks[i].at && before == if i == 0 then h else chain.blocks[i - 1].at
      modifies this`mem, this`ram, this`agreed
      ensures |mem| == |old(mem)| && r == Merged(chain.blocks, i).at
      ensures In(mem, r, HEADER) && Load(mem, r) == Merged(chain.blocks, i).size
      ensures SameOutside(old(mem), mem, r, Merged(chain.blocks, i).End())
      ensures old(Physical()) && Top(chain.blocks) <= Edge() ==> Physical()
    {
      hide Stored, Load, Merged, HeaderAt, HeapMapped, Physical;
      MergeNumbers(mem, chain, i);
      PageRecord(mem, chain);
      var size := MergeAfter(h, i);
      if before != h {
        HeaderKept(old(mem), mem, before, h, h + 4);
        var isFree := GetWord(before + 4);
        if isFree == 1 {
          var less := GetWord(before);
          SetSize(before, less + HEADER + size);
          return before;
        }
      }
      return h;
    }

    /** The end of pagesize_rm_update: the break moves down and the heap ends at `h`, the last block. */
    method ReleasePages(h: int, pages: int, n: int)
      requires Running() && |kds.owner| >= 2 && first == HEAP_BASE && Stored(mem, chain)
      requires n > 0 && pages == chain.pages && GivesBack(chain, h, n)
      modifies kds.Repr(), this`mem, this`ram, this`chain
      ensures Valid() && chain == ReleaseTail(old(chain))
      ensures PayloadsKept(old(mem), old(chain.blocks), mem, 0)
      ensures old(Physical()) && START <= Edge() ==> Physical()
      ensures old(AsBooted()) ==> AsBooted()
      ensures forall end :: old(Apart(end)) ==> Apart(end)
    {
      hide HeapMapped, Stored, Load, PayloadsKept, Sound, Inv, Physical, ReleaseTail, AsBooted, Apart;
      PageRecord(mem, chain);
      ghost var m := mem;
      ShrinkBreak(n * 0x1000);
      SetWord(first, pages - n);
      ghost var m1 := mem;
      SetWord(first + 4, h);
      LoadAgrees(m1, mem, first);
      StoredRelease(m, mem, chain);
      StoredSound(m, chain);
      ReleaseKeepsInv(chain);
      chain := ReleaseTail(chain);
    }

    /** pagesize_rm_update on the free block `j` at `h`. */
    method PagesizeRmUpdate(h: int, ghost j: int)
      requires Running() && |kds.owner| >= 2 && first == HEAP_BASE
      requires Stored(mem, chain) && 0 <= j < |chain.blocks| && h == chain.blocks[j].at && chain.blocks[j].free
      requires j + 1 < |chain.blocks| ==> ReleaseTail(chain) == chain
      modifies kds.Repr(), this`mem, this`ram, this`agreed, this`chain
      ensures Valid() && chain == ReleaseTail(old(chain))
      ensures PayloadsKept(old(mem), old(chain.blocks), mem, 0)
      ensures old(Physical()) && Top(old(chain.blocks)) <= Edge() ==> Physical()
      ensures old(AsBooted()) ==> AsBooted()
      ensures forall end :: old(Apart(end)) ==> Apart(end)
    {
      hide HeapMapped, Stored, Load, PayloadsKept, Sound, Inv, Physical, ReleaseTail, GivesBack, AsBooted, Apart;
      PageRecord(mem, chain);
      BlockStored(mem, chain, j);
      ReleaseNumbers(mem, chain, j);
      var next := GetWord(h + 12);
      var maxPos := GetWord(first + 4);
      var pages := GetWord(first);
      var nbPages := 0;
      if next >= maxPos {
        nbPages := (first + PAGE_INFOS + pages * 0x1000 - h) / 0x1000;
      }
      if nbPages > 0 {
        ReleasePages(h, pages, nbPages);
      } else {
        SelfKept(mem, chain, 0);
      }
    }

    /** The walk of mem_rm_value: the block at `ptr` and the one before it, NULL if there is none. */
    method FindBlock(ptr: int) returns (h: int, last: int)
      requires Valid() && first != 0
      modifies this`agreed
      ensures var i := Find(chain.blocks, ptr);
              if i == -1 then h == NULL
              else h == chain.blocks[i].at && last == if i == 0 then h else chain.blocks[i - 1].at
      ensures old(Physical()) && Top(chain.blocks) <= Edge() ==> Physical()
    {
      hide Load, Stored, HeapMapped, Physical, Inv, Find, BestFit;
      ghost var bs := chain.blocks;
      ghost var k := 0;
      h := first + PAGE_INFOS;
      last := h;
      PageRecord(mem, chain);
      WalkStart(mem, chain, 0);
      var maxPos := GetWord(first + 4);
      while h != 0 && h < maxPos
        invariant 0 <= k <= |bs| && h == if k < |bs| then bs[k].at else Top(bs)
        invariant last == if k > 0 then bs[k - 1].at else h
        invariant forall j | 0 <= j < k :: bs[j].Begin() != ptr
        invariant old(Physical()) && Top(bs) <= Edge() ==> Physical()
        decreases |bs| - k
      {
        BlockStored(mem, chain, k);
        var begin := GetWord(h + 8);
        if begin == ptr {
          FoundAt(mem, chain, k);
          return;
        }
        last := h;
        h := GetWord(h + 12);
        k := k + 1;
      }
      if k < |bs| { BlockStored(mem, chain, k); }
      h := NULL;
    }

    /** The header of the merged block, complete. */
    method FreeHeader(h: int, last: int, ghost i: int) returns (r: int)
      requires Running() && Stored(mem, chain) && first == HEAP_BASE && 0 <= i < |chain.blocks|
      requires h == chain.blocks[i].at && last == if i == 0 then h else chain.blocks[i - 1].at
      modifies this`mem, this`ram, this`agreed
      ensures |mem| == |old(mem)| && r == Merged(chain.blocks, i).at && HeaderAt(mem, Merged(chain.blocks, i))
      ensures SameOutside(old(mem), mem, r, Merged(chain.blocks, i).End())
      ensures old(Physical()) && Top(chain.blocks) <= Edge() ==> Physical()
    {
      hide HeapMapped, Stored, Load, Merged, Physical;
      PageRecord(mem, chain);
      MergedFree(chain.blocks, i);
      MergedInside(mem, chain, i);
      r := MergeFreedPtr(h, last, i);
      SetIsFree(r, 1);
      SetBegin(r, r + HEADER);
      var begin := GetWord(r + 8);
      var size := GetWord(r);
      SetNext(r, begin + size);
    }

    /** The body of mem_rm_value for block `i`. */
    method FreeFound(h: int, last: int, ghost i: int)
      requires Valid() && first != 0 && 0 <= i < |chain.blocks|
      requires h == chain.blocks[i].at && last == if i == 0 then h else chain.blocks[i - 1].at
      modifies kds.Repr(), this`mem, this`ram, this`agreed, this`chain
      ensures Valid() && chain == ReleaseTail(old(chain).(blocks := Coalesce(old(chain.blocks), i)))
      ensures PayloadsKept(old(mem), old(chain.blocks), mem, old(chain.blocks)[i].Begin())
      ensures old(Physical()) && Top(old(chain.blocks)) <= Edge() ==> Physical()
      ensures old(AsBooted()) ==> AsBooted()
      ensures forall end :: old(Apart(end)) ==> Apart(end)
    {
      hide HeapMapped, Stored, HeaderAt, PayloadsKept, ReleaseTail, Inv, Coalesce, Merged, Physical, AsBooted, Apart;
      ghost var c, m := chain, mem;
      var r := FreeHeader(h, last, i);
      MergedFree(c.blocks, i);
      StoredCoalesce(m, mem, c, i);
      CoalesceTop(c, m, i);
      CoalesceKeepsTail(c, i);
      chain := c.(blocks := Coalesce(c.blocks, i));
      ghost var m1 := mem;
      PagesizeRmUpdate(r, MergeLow(c.blocks, i));
      FreeKept(m, c, i, m1, mem);
    }

    /** mem_rm_value. `fault` is the NULL dereference when the heap cannot even be set up. */
    method MemRmValue(ptr: int) returns (fault: bool)
      requires Valid()
      modifies Repr()
      ensures Valid()
      ensures fault <==> old(first) == 0 && !old(CanGrow(2))
      ensures first == if fault then 0 else HEAP_BASE
      ensures chain == if fault then old(chain) else HeapChain.Free(old(chain), ptr)
      ensures old(first) != 0 ==> PayloadsKept(old(mem), old(chain.blocks), mem, ptr)
      ensures old(Physical()) && Top(old(chain.blocks)) <= Edge() ==> Physical()
      ensures old(AsBooted()) ==> AsBooted()
      ensures forall end :: old(Apart(end)) ==> Apart(end)
    {
      hide HeapMapped, Stored, Load, PayloadsKept, ReleaseTail, Sound, Coalesce, Physical, AsBooted, Apart;
      TopAtLeastStart();
      var pageInfos := GetFirstValue();
      if pageInfos == NULL {
        return true;
      }
      ghost var i := Find(chain.blocks, ptr);
      if i != -1 { BlockStored(mem, chain, i); }
      var h, last := FindBlock(ptr);
      if h != NULL {
        FreeFound(h, last, i);
      } else {
        SelfKept(mem, chain, ptr);
      }
      return false;
    }

    /** free. In physical memory too every other live payload is kept, if the heap ends within the window. */
    method Free(ptr: int) returns (fault: bool)
      requires Valid()
      modifies Repr()
      ensures Valid()
      ensures fault <==> old(first) == 0 && !old(CanGrow(2))
      ensures first == if fault then 0 else HEAP_BASE
      ensures chain == if fault then old(chain) else HeapChain.Free(old(chain), ptr)
      ensures old(first) != 0 ==> PayloadsKept(old(mem), old(chain.blocks), mem, ptr)
      ensures old(Physical()) && Top(old(chain.blocks)) <= Edge() ==> Physical()
      ensures old(first) != 0 && old(Physical()) && Top(old(chain.blocks)) <= Edge() ==>
                RamKept(old(Back()), old(chain.blocks), Back(), ptr)
      ensures old(AsBooted()) ==> AsBooted()
      ensures forall end :: old(Apart(end)) ==> Apart(end)
    {
      hide HeapMapped, Stored, HeapChain.Free, Inv, Physical, Coherent, RamKept, PayloadsKept, AsBooted, Apart;
      ghost var bs := chain.blocks;
      ghost var (m, s, v) := (kds.Memory(), Back(), mem);
      if Physical() { IsCoherent(); }
      if Top(chain.blocks) <= Edge() { LiveInWindow(); }
      fault := MemRmValue(ptr);
      if old(first) != 0 && old(Physical()) && Top(bs) <= Edge() {
        IsCoherent();
        KeptInRam(m, s, v, kds.Memory(), Back(), mem, window, bs, ptr);
      }
    }

    // ----------------------------------------------------------------- realloc

    /**
     memcpy within the heap, upwards byte by byte. It is a copy unless the destination begins
     inside the source; then the bytes in between repeat.
     */
    method Memcpy(dest: int, src: int, n: nat)
      requires Running() && In(mem, dest, n) && In(mem, src, n)
      modifies this`mem, this`ram, this`agreed
      ensures CopiedUp(old(mem), src, mem, dest, n)
      ensures !(src < dest < src + n) ==> CopyOf(old(mem), src, mem, dest, n)
      ensures old(Physical()) && dest + n <= Edge() && src + n <= Edge() ==> Physical()
    {
      hide HeapMapped, Physical, CopiedUp;
      var cursor := 0;
      CopyStarts(mem, dest, src);
      while cursor < n
        invariant 0 <= cursor <= n && |mem| == |old(mem)| && CopiedUp(old(mem), src, mem, dest, cursor)
        invariant old(Physical()) && dest + n <= Edge() && src + n <= Edge() ==> Physical()
      {
        var v := GetByte(src + cursor);
        ghost var m := mem;
        SetByte(dest + cursor, v);
        CopyStep(old(mem), m, mem, dest, src, cursor);
        cursor := cursor + 1;
      }
      CopyEnds(old(mem), mem, dest, src, n);
    }

    /** The chain block that `ptr` points to is live. */
    ghost predicate Live(ptr: int)
      reads this
    {
      first != 0 && Find(chain.blocks, ptr) != -1 && !chain.blocks[Find(chain.blocks, ptr)].free
    }

    /** The payload bytes at `ptr`. */
    ghost function SizeAt(ptr: int): int
      reads this
    {
      if Live(ptr) then chain.blocks[Find(chain.blocks, ptr)].size else 0
    }

    /** memcpy into the first `n` payload bytes of block `g`. */
    method CopyPayload(p: int, src: int, n: nat, ghost g: Block)
      requires Valid() && first != 0 && g in chain.blocks && p == g.Begin() && n <= g.size
      requires In(mem, src, n) && src + n <= Top(chain.blocks) && (g.End() <= src || src + n <= g.Begin())
      modifies this`mem, this`ram, this`agreed
      ensures Valid() && |mem| == |old(mem)|
      ensures CopyOf(old(mem), src, mem, p, n)
      ensures PayloadsKept(old(mem), chain.blocks, mem, p)
      ensures old(Physical()) && Top(chain.blocks) <= Edge() ==> Physical()
    {
      hide HeapMapped, Stored, Load, PayloadsKept, Sound, Inv, Physical;
      ghost var k :| 0 <= k < |chain.blocks| && chain.blocks[k] == g;
      BlockStored(mem, chain, k);
      PageRecord(mem, chain);
      Memcpy(p, src, n);
      StoredPayload(old(mem), mem, chain, k);
    }

    /** realloc of a live block to more bytes than it has: a new block with a copy, and the old one kept. */
    method MoveBlock(ptr: int, size: int) returns (p: int, ghost granted: bool)
      requires Valid() && Live(ptr) && Reachable(size)
      requires size > SizeAt(ptr)
      modifies Repr()
      ensures Valid() && first == old(first)
      ensures (chain, p) == HeapChain.Kmalloc(old(chain), size, granted)
      ensures granted == old(CanGrow(PagesNeeded(chain, size)))
      ensures PayloadsKept(old(mem), old(chain.blocks), mem, 0)
      ensures p != NULL ==> CopyOf(old(mem), ptr, mem, p, old(SizeAt(ptr)))
      ensures p != NULL ==> ptr + old(SizeAt(ptr)) <= Top(old(chain.blocks)) && p + old(SizeAt(ptr)) <= Top(chain.blocks)
      ensures old(Physical()) && Top(old(chain.blocks)) <= Edge() && Top(chain.blocks) <= Edge() ==> Physical()
      ensures p != ptr
      ensures old(AsBooted()) ==> AsBooted()
      ensures forall end :: old(Apart(end)) ==> Apart(end)
    {
      hide HeapMapped, Stored, Load, PayloadsKept, Sound, Inv, HeapChain.Kmalloc, Granted, Find, BestFit,
        PagesNeeded, Physical, RamKept, CopyOf, AsBooted, Apart;
      ghost var m, c, i := mem, chain, Find(chain.blocks, ptr);
      ghost var g := Granted(c, size);
      BlockStored(mem, chain, i);
      p, granted := Kmalloc(size);
      KmallocGrants(c, size, granted);
      if p == NULL {
        return;
      }
      OldStaysLive(m, c, mem, chain, i, g);
      ghost var m1 := mem;
      var n := GetWord(ptr - HEADER);
      CopyPayload(p, ptr, n, g);
      KeptTrans(m, c.blocks, m1, chain.blocks, mem, 0, g.Begin());
      CopyTrans(m, m1, mem, ptr, p, n);
    }

    /** realloc on the heap's bytes. */
    method ReallocBytes(ptr: int, size: int) returns (p: int, ghost granted: bool)
      requires Valid() && size >= 0 && (size > 0 ==> Reachable(size)) && (ptr != NULL && size != 0 ==> Live(ptr))
      modifies Repr()
      ensures Valid()
      ensures first != 0 ==> (chain, p) == HeapChain.Realloc(old(chain), ptr, size, granted)
      ensures first == if old(first) != 0 || (old(CanGrow(2)) && (ptr != NULL || size != 0)) then HEAP_BASE else 0
      ensures first == 0 ==> p == NULL && chain == old(chain)
      ensures ptr == NULL && size == 0 ==> forall n :: CanGrow(n) == old(CanGrow(n))
      ensures old(first) != 0 ==> granted == old(CanGrow(PagesNeeded(chain, size)))
      ensures ptr != NULL && p !in {NULL, ptr} ==> CopyOf(old(mem), ptr, mem, p, old(SizeAt(ptr)))
      ensures ptr != NULL && p !in {NULL, ptr} ==>
                ptr + old(SizeAt(ptr)) <= Top(old(chain.blocks)) && p + old(SizeAt(ptr)) <= Top(chain.blocks)
      ensures old(first) != 0 ==> PayloadsKept(old(mem), old(chain.blocks), mem, if size == 0 then ptr else 0)
      ensures old(Physical()) && Top(old(chain.blocks)) <= Edge() && Top(chain.blocks) <= Edge() ==> Physical()
      ensures ptr != NULL && p == ptr ==> mem == old(mem)
      ensures old(AsBooted()) ==> AsBooted()
      ensures forall end :: old(Apart(end)) ==> Apart(end)
    {
      hide HeapMapped, Stored, Load, PayloadsKept, Sound, Inv, HeapChain.Kmalloc, HeapChain.Free, Physical,
        RamKept, AsBooted, Apart;
      granted := CanGrow(PagesNeeded(chain, size));
      if size == 0 && ptr != NULL {
        var _ := Free(ptr);
        return NULL, granted;
      }
      if ptr == NULL {
        p, granted := Kmalloc(size);
        return;
      }
      BlockStored(mem, chain, Find(chain.blocks, ptr));
      var blockSize := GetWord(ptr - HEADER);
      if blockSize >= size {
        SelfKept(mem, chain, 0);
        return ptr, granted;
      }
      p, granted := MoveBlock(ptr, size);
    }

    /**
     realloc. In physical memory too every live payload is kept and the copy is complete, if
     the heap ends within the window before and after.
     */
    method Realloc(ptr: int, size: int) returns (p: int, ghost granted: bool)
      requires Valid() && size >= 0 && (size > 0 ==> Reachable(size)) && (ptr != NULL && size != 0 ==> Live(ptr))
      modifies Repr()
      ensures Valid()
      ensures first != 0 ==> (chain, p) == HeapChain.Realloc(old(chain), ptr, size, granted)
      ensures first == if old(first) != 0 || (old(CanGrow(2)) && (ptr != NULL || size != 0)) then HEAP_BASE else 0
      ensures first == 0 ==> p == NULL && chain == old(chain)
      ensures ptr == NULL && size == 0 ==> forall n :: CanGrow(n) == old(CanGrow(n))
      ensures old(first) != 0 ==> granted == old(CanGrow(PagesNeeded(chain, size)))
      ensures ptr != NULL && p !in {NULL, ptr} ==> CopyOf(old(mem), ptr, mem, p, old(SizeAt(ptr)))
      ensures old(first) != 0 ==> PayloadsKept(old(mem), old(chain.blocks), mem, if size == 0 then ptr else 0)
      ensures old(Physical()) && Top(old(chain.blocks)) <= Edge() && Top(chain.blocks) <= Edge() ==>
                && Physical()
                && (old(first) != 0 ==> RamKept(old(Back()), old(chain.blocks), Back(), if size == 0 then ptr else 0))
                && (ptr != NULL && p !in {NULL, ptr} ==>
                      SameRam(old(Back()), ptr, Back(), p, old(SizeAt(ptr))))
      ensures ptr != NULL && size > 0 ==> (p == ptr <==> old(SizeAt(ptr)) >= size)
      ensures ptr != NULL && p == ptr ==> chain == old(chain) && mem == old(mem)
      ensures p != NULL ==> Live(p) && SizeAt(p) >= size
      ensures ptr != NULL && size > 0 && old(SizeAt(ptr)) < size ==>
                && Live(ptr) && SizeAt(ptr) == old(SizeAt(ptr))
                && (p == NULL <==> && (forall j | 0 <= j < |old(chain.blocks)| :: !Fits(old(chain.blocks)[j], size))
                                   && old(Top(chain.blocks)) + 16 + size > old(Limit(chain))
                                   && !old(CanGrow(PagesNeeded(chain, size))))
      ensures old(AsBooted()) ==> AsBooted()
      ensures forall end :: old(Apart(end)) ==> Apart(end)
    {
      hide HeapMapped, Stored, HeapChain.Realloc, Inv, Physical, RamKept, SameRam, PayloadsKept, Reachable,
        Coherent, AsBooted, Apart;
      ghost var (m, s, v) := (kds.Memory(), Back(), mem);
      if Physical() { IsCoherent(); }
      if Top(chain.blocks) <= Edge() { LiveInWindow(); }
      ghost var c := chain;
      ChainInv();
      if ptr != NULL && size > 0 { ReallocExactly(c, c.blocks[Find(c.blocks, ptr)], size, CanGrow(PagesNeeded(c, size))); }
      p, granted := ReallocBytes(ptr, size);
      if first != 0 { ReallocIsLive(c, ptr, size, p, granted); }
      if old(Physical()) && Top(c.blocks) <= Edge() && Top(chain.blocks) <= Edge() {
        IsCoherent();
        if old(first) != 0 {
          KeptInRam(m, s, v, kds.Memory(), Back(), mem, window, c.blocks, if size == 0 then ptr else 0);
        }
        if ptr != NULL && p !in {NULL, ptr} {
          CopyInRam(m, s, v, kds.Memory(), Back(), mem, window, ptr, p, old(SizeAt(ptr)));
        }
      }
    }

    /** What realloc returns is live and large enough, and what it moved from is still there. */
    lemma ReallocIsLive(c: Chain, ptr: int, size: int, p: int, granted: bool)
      requires Valid() && first != 0 && Inv(c) && size >= 0 && (chain, p) == HeapChain.Realloc(c, ptr, size, granted)
      requires ptr != NULL && size != 0 ==> Find(c.blocks, ptr) != -1 && !c.blocks[Find(c.blocks, ptr)].free
      ensures p != NULL ==> Live(p) && SizeAt(p) >= size
      ensures ptr != NULL && size != 0 ==> Live(ptr) && SizeAt(ptr) == c.blocks[Find(c.blocks, ptr)].size
      ensures ptr != NULL && size == 0 ==> p == NULL
    {
      hide Stored, HeapMapped, HeapChain.Kmalloc, HeapChain.Free;
      ReallocOtherwise(c, ptr, size, granted);
      if ptr != NULL && size != 0 {
        var b := c.blocks[Find(c.blocks, ptr)];
        ReallocExactly(c, b, size, granted);
        FindLive(chain.blocks, b);
        if p != NULL {
          var g :| g in LiveBlocks(chain.blocks) && g.Begin() == p && g.size >= size;
          FindLive(chain.blocks, g);
        }
      } else if p != NULL {
        KmallocNull(c, granted);
        GrantedIsLive(c, size, p, granted);
      }
    }

    lemma KmallocNull(c: Chain, granted: bool)
      ensures HeapChain.Kmalloc(c, 0, granted).1 == NULL
    {
    }

    lemma ChainInv()
      requires Valid()
      ensures Inv(chain)
    {
    }

    lemma IsCoherent()
      requires Physical()
      ensures Coherent(kds.Memory(), Back(), mem, window)
    {
    }

    lemma KeepsPayloads()
      requires Valid()
      ensures PayloadsKept(mem, chain.blocks, mem, 0)
    {
      if first != 0 {
        SelfKept(mem, chain, 0);
      }
    }
  }
}
