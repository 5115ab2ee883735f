/** The heap on top of sbrk, paging and the frame allocator, from boot on. */
module Kernel {
  import opened Machine
  import opened Frames
  import opened Paging
  import opened Boot
  import opened KernelData
  import opened HeapChain
  import opened HeapInvariant
  import opened HeapMemory
  import opened HeapArithmetic
  import opened HeapExact
  import opened HeapRuns
  import opened Storage
  import opened HeapSteps
  import opened Heaps

  // ------------------------------------------------------------------------- boot

  /** Boot on a machine with any contents of memory, then a heap that has not been touched yet. */
  method Start(mapLength: Word, ram: Ram, ghost window: int) returns (h: Heap)
    ensures h.Valid() && fresh(h.Repr()) && h.first == 0 && h.window == window
    ensures JustBooted(h, mapLength) && h.AsBooted()
    ensures window <= 0x1000 ==> h.Physical()
  {
    var kds := new Kds(0x10_0000, mapLength);
    var nb := FrameCount(mapLength);
    BootUnused(kds.Memory().dir, kds.Memory().low, nb);
    h := new Heap(kds, ram, window);
  }

  /** Nothing mapped for the heap yet, and the unused frames are those that boot leaves. */
  ghost predicate JustBooted(h: Heap, mapLength: Word)
    reads h, h.kds, h.kds.frames.table
  {
    && h.kds.size == 0 && h.kds.owner == []
    && h.kds.OfMachine() && h.kds.frames.mapLength == mapLength
    && UnusedExactly(h.kds.frames.table[..], FreeFrom(FrameCount(mapLength)), FreeTo(FrameCount(mapLength)))
  }

  /** Number of unused frames after boot; not positive if there are none. */
  function FramesFree(mapLength: Word): int { FreeTo(FrameCount(mapLength)) - FreeFrom(FrameCount(mapLength)) }

  lemma FirstGrowth(h: Heap, mapLength: Word, n: int)
    requires JustBooted(h, mapLength)
    ensures h.CanGrow(2) <==> FramesFree(mapLength) >= 2
    ensures h.CanGrow(2) ==> (h.CanGrowSetUp(n) <==> 1 <= n <= FramesFree(mapLength) - 2)
  {
    hide FirstRun, HasRun, WithCounts, FrameCount;
    var t, nb := h.kds.frames.table[..], FrameCount(mapLength);
    var lo, hi := FreeFrom(nb), FreeTo(nb);
    RunsOfInterval(t, lo, hi, 2);
    if HasRun(t, 2) {
      RunsOfInterval(WithCounts(t, lo, 2, 2), lo + 2, hi, n);
    }
  }

  /** A first request that leaves the limit below 2^31, or one that the frames do not suffice for. */
  ghost predicate FirstInRange(mapLength: Word, size: nat) {
    var n := PagesNeeded(FRESH, size);
    Limit(FRESH) + n * 0x1000 < 0x8000_0000 || (n < 0x8_0000 && FramesFree(mapLength) < 2 + n)
  }

  /** The first kmalloc after boot returns a block if and only if the frames suffice for two pages and what it adds. */
  method FirstKmalloc(mapLength: Word, ram: Ram, ghost window: int, size: int) returns (h: Heap, p: int)
    requires 0 <= size && FirstInRange(mapLength, size)
    ensures h.Valid() && fresh(h.Repr()) && h.AsBooted()
    ensures p != NULL <==> size > 0 && FramesFree(mapLength) >= 2 + PagesNeeded(FRESH, size)
    ensures p != NULL ==> h.first != 0 && (h.chain, p) == Kmalloc(FRESH, size, true)
    ensures p != NULL && PagesNeeded(FRESH, size) == 0 ==> forall n :: h.CanGrow(n) <==> 1 <= n <= FramesFree(mapLength) - 2
    ensures window <= 0x1000 && Top(h.chain.blocks) <= HEAP_BASE + window ==> h.Physical()
  {
    hide HeapMapped, Stored, Inv, BestFit, FramesFree, JustBooted, Heap.CanGrowSetUp, Heap.CanGrow, Heap.AsBooted,
      Heap.Physical, RamKept;
    h := Start(mapLength, ram, window);
    FreshLimit(size);
    forall n
      ensures h.CanGrow(2) <==> FramesFree(mapLength) >= 2
      ensures h.CanGrow(2) ==> (h.CanGrowSetUp(n) <==> 1 <= n <= FramesFree(mapLength) - 2)
    {
      FirstGrowth(h, mapLength, n);
    }
    FirstGrowth(h, mapLength, PagesNeeded(FRESH, size));
    ghost var granted;
    p, granted := h.Kmalloc(size);
  }

  lemma FreshLimit(size: int)
    requires 0 <= size
    ensures var n := PagesNeeded(FRESH, size); n >= 0 && START + HEADER + size <= Limit(FRESH) + n * 0x1000
    ensures Inv(FRESH) && BestFit(FRESH.blocks, size) == -1
  {
  }

  /** With half a gigabyte every first request for up to 496 MB is served. */
  lemma HalfGigabyte(size: int)
    requires 0 < size < 0x1F00_0000
    ensures FirstInRange(0x2000_0000, size)
    ensures FramesFree(0x2000_0000) == 127109 >= 2 + PagesNeeded(FRESH, size)
  {
  }

  // ---------------------------------------------------------------------- storage

  lemma ByteOnPage(a: int, size: int)
    requires HEAP_BASE <= a < HEAP_BASE + size
    ensures var p := (a - HEAP_BASE) / 0x1000;
            0 <= p < PagesFor(size) && a == HEAP_BASE + p * 0x1000 + a % 0x1000
  {
  }

  /** Every byte below the break lies on a page that the processor translates, into the frame record of that page. */
  lemma HeapBytesMapped(h: Heap, a: int)
    requires h.Valid() && HEAP_BASE <= a < HEAP_BASE + |h.mem|
    ensures var (m, p) := (h.kds.Memory(), (a - HEAP_BASE) / 0x1000);
            && p < |h.kds.owner| && h.kds.owner[p] < |m.table| && |m.dir| == DIR_ENTRIES && |m.low| == LOW_WORDS
            && m.table[h.kds.owner[p]].vaddr == a - a % 0x1000
            && Translate(m.dir, m.low, a) == At(m.table[h.kds.owner[p]].addr / 0x1000 * 0x1000 + a % 0x1000)
  {
    hide HeapMapped, Translate, GetPhysaddr, Stored, Inv;
    var (m, p) := (h.kds.Memory(), (a - HEAP_BASE) / 0x1000);
    ByteOnPage(a, h.kds.size);
    HeapTranslates(m, h.kds.owner, p, a % 0x1000);
    OneRecordPerPage(m, h.kds.owner, p, h.kds.owner[p]);
  }

  /** The part of the heap in use, as bytes from the base. */
  ghost function Used(h: Heap): (w: int)
    reads h
    requires Tiled(h.chain.blocks)
    ensures w >= PAGE_INFOS
  {
    TopAbove(h.chain.blocks);
    Top(h.chain.blocks) - HEAP_BASE
  }

  lemma TopAbove(bs: seq<Block>)
    requires Tiled(bs)
    ensures START <= Top(bs)
  {
    if bs != [] { Ordered(bs, 0, |bs| - 1); }
  }

  lemma UsedIsOwned(h: Heap)
    requires h.Valid() && h.first != 0
    ensures Tiled(h.chain.blocks) && Owned(h.Back(), Used(h))
  {
    hide HeapMapped;
    OwnersInTable(h.kds.Memory(), h.Back());
    PageRecord(h.mem, h.chain);
    PagesMonotonic(Used(h), h.kds.size);
  }

  /** With the frame records as boot leaves them, the heap in use is separate storage exactly while it ends on its first page. */
  lemma SafeAsBooted(h: Heap)
    requires h.Valid() && h.first != 0 && h.AsBooted()
    ensures Tiled(h.chain.blocks) && Owned(h.Back(), Used(h))
    ensures SafeStorage(h.Back(), Used(h)) <==> Top(h.chain.blocks) <= HEAP_BASE + 0x1000
  {
    hide HeapMapped, Stored, SafeStorage, Distinct;
    UsedIsOwned(h);
    SafeExactlyIfDistinct(h.Back(), Used(h));
    BootedExactly(h.Back(), Used(h));
  }

  /**
   kmalloc as booted, on a heap that ends on its first page. Physical memory still holds the
   heap and is safe for every store if and only if the request finds a fit, leaves the new
   block on the first page, or needs pages that the segment cannot grow by.
   */
  method KmallocAsBooted(h: Heap, size: int) returns (p: int)
    requires h.Valid() && h.first != 0 && h.AsBooted() && size > 0 && h.Reachable(size)
    requires h.window == 0x1000 && h.Physical() && Top(h.chain.blocks) <= HEAP_BASE + 0x1000
    modifies h.Repr()
    ensures h.Valid() && h.AsBooted() && Tiled(h.chain.blocks) && Owned(h.Back(), Used(h))
    ensures var stays := old(var n := PagesNeeded(h.chain, size);
                             || BestFit(h.chain.blocks, size) != -1
                             || Top(h.chain.blocks) + HEADER + size <= HEAP_BASE + 0x1000
                             || (n > 0 && !h.CanGrow(n)));
            && (SafeStorage(h.Back(), Used(h)) <==> stays)
            && (stays ==> h.Physical() && RamKept(old(h.Back()), old(h.chain.blocks), h.Back(), 0))
  {
    hide HeapMapped, Stored, Inv, BestFit, Kmalloc, SafeStorage, Heap.Physical, RamKept, Heap.AsBooted,
      Heap.Reachable;
    ghost var c := h.chain;
    ghost var granted;
    p, granted := h.Kmalloc(size);
    KmallocStaysWithin(c, size, granted, HEAP_BASE + 0x1000);
    FitExists(c.blocks, size);
    SafeAsBooted(h);
  }

  lemma FitExists(bs: seq<Block>, size: int)
    ensures BestFit(bs, size) != -1 <==> exists j :: 0 <= j < |bs| && Fits(bs[j], size)
  {
  }

  // -------------------------------------------------------------- two calls too many

  /** The heap after kmalloc(4072) and kmalloc(1): the second header begins the second page. */
  const TWO_BLOCKS: Chain := Chain([Block(START, 4072, false), Block(HEAP_BASE + 0x1000, 1, false)], 2)

  /** No physical memory holds that heap as booted: its page record and its second header are the same four bytes. */
  lemma TwoBlocksClash(h: Heap)
    requires h.Valid() && h.first != 0 && h.AsBooted() && h.chain == TWO_BLOCKS
    ensures Load(h.mem, HEAP_BASE) == 2 && Load(h.mem, HEAP_BASE + 0x1000) == 1
    ensures Owned(h.Back(), |h.mem|)
    ensures forall r: Ram :: !Backed(h.Back().(ram := r), h.mem, 0x1001)
  {
    hide HeapMapped, Backed, Stored, Load;
    OwnersInTable(h.kds.Memory(), h.Back());
    PageRecord(h.mem, h.chain);
    BlockStored(h.mem, h.chain, 1);
    LowByte(h.mem, HEAP_BASE);
    LowByte(h.mem, HEAP_BASE + 0x1000);
    forall r: Ram | Backed(h.Back().(ram := r), h.mem, 0x1001)
      ensures h.mem[0] == h.mem[0x1000]
    {
      FirstBytesShared(h.Back().(ram := r), h.mem);
    }
  }

  lemma FirstBytesShared(s: Backing, mem: Bytes)
    requires Unaddressed(s.table) && |mem| > 0x1000 && Owned(s, |mem|) && Backed(s, mem, 0x1001)
    ensures mem[0] == mem[0x1000]
  {
    PagesMonotonic(0x1001, |mem|);
    PagesMonotonic(1, |mem|);
    assert Place(s, 0) == Place(s, 0x1000);
    assert BackedAt(s, mem, 0) && BackedAt(s, mem, 0x1000);
  }

  lemma LowByte(m: Bytes, a: int)
    requires In(m, a, 4)
    ensures m[a - HEAP_BASE] == Load(m, a) % 0x100
  {
  }

  /** And every machine with three unused frames gets there from boot, in two calls. */
  method TwoCalls(mapLength: Word, ram: Ram) returns (h: Heap, p: int, q: int)
    ensures h.Valid() && h.AsBooted()
    ensures p != NULL && q != NULL <==> FramesFree(mapLength) >= 3
    ensures p != NULL && q != NULL ==>
              && h.first != 0 && h.chain == TWO_BLOCKS && Owned(h.Back(), |h.mem|)
              && forall r: Ram :: !Backed(h.Back().(ram := r), h.mem, 0x1001)
  {
    hide HeapMapped, Stored, Inv, FramesFree, Heap.CanGrow, Heap.AsBooted, Heap.Physical, RamKept, Backed;
    h, p := FirstKmalloc(mapLength, ram, 0x1000, 4072);
    q := NULL;
    FirstOfTwo();
    if p != NULL {
      ghost var granted;
      q, granted := h.Kmalloc(1);
      if q != NULL { TwoBlocksClash(h); }
    }
  }

  lemma FirstOfTwo()
    ensures PagesNeeded(FRESH, 4072) == 0
    ensures var c := Chain([Block(START, 4072, false)], 1);
            && Kmalloc(FRESH, 4072, true) == (c, START + HEADER) && PagesNeeded(c, 1) == 1 && BestFit(c.blocks, 1) == -1
            && Kmalloc(c, 1, true) == (TWO_BLOCKS, HEAP_BASE + 0x1010) && Kmalloc(c, 1, false) == (c, NULL)
  {
    var c := Chain([Block(START, 4072, false)], 1);
    assert BestFit([], 4072) == -1 && Append([], 4072) == c.blocks;
    assert c.blocks[..0] == [] && BestFit(c.blocks, 1) == -1;
    assert Append(c.blocks, 1) == TWO_BLOCKS.blocks;
  }

  /** What the processor stores on the second heap page it then reads on the first, the page record included. */
  lemma SecondPageOverwritesFirst(h: Heap, off: nat, v: Word)
    requires h.Valid() && h.first != 0 && h.AsBooted() && off + 4 <= 0x1000
    ensures var m := h.kds.Memory();
            && |m.dir| == DIR_ENTRIES && |m.low| == LOW_WORDS
            && var ram' := StoreVia(m.dir, m.low, h.ram, HEAP_BASE + 0x1000 + off, v);
               LoadVia(m.dir, m.low, ram', HEAP_BASE + off) == v
  {
    hide HeapMapped, StoreVia, LoadVia;
    OwnersInTable(h.kds.Memory(), h.Back());
    SharedWord(h.kds.Memory(), h.kds.owner, h.ram, 1, 0, off, v);
  }

  // ------------------------------------------------------------------------- runs

  /** The request fits, can be asked for, or is refused; and a pointer to be resized is live. */
  ghost predicate Answerable(h: Heap, q: Request)
    reads h, h.kds, h.kds.frames.table
  {
    match q
    case KmallocReq(size) => size == 0 || h.Reachable(size)
    case FreeReq(_) => true
    case ReallocReq(ptr, size) => size == 0 || (h.Reachable(size) && (ptr != NULL ==> h.Live(ptr)))
  }

  lemma ServableIsAnswerable(h: Heap, q: Request)
    requires h.Valid() && Servable(h.chain, q)
    ensures Answerable(h, q)
  {
    if q.ReallocReq? && q.ptr != 0 && q.size != 0 {
      var b :| b in LiveBlocks(h.chain.blocks) && b.Begin() == q.ptr;
      var k :| 0 <= k < |h.chain.blocks| && h.chain.blocks[k] == b;
      FindUnique(h.chain.blocks, k);
    }
  }

  /** One request, with its outcome. */
  method Serve(h: Heap, q: Request) returns (p: int, ghost granted: bool)
    requires h.Valid() && h.Ready() && Answerable(h, q)
    modifies h.Repr()
    ensures h.Valid() && h.Ready() && (old(h.first) != 0 ==> h.first != 0)
    ensures (h.chain, p) == Effect(old(h.chain), AsOp(q, granted))
    ensures old(h.first) != 0 && !q.FreeReq? ==> granted == old(h.CanGrow(PagesNeeded(h.chain, q.size)))
    ensures PayloadsKept(old(h.mem), old(h.chain.blocks), h.mem, Released(q))
    ensures old(h.Physical()) && Top(old(h.chain.blocks)) <= h.Edge() && Top(h.chain.blocks) <= h.Edge() ==> h.Physical()
  {
    hide HeapMapped, Stored, Inv, Kmalloc, Free, Realloc, BestFit, PagesNeeded, Heap.CanGrow, Heap.Physical,
      RamKept, PayloadsKept, SameRam, CopyOf;
    ghost var m := h.mem;
    NothingAtFirst(h.chain);
    match q {
      case KmallocReq(size) =>
        p, granted := h.Kmalloc(size);
      case FreeReq(ptr) =>
        FreeStaysWithin(h.chain, ptr);
        var _ := h.Free(ptr);
        p, granted := NULL, false;
      case ReallocReq(ptr, size) =>
        p, granted := h.Realloc(ptr, size);
    }
    NoPayload(m, h.mem, Released(q));
  }

  /** What calls that are not kmalloc do to a heap not yet set up. */
  lemma NothingAtFirst(c: Chain)
    ensures Inv(FRESH) && Kmalloc(FRESH, 0, false) == (FRESH, 0) && Kmalloc(FRESH, 0, true) == (FRESH, 0)
    ensures Realloc(FRESH, 0, 0, false) == (FRESH, 0) && Realloc(FRESH, 0, 0, true) == (FRESH, 0)
  {
  }

  /**
   Any program, over `n` calls. Chain and results are those of the run on chains, and the
   payload of every block that is not freed comes through the whole run unchanged. In
   physical memory too, if the heap stays within the window.
   */
  method Execute(h: Heap, client: Client, rs: seq<int>, n: nat) returns (ps: seq<int>, ghost ops: seq<Op>)
    requires h.Valid() && h.Ready() && AllServable(h.chain, client, rs, n)
    modifies h.Repr()
    ensures h.Valid() && h.Ready() && (old(h.first) != 0 ==> h.first != 0)
    ensures |ops| == n && Plays(old(h.chain), client, rs, ops)
    ensures h.chain == Run(old(h.chain), ops) && ps == Results(old(h.chain), ops)
    ensures forall b | Survives(old(h.chain), ops, b) ::
              b in LiveBlocks(h.chain.blocks) && CopyOf(old(h.mem), b.Begin(), h.mem, b.Begin(), b.size)
    ensures old(h.Physical()) && StaysWithin(old(h.chain), ops, h.Edge()) ==> h.Physical()
    decreases n
  {
    hide HeapMapped, Stored, Inv, Effect, Heap.Physical, Heap.CanGrow, PayloadsKept, CopyOf, LiveBlocks, Survives,
      StaysWithin, Servable, Answerable;
    ghost var m, c := h.mem, h.chain;
    SurvivorsInside(h);
    if n == 0 {
      AllKept(h);
      return [], [];
    }
    var q := client(rs);
    ServableIsAnswerable(h, q);
    var p, granted := Serve(h, q);
    ghost var m1, op := h.mem, AsOp(q, granted);
    ghost var rest;
    ps, rest := Execute(h, client, rs + [p], n - 1);
    ps, ops := [p] + ps, [op] + rest;
    assert ops[0] == op && ops[1..] == rest;
    if StaysWithin(c, ops, h.Edge()) { StaysStep(c, op, rest, h.Edge()); }
    forall b | Survives(c, ops, b)
      ensures b in LiveBlocks(h.chain.blocks) && CopyOf(m, b.Begin(), h.mem, b.Begin(), b.size)
    {
      SurvivesStep(c, ops, b);
      KeptAcross(m, c, ops, m1, h.mem, b, q, granted);
    }
  }

  lemma AllKept(h: Heap)
    requires h.Valid()
    ensures forall b | Survives(h.chain, [], b) ::
              b in LiveBlocks(h.chain.blocks) && CopyOf(h.mem, b.Begin(), h.mem, b.Begin(), b.size)
  {
    hide Load, PayloadsKept;
    if h.first != 0 { PageRecord(h.mem, h.chain); }
    forall b | Survives(h.chain, [], b)
      ensures CopyOf(h.mem, b.Begin(), h.mem, b.Begin(), b.size)
    {
      LiveStored(h.mem, h.chain, b);
    }
  }

  lemma KeptAcross(m: Bytes, c: Chain, ops: seq<Op>, m1: Bytes, m2: Bytes, b: Block, q: Request, granted: bool)
    requires ops != [] && ops[0] == AsOp(q, granted) && Survives(c, ops, b) && b.Begin() != 0
    requires PayloadsKept(m, c.blocks, m1, Released(q)) && CopyOf(m1, b.Begin(), m2, b.Begin(), b.size)
    ensures CopyOf(m, b.Begin(), m2, b.Begin(), b.size)
  {
    assert !Releases(ops[0], b.Begin());
    assert In(m, b.Begin(), b.size) && Payload(m1, b) == Payload(m, b);
  }

  /** Such a payload is the same in physical memory before and after. */
  method ExecuteInRam(h: Heap, client: Client, rs: seq<int>, n: nat) returns (ps: seq<int>, ghost ops: seq<Op>)
    requires h.Valid() && h.Ready() && AllServable(h.chain, client, rs, n) && h.Physical()
    modifies h.Repr()
    ensures h.Valid() && h.Ready() && |ops| == n && Plays(old(h.chain), client, rs, ops)
    ensures h.chain == Run(old(h.chain), ops) && ps == Results(old(h.chain), ops)
    ensures StaysWithin(old(h.chain), ops, h.Edge()) ==>
              && h.Physical()
              && forall b | Survives(old(h.chain), ops, b) ::
                   SameRam(old(h.Back()), b.Begin(), h.Back(), b.Begin(), b.size)
  {
    hide HeapMapped, Stored, Inv, Heap.Physical, Heap.CanGrow, CopyOf, Survives, SameRam, Coherent;
    ghost var (m, s, v, c) := (h.kds.Memory(), h.Back(), h.mem, h.chain);
    h.IsCoherent();
    SurvivorsInside(h);
    ps, ops := Execute(h, client, rs, n);
    if StaysWithin(c, ops, h.Edge()) {
      h.IsCoherent();
      forall b | Survives(c, ops, b)
        ensures SameRam(s, b.Begin(), h.Back(), b.Begin(), b.size)
      {
        CopyInRam(m, s, v, h.kds.Memory(), h.Back(), h.mem, h.window, b.Begin(), b.Begin(), b.size);
      }
    }
  }

  lemma SurvivorsInside(h: Heap)
    requires h.Valid()
    ensures forall ops, b | Survives(h.chain, ops, b) :: b.size >= 1 && b.End() <= Top(h.chain.blocks) && b.Begin() != 0
  {
    forall ops, b | Survives(h.chain, ops, b)
      ensures b.size >= 1 && b.End() <= Top(h.chain.blocks) && b.Begin() != 0
    {
      LiveStored(h.mem, h.chain, b);
    }
  }

  // ------------------------------------------------------------------------ growing

  /** As long as nothing has been given back, the frames that boot left decide every growth, and nothing else does. */
  lemma GrowthExactly(h: Heap, lo: int, hi: int, n: int)
    requires h.Valid() && h.kds.OfMachine() && h.kds.Exact(lo, hi)
    ensures h.first != 0 ==> (h.CanGrow(n) <==> 1 <= n <= hi - lo - h.chain.pages - 1)
    ensures h.CanGrow(n) <==> h.kds.Affordable(n)
    ensures h.first == 0 ==> (h.CanGrow(2) <==> hi - lo >= 2)
    ensures h.first == 0 && h.CanGrow(2) ==> (h.CanGrowSetUp(n) <==> 1 <= n <= hi - lo - 2)
  {
    hide HeapMapped, Stored, HasRun, FirstRun, WithCounts;
    var t, mapped := h.kds.frames.table[..], |h.kds.owner|;
    h.kds.QuotaNeverRefuses(n);
    h.kds.QuotaNeverRefuses(2);
    RunsOfInterval(t, lo + mapped, hi, n);
    if h.first != 0 {
      PageRecord(h.mem, h.chain);
      LimitPages(h.chain.pages);
    } else {
      RunsOfInterval(t, lo, hi, 2);
      if HasRun(t, 2) { RunsOfInterval(WithCounts(t, lo, 2, 2), lo + 2, hi, n); }
    }
  }

  function TotalPages(calls: seq<int>): (n: int)
    requires forall i | 0 <= i < |calls| :: calls[i] > 0
    ensures n >= |calls|
  {
    if calls == [] then 0 else PagesFor(calls[0]) + TotalPages(calls[1..])
  }

  /**
   sbrk from boot with positive amounts, whole pages but for the first: every call succeeds
   if and only if the frames that boot leaves suffice for the pages of all.
   */
  method GrowingRun(mapLength: Word, calls: seq<int>) returns (ok: bool)
    requires forall i | 0 <= i < |calls| :: calls[i] > 0 && (i > 0 ==> calls[i] % 0x1000 == 0)
    requires FramesFree(mapLength) <= HEAP_PAGES || TotalPages(calls) <= HEAP_PAGES
    ensures ok <==> calls == [] || TotalPages(calls) <= FramesFree(mapLength)
  {
    hide HeapMapped, HasRun, FirstRun, FrameCount, CountsAfter, SameAddresses, Clear;
    var kds := new Kds(0x10_0000, mapLength);
    var nb := FrameCount(mapLength);
    BootUnused(kds.Memory().dir, kds.Memory().low, nb);
    ghost var lo, hi := FreeFrom(nb), FreeTo(nb);
    var i := 0;
    while i < |calls|
      invariant 0 <= i <= |calls| && kds.Valid() && kds.OfMachine() && kds.Exact(lo, hi)
      invariant i == 0 ==> kds.size == 0
      invariant |kds.owner| + TotalPages(calls[i..]) == TotalPages(calls)
      invariant i > 0 ==> |kds.owner| <= hi - lo
    {
      ghost var n := PagesFor(calls[i]);
      kds.QuotaNeverRefuses(n);
      RunsOfInterval(kds.frames.table[..], lo + |kds.owner|, hi, n);
      assert calls[i..][1..] == calls[i + 1..];
      var r := kds.Sbrk(calls[i]);
      if r == -1 {
        return false;
      }
      i := i + 1;
    }
    return true;
  }

  /** The chain after kmallocs of these sizes, all served. */
  function Grown(c: Chain, sizes: seq<nat>): Chain
    decreases sizes
  {
    if sizes == [] then c else Grown(Kmalloc(c, sizes[0], true).0, sizes[1..])
  }

  lemma {:induction false} GrownPages(c: Chain, sizes: seq<nat>)
    requires Inv(c) && forall i | 0 <= i < |sizes| :: sizes[i] > 0
    ensures Grown(c, sizes).pages >= c.pages
    decreases sizes
  {
    if sizes != [] {
      KmallocKeepsInv(c, sizes[0], true);
      PagesNeededExactly(c, sizes[0]);
      GrownPages(Kmalloc(c, sizes[0], true).0, sizes[1..]);
    }
  }

  /** A kmalloc that succeeds is one that is granted what it needs; one that fails needs pages. */
  lemma ServedAsGranted(c: Chain, size: nat, granted: bool)
    requires Inv(c) && size > 0
    ensures var (d, p) := Kmalloc(c, size, granted);
            && PagesNeeded(c, size) >= 0
            && (p != 0 ==> (d, p) == Kmalloc(c, size, true) && (granted || d.pages == c.pages))
            && (p == 0 ==> !granted && PagesNeeded(c, size) > 0
                           && Kmalloc(c, size, true).0.pages == c.pages + PagesNeeded(c, size))
            && c.pages <= Kmalloc(c, size, true).0.pages <= c.pages + PagesNeeded(c, size)
  {
    PagesNeededExactly(c, size);
    NullExactly(c, size, granted);
  }

  /** The heap keeps below 2^31, either because all sizes together do or because the frames do. */
  ghost predicate SizesInRange(free: int, c: Chain, sizes: seq<nat>) {
    || Limit(Grown(c, sizes)) < 0x8000_0000
    || (free <= 0x7_0000 && forall i | 0 <= i < |sizes| :: HEADER + sizes[i] < 0x7FFF_0000)
  }

  lemma NextInRange(h: Heap, lo: int, hi: int, sizes: seq<nat>)
    requires h.Valid() && h.kds.OfMachine() && h.kds.Exact(lo, hi) && (h.first != 0 ==> h.chain.pages + 1 <= hi - lo)
    requires sizes != [] && (forall i | 0 <= i < |sizes| :: sizes[i] > 0) && SizesInRange(hi - lo, h.chain, sizes)
    ensures h.Reachable(sizes[0])
  {
    hide HeapMapped, Stored, Heap.CanGrow, Heap.CanGrowSetUp, Kds.Exact, Kds.Affordable;
    var (c, n) := (h.chain, PagesNeeded(h.chain, sizes[0]));
    h.ChainInv();
    PagesNeededExactly(c, sizes[0]);
    GrowthExactly(h, lo, hi, n);
    KmallocKeepsInv(c, sizes[0], true);
    GrownPages(Kmalloc(c, sizes[0], true).0, sizes[1..]);
    TopAbove(c.blocks);
    ServedAsGranted(c, sizes[0], true);
    assert BestFit(c.blocks, sizes[0]) == -1 ==> Kmalloc(c, sizes[0], true).0.pages == c.pages + n;
    assert Grown(c, sizes).pages >= Kmalloc(c, sizes[0], true).0.pages;
    assert HEADER + sizes[0] < 0x7FFF_0000 ==> n < 0x8_0000;
  }

  /**
   kmallocs of any sizes from boot: all are served if and only if the frames that boot leaves
   suffice for the pages of the chain that they build, and one for the page record.
   */
  method KmallocRun(mapLength: Word, ram: Ram, sizes: seq<nat>) returns (h: Heap, ok: bool)
    requires forall i | 0 <= i < |sizes| :: sizes[i] > 0
    requires SizesInRange(FramesFree(mapLength), FRESH, sizes)
    ensures h.Valid() && (ok <==> sizes == [] || Grown(FRESH, sizes).pages + 1 <= FramesFree(mapLength))
    ensures ok ==> h.chain == Grown(FRESH, sizes)
  {
    hide HeapMapped, Stored, Inv, Kmalloc, PagesNeeded, BestFit, FrameCount, Heap.CanGrow, Heap.CanGrowSetUp, Heap.Physical,
      Heap.AsBooted, Heap.Reachable, Kds.Exact, Kds.OfMachine, RamKept, PayloadsKept;
    h := Start(mapLength, ram, 0);
    ghost var lo, hi := FreeFrom(FrameCount(mapLength)), FreeTo(FrameCount(mapLength));
    StartIsExact(h, mapLength);
    var i := 0;
    while i < |sizes|
      invariant 0 <= i <= |sizes| && h.Valid() && h.kds.OfMachine() && h.kds.Exact(lo, hi)
      invariant if i == 0 then h.first == 0 else h.first != 0 && h.chain.pages + 1 <= hi - lo
      invariant SizesInRange(hi - lo, h.chain, sizes[i..])
      invariant Grown(h.chain, sizes[i..]) == Grown(FRESH, sizes)
    {
      ghost var c, n := h.chain, PagesNeeded(h.chain, sizes[i]);
      ghost var rest := sizes[i..];
      assert rest[0] == sizes[i] && rest[1..] == sizes[i + 1..];
      h.ChainInv();
      NextInRange(h, lo, hi, rest);
      GrowthExactly(h, lo, hi, n);
      KmallocKeepsInv(c, sizes[i], true);
      GrownPages(Kmalloc(c, sizes[i], true).0, rest[1..]);
      var p, granted := h.Kmalloc(sizes[i]);
      ServedAsGranted(c, sizes[i], granted);
      if p == NULL {
        return h, false;
      }
      i := i + 1;
    }
    return h, true;
  }

  lemma StartIsExact(h: Heap, mapLength: Word)
    requires JustBooted(h, mapLength)
    ensures h.kds.OfMachine() && h.kds.Exact(FreeFrom(FrameCount(mapLength)), FreeTo(FrameCount(mapLength)))
  {
  }

  // ------------------------------------------------------------------ all the memory

  /** Pages of the heap after `k` blocks of 10 MB, the first page included. */
  function AllPages(k: nat): int { 2560 * k + k / 256 + 1 }

  lemma TenMegabytes(k: nat, pages: int, end: int)
    requires end == START + k * 0xA0_0010 && START + pages * 0x1000 - 0x1000 <= end < START + pages * 0x1000
    ensures pages == AllPages(k)
  {
    assert k * 0xA0_0010 == 0x1000 * (2560 * k + k / 256) + 16 * (k % 256);
  }

  /** Nothing is free and the heap holds `k` blocks of 10 MB. */
  ghost predicate Filled10(c: Chain, k: nat) {
    && Inv(c) && Top(c.blocks) == START + k * 0xA0_0010 && (forall j | 0 <= j < |c.blocks| :: !c.blocks[j].free)
    && (if k == 0 then c == FRESH else c.pages == AllPages(k))
  }

  lemma FillNext(c: Chain, k: nat, granted: bool)
    requires Filled10(c, k)
    ensures var (d, p) := Kmalloc(c, 0xA0_0000, granted);
            && c.pages + PagesNeeded(c, 0xA0_0000) == AllPages(k + 1) && PagesNeeded(c, 0xA0_0000) > 0
            && (p != 0 <==> granted) && (granted ==> Filled10(d, k + 1))
  {
    KmallocKeepsInv(c, 0xA0_0000, granted);
    AppendingKmalloc(c, 0xA0_0000, granted);
    PagesNeededExactly(c, 0xA0_0000);
    TopAbove(c.blocks);
    TenMegabytes(k + 1, c.pages + PagesNeeded(c, 0xA0_0000), Top(c.blocks) + 16 + 0xA0_0000);
  }

  /** kmalloc of 10 MB until it fails: exactly as many blocks as the frames that boot leaves can hold. */
  method TestAllocAllMemory(mapLength: Word, ram: Ram) returns (count: nat)
    requires FramesFree(mapLength) <= 0x7_0000
    ensures count > 0 ==> AllPages(count) + 1 <= FramesFree(mapLength)
    ensures AllPages(count + 1) + 1 > FramesFree(mapLength)
  {
    hide HeapMapped, Stored, Inv, Kmalloc, PagesNeeded, BestFit, FrameCount, Heap.CanGrow, Heap.CanGrowSetUp, Heap.Physical,
      Heap.AsBooted, Heap.Reachable, Kds.Exact, Kds.OfMachine, RamKept, PayloadsKept, Filled10;
    var h := Start(mapLength, ram, 0);
    ghost var lo, hi := FreeFrom(FrameCount(mapLength)), FreeTo(FrameCount(mapLength));
    StartIsExact(h, mapLength);
    FillFirst();
    count := 0;
    while true
      invariant h.Valid() && h.kds.OfMachine() && h.kds.Exact(lo, hi) && Filled10(h.chain, count)
      invariant if count == 0 then h.first == 0 else h.first != 0 && AllPages(count) + 1 <= hi - lo
      decreases hi - lo - 2560 * count
    {
      ghost var c := h.chain;
      FilledPages(c, count);
      FillNext(c, count, true);
      GrowthExactly(h, lo, hi, PagesNeeded(c, 0xA0_0000));
      NextInRange(h, lo, hi, [0xA0_0000]);
      var p, granted := h.Kmalloc(0xA0_0000);
      FillNext(c, count, granted);
      if p == NULL {
        return;
      }
      count := count + 1;
    }
  }

  lemma FillFirst()
    ensures Filled10(FRESH, 0)
  {
  }

  lemma FilledPages(c: Chain, k: nat)
    requires Filled10(c, k)
    ensures c.pages == if k == 0 then 1 else AllPages(k)
  {
  }

  /** With half a gigabyte that is 49 blocks. */
  method HalfGigabyteFilled(ram: Ram) returns (count: nat)
    ensures count == 49
  {
    HalfGigabyte(1);
    count := TestAllocAllMemory(0x2000_0000, ram);
  }

  // --------------------------------------------------------------- freeing everything

  /** Pages once given back are lost: with fewer pages in use than were ever mapped, the break cannot move up. */
  lemma ShrunkHeapCannotGrow(h: Heap, n: int)
    requires h.Valid() && h.first != 0 && h.chain.pages + 1 < |h.kds.owner|
    ensures !h.CanGrow(n)
  {
    hide HeapMapped, Stored;
    PageRecord(h.mem, h.chain);
    assert PagesFor(8 + h.chain.pages * 0x1000) == h.chain.pages + 1;
  }

  /** Freeing a list of pointers, one after the other. */
  method FreeAll(h: Heap, ptrs: seq<int>)
    requires h.Valid() && h.Ready()
    modifies h.Repr()
    ensures h.Valid() && h.Ready() && h.chain == Run(old(h.chain), Frees(ptrs))
  {
    hide Free, HeapMapped, Stored, Inv, Heap.CanGrow;
    var i := 0;
    while i < |ptrs|
      invariant 0 <= i <= |ptrs| && h.Valid() && h.Ready()
      invariant Run(h.chain, Frees(ptrs[i..])) == Run(old(h.chain), Frees(ptrs))
    {
      assert Frees(ptrs[i..])[1..] == Frees(ptrs[i + 1..]);
      var _ := h.Free(ptrs[i]);
      i := i + 1;
    }
  }

  /** A request that is exact in 32 bits on an empty heap, where no pointer names a block. */
  predicate Modest(q: Request) {
    match q
    case KmallocReq(size) => HEADER + size < 0x7FFF_F000
    case FreeReq(_) => true
    case ReallocReq(ptr, size) => HEADER + size < 0x7FFF_F000 && (ptr == 0 || size == 0)
  }

  /** This is the condition under which the code asks for enough pages. */
  lemma ModestExactly(size: Word)
    ensures Modest(KmallocReq(size)) <==> START + BytesAsked(START, START, size) >= START + HEADER + size
  {
    AskedIsEnough(START, START, size);
  }

  lemma EmptyHeapServes(h: Heap, q: Request)
    requires h.Valid() && h.first != 0 && h.chain == Chain([], 0) && Modest(q)
    ensures Answerable(h, q) && Effect(h.chain, AsOp(q, false)) == (h.chain, NULL)
    ensures !q.FreeReq? ==> !h.CanGrow(PagesNeeded(h.chain, q.size))
  {
    hide HeapMapped, Stored, Heap.CanGrow;
    if !q.FreeReq? { ShrunkHeapCannotGrow(h, PagesNeeded(h.chain, q.size)); }
  }

  /** On a heap that has been emptied every request returns NULL and changes nothing, however many follow. */
  method LaterRequests(h: Heap, qs: seq<Request>) returns (ps: seq<int>)
    requires h.Valid() && h.first != 0 && h.chain == Chain([], 0) && forall i | 0 <= i < |qs| :: Modest(qs[i])
    modifies h.Repr()
    ensures h.Valid() && h.first != 0 && Emptied(h)
    ensures |ps| == |qs| && forall i | 0 <= i < |ps| :: ps[i] == NULL
  {
    hide HeapMapped, Stored, Answerable, Effect, Heap.CanGrow, Heap.Physical, PayloadsKept;
    ps := [];
    while |ps| < |qs|
      invariant |ps| <= |qs| && h.Valid() && h.first != 0 && h.chain == Chain([], 0)
      invariant forall i | 0 <= i < |ps| :: ps[i] == NULL
    {
      var q := qs[|ps|];
      EmptyHeapServes(h, q);
      var p, granted := Serve(h, q);
      ps := ps + [p];
    }
    PageRecord(h.mem, h.chain);
  }

  /** No block, no page, and of the segment the page record alone. */
  ghost predicate Emptied(h: Heap)
    reads h, h.kds
  {
    h.chain == Chain([], 0) && h.kds.size == |h.mem| == PAGE_INFOS && Load(h.mem, HEAP_BASE) == 0
  }

  /**
   Once a heap that has been used is freed completely, the segment is back to the page
   record alone, and every later request returns NULL, for every size and however many
   frames are free.
   */
  method FreeAllThenKmalloc(h: Heap, ptrs: seq<int>, qs: seq<Request>) returns (ps: seq<int>)
    requires h.Valid() && h.first != 0 && Settled(h.chain)
    requires forall b | b in LiveBlocks(h.chain.blocks) :: b.Begin() in ptrs
    requires forall i | 0 <= i < |qs| :: Modest(qs[i])
    modifies h.Repr()
    ensures h.Valid() && Emptied(h)
    ensures |ps| == |qs| && forall i | 0 <= i < |ps| :: ps[i] == NULL
  {
    hide HeapMapped, Stored, Emptied;
    FreeAllEmpties(h.chain, ptrs);
    FreeAll(h, ptrs);
    ps := LaterRequests(h, qs);
  }

  // ---------------------------------------------------------------- from boot to the end

  /** Whatever the program has been given, all blocks live at its end are among the pointers freed. */
  ghost predicate FreesLive(client: Client, n: nat, order: seq<int> -> seq<int>) {
    forall ops, b | |ops| == n && Plays(FRESH, client, [], ops) && b in LiveBlocks(Run(FRESH, ops).blocks) ::
      b.Begin() in order(Results(FRESH, ops))
  }

  /** For instance all pointers returned, in any order and with any others in between. */
  lemma AllReturnedFreesLive(client: Client, n: nat, order: seq<int> -> seq<int>)
    requires forall rs, p | p in rs :: p in order(rs)
    ensures FreesLive(client, n, order)
  {
    forall ops, b | |ops| == n && Plays(FRESH, client, [], ops) && b in LiveBlocks(Run(FRESH, ops).blocks)
      ensures b.Begin() in order(Results(FRESH, ops))
    {
      LiveAreResults(FRESH, ops, b);
    }
  }

  /** On a heap that cannot be set up every kmalloc returns NULL, however many follow; a free would dereference NULL. */
  method NeverSetUp(h: Heap, sizes: seq<nat>) returns (ps: seq<int>)
    requires h.Valid() && !h.Ready() && forall i | 0 <= i < |sizes| :: HEADER + sizes[i] < 0x7FFF_F000
    modifies h.Repr()
    ensures h.Valid() && !h.Ready() && |ps| == |sizes| && forall i | 0 <= i < |ps| :: ps[i] == NULL
  {
    hide HeapMapped, Stored, Inv, Kmalloc, BestFit, Heap.CanGrow, Heap.Physical, RamKept, PayloadsKept;
    ps := [];
    while |ps| < |sizes|
      invariant |ps| <= |sizes| && h.Valid() && !h.Ready()
      invariant forall i | 0 <= i < |ps| :: ps[i] == NULL
    {
      FreshLimit(sizes[|ps|]);
      var p, _ := h.Kmalloc(sizes[|ps|]);
      ps := ps + [p];
    }
  }

  /**
   Boot, any program, then every live pointer freed in any order, then any further requests.
   If any call of the program returned a block, the heap ends up empty, down to the page
   record, and all further requests return NULL. With fewer than two unused frames the heap
   cannot be set up, see NeverSetUp.
   */
  method RunThenFree(mapLength: Word, ram: Ram, client: Client, n: nat, order: seq<int> -> seq<int>, qs: seq<Request>)
    returns (h: Heap, rs: seq<int>, ps: seq<int>, ghost ops: seq<Op>)
    requires FramesFree(mapLength) >= 2 && AllServable(FRESH, client, [], n) && FreesLive(client, n, order)
    requires forall i | 0 <= i < |qs| :: Modest(qs[i])
    ensures h.Valid() && |ops| == n && Plays(FRESH, client, [], ops) && rs == Results(FRESH, ops)
    ensures (exists p :: p in rs && p != NULL) ==>
              Emptied(h) && |ps| == |qs| && forall i | 0 <= i < |ps| :: ps[i] == NULL
  {
    hide HeapMapped, Stored, FramesFree, AllServable, Plays, Run, Results, Emptied, Modest, Heap.Physical, Heap.AsBooted;
    h := Start(mapLength, ram, 0);
    FirstGrowth(h, mapLength, 1);
    rs, ops := Execute(h, client, [], n);
    ps := [];
    AllocatesExactly(FRESH, ops);
    RunKeepsInv(FRESH, ops);
    if exists p :: p in rs && p != NULL {
      assert Allocates(FRESH, ops);
      forall b | b in LiveBlocks(h.chain.blocks)
        ensures b.Begin() in order(rs)
      {
      }
      ps := FreeAllThenKmalloc(h, order(rs), qs);
    }
  }

  /**
   kmalloc, sbrk(0), free, sbrk(0) on a machine just booted, with any amount of memory and
   any size, and any later requests: when the first kmalloc succeeds, the break comes back to
   one page, and no later request is ever served.
   */
  method KmallocSbrkTest(mapLength: Word, ram: Ram, size: int, qs: seq<Request>)
    returns (p: int, used: int, freed: int, ps: seq<int>)
    requires 0 < size && FirstInRange(mapLength, size) && forall i | 0 <= i < |qs| :: Modest(qs[i])
    ensures p != NULL <==> FramesFree(mapLength) >= 2 + PagesNeeded(FRESH, size)
    ensures p != NULL ==> used == HEAP_BASE + (2 + PagesNeeded(FRESH, size)) * 0x1000
    ensures p != NULL ==> freed == HEAP_BASE + 0x1000 && |ps| == |qs| && forall i | 0 <= i < |ps| :: ps[i] == NULL
  {
    hide HeapMapped, Stored, Inv, LiveBlocks, Kmalloc, PagesNeeded, FramesFree, FirstInRange, Modest,
      Heap.CanGrow, Heap.Physical, Heap.AsBooted;
    used, freed, ps := 0, 0, [];
    var h;
    h, p := FirstKmalloc(mapLength, ram, 0, size);
    if p == NULL {
      return;
    }
    FirstBlock(size);
    PageRecord(h.mem, h.chain);
    LimitPages(h.chain.pages);
    used := h.kds.Sbrk(0);
    ps := FreeAllThenKmalloc(h, [p], qs);
    freed := h.kds.Sbrk(0);
  }

  /** The first kmalloc on a fresh heap. */
  lemma FirstBlock(size: int)
    requires 0 < size
    ensures var (c, p) := Kmalloc(FRESH, size, true);
            && Inv(c) && Settled(c) && (forall b | b in LiveBlocks(c.blocks) :: b.Begin() in [p])
            && c.pages == 1 + PagesNeeded(FRESH, size)
  {
    KmallocKeepsInv(FRESH, size, true);
    KmallocGrants(FRESH, size, true);
  }

  /** On a machine with half a gigabyte all of this happens, for every first size below 496 MB. */
  method HalfGigabyteTest(ram: Ram, size: int, qs: seq<Request>) returns (p: int, used: int, freed: int, ps: seq<int>)
    requires 0 < size < 0x1F00_0000 && forall i | 0 <= i < |qs| :: Modest(qs[i])
    ensures p != NULL && freed == HEAP_BASE + 0x1000 && |ps| == |qs| && forall i | 0 <= i < |ps| :: ps[i] == NULL
  {
    HalfGigabyte(size);
    p, used, freed, ps := KmallocSbrkTest(0x2000_0000, ram, size, qs);
  }

  // ---------------------------------------------------------- with addresses in the records

  /**
   Had boot stored the frames' addresses, every heap byte would lie in physical memory at or
   above `end`, after any calls: with the end of the metadata for `end`, clear of the kernel,
   the page tables and the frame records. See Storage.AddressedBoot for when boot gives that.
   */
  lemma HeapAbove(h: Heap, end: int, a: int)
    requires h.Valid() && h.Apart(end) && HEAP_BASE <= a < HEAP_BASE + |h.mem|
    ensures |h.kds.Memory().dir| == DIR_ENTRIES && |h.kds.Memory().low| == LOW_WORDS
    ensures var t := Translate(h.kds.Memory().dir, h.kds.Memory().low, a); t.At? && t.paddr >= end
  {
    hide HeapMapped, Translate, Stored, Inv;
    HeapBytesMapped(h, a);
    AlignedAddress(h.kds.owner[(a - HEAP_BASE) / 0x1000]);
  }
}
