/** The kernel data segment: sbrk over the page tables and the frame allocator. */
module KernelData {
  import opened Machine
  import opened Frames
  import opened Paging
  import opened Boot
  import opened AddressSpaces

  /** The first heap page, and the number of pages between it and the kernel. */
  const BASE_PAGE: int := 0x8000
  const HEAP_PAGES: int := 0xB_8000

  /** Table word of the first heap page. */
  const HEAP_SLOT: int := 0x10_8000

  // ------------------------------------------------------------ break arithmetic

  /** Size of the segment, and how many heap pages are present. */
  datatype Break = Break(size: int, mapped: int)

  /** One sbrk; `frames` tells whether the quota and the free frames suffice. */
  datatype Call = Call(bytes: int, frames: bool)

  /** get_kds_end_addr. */
  function EndAddress(size: int): int
    requires 0 <= size
  {
    HEAP_BASE + PagesFor(size) * 0x1000
  }

  predicate Legal(b: Break, call: Call) { 0 <= b.size && 0 <= b.size + call.bytes }

  function Moved(b: Break, call: Call): Break
    requires Legal(b, call)
  {
    if call.bytes <= 0 then b.(size := b.size + call.bytes)
    else if call.frames && PagesFor(b.size) == b.mapped then Break(b.size + call.bytes, b.mapped + PagesFor(call.bytes))
    else b
  }

  predicate LegalRun(b: Break, calls: seq<Call>)
    decreases calls
  {
    calls == [] || (Legal(b, calls[0]) && LegalRun(Moved(b, calls[0]), calls[1..]))
  }

  function RunCalls(b: Break, calls: seq<Call>): (b': Break)
    requires 0 <= b.size && LegalRun(b, calls)
    ensures 0 <= b'.size
    decreases calls
  {
    if calls == [] then b else RunCalls(Moved(b, calls[0]), calls[1..])
  }

  /** Page counts add up exactly when a page boundary or a carry separates the two amounts. */
  lemma PagesAdd(a: nat, b: nat)
    ensures PagesFor(a + b) == PagesFor(a) + PagesFor(b) <==>
            a % 0x1000 == 0 || b % 0x1000 == 0 || a % 0x1000 + b % 0x1000 > 0x1000
    ensures PagesFor(a + b) <= PagesFor(a) + PagesFor(b)
  {
    assert a + b == 0x1000 * (a / 0x1000 + b / 0x1000) + a % 0x1000 + b % 0x1000;
  }

  /**
   As long as nothing is given back and all calls but the first ask for whole pages, the
   pages present are exactly those that hold the segment.
   */
  lemma {:induction false} GrowingRunIsExact(b: Break, calls: seq<Call>)
    requires 0 <= b.size && b.mapped == PagesFor(b.size) && LegalRun(b, calls)
    requires forall i | 0 <= i < |calls| :: calls[i].bytes >= 0
    requires forall i | 0 <= i < |calls| && (i > 0 || b.size % 0x1000 != 0) :: calls[i].bytes % 0x1000 == 0
    ensures RunCalls(b, calls).mapped == PagesFor(RunCalls(b, calls).size)
    decreases calls
  {
    if calls != [] {
      PagesAdd(b.size, calls[0].bytes);
      GrowingRunIsExact(Moved(b, calls[0]), calls[1..]);
    }
  }

  /** Giving back a page or more leaves more pages present than the segment needs. */
  lemma ReleaseLeavesPages(b: Break, call: Call)
    requires Legal(b, call) && PagesFor(b.size) <= b.mapped && call.bytes <= -0x1000
    ensures PagesFor(Moved(b, call).size) < Moved(b, call).mapped
  {
  }

  /** And from then on the segment never grows again, whatever is asked and however many frames are free. */
  lemma {:induction false} NeverGrowsAgain(b: Break, calls: seq<Call>)
    requires 0 <= b.size && PagesFor(b.size) < b.mapped && LegalRun(b, calls)
    ensures RunCalls(b, calls).mapped == b.mapped && RunCalls(b, calls).size <= b.size
    decreases calls
  {
    if calls != [] {
      PagesMonotonic(Moved(b, calls[0]).size, b.size);
      NeverGrowsAgain(Moved(b, calls[0]), calls[1..]);
    }
  }

  lemma PagesMonotonic(a: nat, b: nat)
    requires a <= b
    ensures PagesFor(a) <= PagesFor(b)
  {
  }

  // ------------------------------------------------------------------ heap pages

  /**
   The heap pages present are the first |owner| ones. Each is mapped to its own frame
   record, and that record is the only one that names it.
   */
  ghost predicate HeapMapped(m: Memory, owner: seq<nat>) {
    && Layout(m.dir, m.low) && |owner| <= HEAP_PAGES
    && (forall d | 32 <= d < KERNEL_INDEX :: !m.dir[d].Large() && (m.dir[d].flags.pres ==> m.dir[d].flags.rw))
    && (forall s | HEAP_SLOT <= s < HEAP_SLOT + HEAP_PAGES :: m.low[s].flags.pres <==> s < HEAP_SLOT + |owner|)
    && (forall p | 0 <= p < |owner| :: PageOwned(m, p, owner[p]))
    && (forall j | 0 <= j < |m.table| && HEAP_BASE <= m.table[j].vaddr < SYSTEM_BASE :: OwnsHeapPage(m, owner, j))
  }

  /** Heap page `p` is mapped to frame record `j`, and `j` says so. */
  ghost predicate PageOwned(m: Memory, p: int, j: nat)
    requires |m.dir| == DIR_ENTRIES && |m.low| == LOW_WORDS && 0 <= p < HEAP_PAGES
  {
    && j < |m.table| && m.dir[(BASE_PAGE + p) / 1024].flags.pres && m.dir[(BASE_PAGE + p) / 1024].flags.rw
    && m.low[HEAP_SLOT + p] == Entry(PRES_RW, 0, m.table[j].addr / 0x1000)
    && m.table[j].vaddr == HEAP_BASE + p * 0x1000 && m.table[j].refCount >= 1
  }

  ghost predicate OwnsHeapPage(m: Memory, owner: seq<nat>, j: nat)
    requires j < |m.table|
  {
    OwnedAt(owner, m.table[j].vaddr, j)
  }

  ghost predicate OwnedAt(owner: seq<nat>, vaddr: int, j: nat) {
    0 <= (vaddr - HEAP_BASE) / 0x1000 < |owner| && owner[(vaddr - HEAP_BASE) / 0x1000] == j
  }

  /** The pages that the next growth maps, and their frames. */
  function Growth(mapped: nat, f: nat): Range
  {
    Range(BASE_PAGE + mapped, HEAP_BASE + mapped * 0x1000, f, PRES_RW)
  }

  function NewOwners(f: nat, n: nat): (r: seq<nat>)
    ensures |r| == n
  {
    seq(n, i requires 0 <= i < n => f + i)
  }

  /** Setting the counts of unused frames does not disturb the heap pages. */
  lemma CountsKeepHeap(m: Memory, owner: seq<nat>, f: nat, n: nat)
    requires HeapMapped(m, owner) && UnusedRun(m.table, f, n)
    ensures HeapMapped(m.(table := WithCounts(m.table, f, n, 1)), owner)
  {
    var m' := m.(table := WithCounts(m.table, f, n, 1));
    forall p | 0 <= p < |owner|
      ensures PageOwned(m', p, owner[p])
    {
      assert PageOwned(m, p, owner[p]);
    }
    forall j | 0 <= j < |m'.table| && HEAP_BASE <= m'.table[j].vaddr < SYSTEM_BASE
      ensures OwnsHeapPage(m', owner, j)
    {
      assert OwnsHeapPage(m, owner, j);
    }
  }

  lemma HeapLayout(m: Memory, owner: seq<nat>)
    requires HeapMapped(m, owner)
    ensures Layout(m.dir, m.low) && |owner| <= HEAP_PAGES
  {
  }

  lemma HeapDirectory(m: Memory, owner: seq<nat>, d: int)
    requires HeapMapped(m, owner) && 32 <= d < KERNEL_INDEX
    ensures |m.dir| == DIR_ENTRIES && !m.dir[d].Large() && (m.dir[d].flags.pres ==> m.dir[d].flags.rw)
  {
  }

  /** The pages right after the mapped ones are free for map_pages. */
  lemma {:induction false} NextPagesFree(m: Memory, owner: seq<nat>, p: nat, n: nat)
    requires HeapMapped(m, owner) && |owner| <= p && p + n <= HEAP_PAGES
    ensures FreePrefix(m.dir, m.low, BASE_PAGE + p, n) == n
    decreases n
  {
    if n > 0 {
      assert !m.low[HEAP_SLOT + p].flags.pres && 32 <= (BASE_PAGE + p) / 1024 < KERNEL_INDEX;
      NextPagesFree(m, owner, p + 1, n - 1);
    }
  }

  /** Frame records `f`.. have just been taken by alloc_frames and name no heap page. */
  ghost predicate NewlyTaken(m: Memory, f: nat, n: nat) {
    && f + n <= |m.table|
    && forall j | f <= j < f + n :: m.table[j].refCount == 1 && !(HEAP_BASE <= m.table[j].vaddr < SYSTEM_BASE)
  }

  /** Growing by `n` pages over frames `f`.. maps exactly those pages. */
  lemma GrowthMaps(m: Memory, owner: seq<nat>, f: nat, n: nat)
    requires HeapMapped(m, owner) && |owner| + n <= HEAP_PAGES
    requires NewlyTaken(m, f, n)
    ensures var res := MapPages(m, Growth(|owner|, f), n);
            res.ok && HeapMapped(res.memory, owner + NewOwners(f, n))
  {
    hide MapPages;
    var r, owner' := Growth(|owner|, f), owner + NewOwners(f, n);
    var m' := MapPages(m, r, n).memory;
    NextPagesFree(m, owner, |owner|, n);
    MapPagesCount(m, r, n);
    MapPagesKeepsLayout(m, r, n);
    GrowthDirectory(m, owner, f, n);
    GrowthTables(m, owner, f, n);
    forall p | 0 <= p < |owner'|
      ensures PageOwned(m', p, owner'[p])
    {
      if p < |owner| { OldPage(m, owner, f, n, p); } else { NewPage(m, owner, f, n, p); }
    }
    GrowthRecords(m, owner, f, n);
  }

  lemma GrowthDirectory(m: Memory, owner: seq<nat>, f: nat, n: nat)
    requires HeapMapped(m, owner) && |owner| + n <= HEAP_PAGES && NewlyTaken(m, f, n)
    ensures var m' := MapPages(m, Growth(|owner|, f), n).memory;
            forall d | 32 <= d < KERNEL_INDEX :: !m'.dir[d].Large() && (m'.dir[d].flags.pres ==> m'.dir[d].flags.rw)
  {
    hide MapPages, HeapMapped;
    HeapLayout(m, owner);
    var r := Growth(|owner|, f);
    var m' := MapPages(m, r, n).memory;
    forall d | 32 <= d < KERNEL_INDEX
      ensures !m'.dir[d].Large() && (m'.dir[d].flags.pres ==> m'.dir[d].flags.rw)
    {
      HeapDirectory(m, owner, d);
      MapPagesDir(m, r, n, d);
    }
  }

  lemma GrowthTables(m: Memory, owner: seq<nat>, f: nat, n: nat)
    requires HeapMapped(m, owner) && |owner| + n <= HEAP_PAGES && NewlyTaken(m, f, n)
    ensures var low := MapPages(m, Growth(|owner|, f), n).memory.low;
            forall s | HEAP_SLOT <= s < HEAP_SLOT + HEAP_PAGES :: low[s].flags.pres <==> s < HEAP_SLOT + |owner| + n
  {
    hide MapPages;
    var r := Growth(|owner|, f);
    NextPagesFree(m, owner, |owner|, n);
    MapPagesCount(m, r, n);
    forall s | HEAP_SLOT <= s < HEAP_SLOT + HEAP_PAGES
      ensures MapPages(m, r, n).memory.low[s].flags.pres <==> s < HEAP_SLOT + |owner| + n
    {
      MapPagesEntry(m, r, n, s);
    }
  }

  lemma GrowthRecords(m: Memory, owner: seq<nat>, f: nat, n: nat)
    requires HeapMapped(m, owner) && |owner| + n <= HEAP_PAGES && NewlyTaken(m, f, n)
    ensures var m' := MapPages(m, Growth(|owner|, f), n).memory;
            forall j | 0 <= j < |m'.table| && HEAP_BASE <= m'.table[j].vaddr < SYSTEM_BASE ::
              OwnsHeapPage(m', owner + NewOwners(f, n), j)
  {
    var r := Growth(|owner|, f);
    var m' := MapPages(m, r, n).memory;
    forall j | 0 <= j < |m'.table| && HEAP_BASE <= m'.table[j].vaddr < SYSTEM_BASE
      ensures OwnsHeapPage(m', owner + NewOwners(f, n), j)
    {
      MapPagesFrame(m, r, n, j);
      if f <= j < f + n { NewRecord(m, owner, f, n, j); } else { OldRecord(m, owner, f, n, j); }
    }
  }

  lemma NewRecord(m: Memory, owner: seq<nat>, f: nat, n: nat, j: nat)
    requires HeapMapped(m, owner) && |owner| + n <= HEAP_PAGES && NewlyTaken(m, f, n) && f <= j < f + n
    ensures OwnsHeapPage(MapPages(m, Growth(|owner|, f), n).memory, owner + NewOwners(f, n), j)
  {
    hide MapPages, HeapMapped;
    var p := |owner| + j - f;
    HeapLayout(m, owner);
    NextPagesFree(m, owner, |owner|, n);
    MapPagesCount(m, Growth(|owner|, f), n);
    MapPagesFrame(m, Growth(|owner|, f), n, j);
    assert (owner + NewOwners(f, n))[p] == j;
    assert MapPages(m, Growth(|owner|, f), n).memory.table[j].vaddr == HEAP_BASE + p * 0x1000;
  }

  lemma OldRecord(m: Memory, owner: seq<nat>, f: nat, n: nat, j: nat)
    requires HeapMapped(m, owner) && |owner| + n <= HEAP_PAGES && NewlyTaken(m, f, n) && j < |m.table|
    requires !(f <= j < f + n)
    requires HEAP_BASE <= m.table[j].vaddr < SYSTEM_BASE
    ensures MapPages(m, Growth(|owner|, f), n).memory.table[j] == m.table[j]
    ensures OwnsHeapPage(MapPages(m, Growth(|owner|, f), n).memory, owner + NewOwners(f, n), j)
  {
    NextPagesFree(m, owner, |owner|, n);
    MapPagesCount(m, Growth(|owner|, f), n);
    MapPagesFrame(m, Growth(|owner|, f), n, j);
    OwnedAtExtends(owner, NewOwners(f, n), m.table[j].vaddr, j);
  }

  lemma OwnedAtExtends(owner: seq<nat>, more: seq<nat>, vaddr: int, j: nat)
    requires OwnedAt(owner, vaddr, j)
    ensures OwnedAt(owner + more, vaddr, j)
  {
  }

  lemma OldPage(m: Memory, owner: seq<nat>, f: nat, n: nat, p: nat)
    requires HeapMapped(m, owner) && |owner| + n <= HEAP_PAGES && p < |owner|
    requires NewlyTaken(m, f, n)
    ensures PageOwned(MapPages(m, Growth(|owner|, f), n).memory, p, owner[p])
  {
    var r := Growth(|owner|, f);
    assert PageOwned(m, p, owner[p]);
    MapPagesFrame(m, r, n, owner[p]);
    MapPagesEntry(m, r, n, HEAP_SLOT + p);
    MapPagesDir(m, r, n, (BASE_PAGE + p) / 1024);
  }

  lemma NewPage(m: Memory, owner: seq<nat>, f: nat, n: nat, p: nat)
    requires HeapMapped(m, owner) && |owner| + n <= HEAP_PAGES && |owner| <= p < |owner| + n
    requires NewlyTaken(m, f, n)
    ensures PageOwned(MapPages(m, Growth(|owner|, f), n).memory, p, f + p - |owner|)
  {
    hide HeapMapped, MapPages;
    var r := Growth(|owner|, f);
    HeapLayout(m, owner);
    HeapDirectory(m, owner, (BASE_PAGE + p) / 1024);
    NextPagesFree(m, owner, |owner|, n);
    MapPagesCount(m, r, n);
    MapPagesFrame(m, r, n, f + p - |owner|);
    MappedEntry(m, r, n, BASE_PAGE + p);
  }

  /** The memory once alloc_frames has taken `n` frames from `f`. */
  function Taken(m: Memory, f: int, n: int): Memory { m.(table := WithCounts(m.table, f, n, 1)) }

  lemma HeapRecordInUse(m: Memory, owner: seq<nat>, j: nat)
    requires HeapMapped(m, owner) && j < |m.table|
    ensures HEAP_BASE <= m.table[j].vaddr < SYSTEM_BASE ==> m.table[j].refCount >= 1
  {
    if HEAP_BASE <= m.table[j].vaddr < SYSTEM_BASE {
      assert OwnsHeapPage(m, owner, j);
      assert PageOwned(m, (m.table[j].vaddr - HEAP_BASE) / 0x1000, j);
    }
  }

  lemma GrowthSucceeds(m: Memory, owner: seq<nat>, f: nat, n: nat)
    requires HeapMapped(m, owner) && UnusedRun(m.table, f, n) && |owner| + n <= HEAP_PAGES
    ensures var res := MapPages(Taken(m, f, n), Growth(|owner|, f), n);
            res.ok && HeapMapped(res.memory, owner + NewOwners(f, n))
  {
    var m1 := Taken(m, f, n);
    CountsKeepHeap(m, owner, f, n);
    forall j | f <= j < f + n
      ensures m1.table[j].refCount == 1 && !(HEAP_BASE <= m1.table[j].vaddr < SYSTEM_BASE)
    {
      HeapRecordInUse(m, owner, j);
    }
    GrowthMaps(m1, owner, f, n);
  }

  /** If the first page asked for is still present, map_pages fails at once and changes nothing. */
  lemma GrowthFails(m: Memory, owner: seq<nat>, pages: nat, f: nat, n: nat)
    requires HeapMapped(m, owner) && f + n <= |m.table| && pages < |owner| && n >= 1 && pages + n <= HEAP_PAGES
    ensures MapPages(m, Growth(pages, f), n) == Mapping(m, 0, false)
  {
    assert PageOwned(m, pages, owner[pages]);
    assert Enter(m, Growth(pages, f)).dir == m.dir;
  }

  /** No operation here changes the address field of a frame record. */
  ghost predicate SameAddresses(t: seq<Frame>, t': seq<Frame>) {
    |t'| == |t| && forall j | 0 <= j < |t| :: t'[j].addr == t[j].addr
  }

  /** A growth leaves its frames with two users each, the allocation and the mapping, and no other count changed. */
  ghost predicate CountsAfter(t: seq<Frame>, t': seq<Frame>, f: int, n: int) {
    |t'| == |t| && forall j | 0 <= j < |t| :: t'[j].refCount == if f <= j < f + n then 2 else t[j].refCount
  }

  /** No frame record has an address: boot leaves them 0, and nothing sets them. */
  ghost predicate Unaddressed(t: seq<Frame>) { forall j | 0 <= j < |t| :: t[j].addr == 0 }

  /** Every record holds the address that its frame stands for. */
  ghost predicate Addressed(t: seq<Frame>) { forall j: nat | j < |t| :: t[j].addr == FrameAddress(j) }

  /** No frame below physical address `end` is unused or holds a heap page. */
  ghost predicate Clear(t: seq<Frame>, owner: seq<nat>, end: int) {
    && (forall j: nat | j < |t| && t[j].refCount == 0 :: FrameAddress(j) >= end)
    && (forall p | 0 <= p < |owner| :: FrameAddress(owner[p]) >= end)
  }

  lemma TakenRuns(t: seq<Frame>, f: int, n: int)
    ensures forall k :: HasRun(WithCounts(t, f, n, 1), k) ==> HasRun(t, k)
  {
    var t' := WithCounts(t, f, n, 1);
    forall k | HasRun(t', k)
      ensures HasRun(t, k)
    {
      var i :| UnusedRun(t', i, k);
      assert forall j | i <= j < i + k :: t'[j].refCount == 0 && t[j].refCount == 0;
      assert UnusedRun(t, i, k);
    }
  }

  lemma GrowthKeepsClear(t: seq<Frame>, t': seq<Frame>, owner: seq<nat>, f: nat, n: nat, end: int)
    requires Clear(t, owner, end) && UnusedRun(t, f, n)
    ensures Clear(WithCounts(t, f, n, 1), owner, end)
    ensures CountsAfter(t, t', f, n) ==> Clear(t', owner + NewOwners(f, n), end)
  {
  }

  /** One growth by `n` pages from page `pages` of the heap, over the unused frames from `f`. */
  lemma GrowthStep(m: Memory, owner: seq<nat>, pages: nat, f: nat, n: nat)
    requires HeapMapped(m, owner) && UnusedRun(m.table, f, n) && n >= 1 && pages <= |owner| && pages + n <= HEAP_PAGES
    ensures var res := MapPages(Taken(m, f, n), Growth(pages, f), n);
            && (res.ok <==> pages == |owner|)
            && (!res.ok ==> res.memory == Taken(m, f, n))
            && HeapMapped(res.memory, if res.ok then owner + NewOwners(f, n) else owner)
            && SameAddresses(m.table, res.memory.table)
            && (res.ok ==> CountsAfter(m.table, res.memory.table, f, n))
            && OtherPagesKept(m, res.memory, BASE_PAGE + |owner|, if res.ok then n else 0)
  {
    hide OtherPagesKept, HeapMapped, MapPages;
    HeapLayout(m, owner);
    if pages == |owner| { GrowthKeepsOthers(m, owner, f, n); } else { TakenKeepsPages(m, owner, f, n); }
    CountsKeepHeap(m, owner, f, n);
    var m1 := Taken(m, f, n);
    if pages == |owner| {
      GrowthSucceeds(m, owner, f, n);
    } else {
      GrowthFails(m1, owner, pages, f, n);
    }
    forall j | 0 <= j < |m.table|
      ensures var res := MapPages(m1, Growth(pages, f), n);
              && res.memory.table[j].addr == m.table[j].addr
              && (res.ok ==> res.memory.table[j].refCount == if f <= j < f + n then 2 else m.table[j].refCount)
    {
      MapPagesFrame(m1, Growth(pages, f), n, j);
    }
  }

  /** A heap address translates, for both walks, into the frame that owns its page. */
  lemma HeapTranslates(m: Memory, owner: seq<nat>, p: nat, off: nat)
    requires HeapMapped(m, owner) && p < |owner| && off < 0x1000
    ensures var a := HEAP_BASE + p * 0x1000 + off;
            && owner[p] < |m.table|
            && GetPhysaddr(m.dir, m.low, a) == m.table[owner[p]].addr / 0x1000 * 0x1000 + off
            && Translate(m.dir, m.low, a) == At(m.table[owner[p]].addr / 0x1000 * 0x1000 + off)
  {
    hide Translate, GetPhysaddr;
    assert PageOwned(m, p, owner[p]);
    assert 32 <= (BASE_PAGE + p) / 1024 < KERNEL_INDEX;
    PageWalk(m.dir, m.low, BASE_PAGE + p, off);
  }

  /** It is writable at both levels: bits 0 and 1 of the directory word and of the table word are set. */
  lemma HeapPageWritable(m: Memory, owner: seq<nat>, p: nat)
    requires HeapMapped(m, owner) && p < |owner|
    ensures var (pde, pte) := (m.dir[(BASE_PAGE + p) / 1024], m.low[HEAP_SLOT + p]);
            && pde.Value() % 2 == 1 && pde.Value() / 2 % 2 == 1 && pde.Value() / 128 % 2 == 0
            && pte.Value() == 3 + m.table[owner[p]].addr / 0x1000 * 0x1000
  {
    assert PageOwned(m, p, owner[p]);
    var d := (BASE_PAGE + p) / 1024;
    assert 32 <= d < KERNEL_INDEX && !m.dir[d].Large();
    FieldsOfValue(m.dir[d]);
  }

  /** A heap page is named by exactly one frame record, its owner. */
  lemma OneRecordPerPage(m: Memory, owner: seq<nat>, p: nat, j: nat)
    requires HeapMapped(m, owner) && p < |owner| && j < |m.table|
    ensures m.table[j].vaddr == HEAP_BASE + p * 0x1000 <==> j == owner[p]
  {
    assert PageOwned(m, p, owner[p]);
    if m.table[j].vaddr == HEAP_BASE + p * 0x1000 {
      assert OwnsHeapPage(m, owner, j);
      assert (m.table[j].vaddr - HEAP_BASE) / 0x1000 == p;
    }
  }

  /** The heap pages that translate are exactly the first |owner| ones. */
  lemma HeapPagesPresent(m: Memory, owner: seq<nat>, p: nat, off: nat)
    requires HeapMapped(m, owner) && p < HEAP_PAGES && off < 0x1000
    ensures Translate(m.dir, m.low, HEAP_BASE + p * 0x1000 + off).At? <==> p < |owner|
  {
    if p < |owner| {
      HeapTranslates(m, owner, p, off);
    } else {
      var a, page := HEAP_BASE + p * 0x1000 + off, BASE_PAGE + p;
      assert a / 0x40_0000 == page / 1024 && a % 0x40_0000 / 0x1000 == page % 1024 && 32 <= page / 1024 < KERNEL_INDEX;
      WalkSlotIsSlot(m.dir, m.low, page);
      assert !m.low[HEAP_SLOT + p].flags.pres;
    }
  }

  /** Two heap pages share storage exactly when their frame records hold the same page address. */
  lemma HeapPagesShare(m: Memory, owner: seq<nat>, p: nat, q: nat, off: nat)
    requires HeapMapped(m, owner) && p < |owner| && q < |owner| && off < 0x1000
    ensures owner[p] < |m.table| && owner[q] < |m.table|
    ensures Translate(m.dir, m.low, HEAP_BASE + p * 0x1000 + off) == Translate(m.dir, m.low, HEAP_BASE + q * 0x1000 + off)
            <==> m.table[owner[p]].addr / 0x1000 == m.table[owner[q]].addr / 0x1000
  {
    HeapTranslates(m, owner, p, off);
    HeapTranslates(m, owner, q, off);
  }

  /** Boot never fills in the addresses of the frame records, so for both walks every heap page is physical page 0. */
  lemma HeapPagesAlias(m: Memory, owner: seq<nat>, p: nat, off: nat)
    requires HeapMapped(m, owner) && p < |owner| && off < 0x1000 && Unaddressed(m.table)
    ensures GetPhysaddr(m.dir, m.low, HEAP_BASE + p * 0x1000 + off) == off
    ensures Translate(m.dir, m.low, HEAP_BASE + p * 0x1000 + off) == At(off)
  {
    hide GetPhysaddr, Translate;
    HeapTranslates(m, owner, p, off);
  }

  /** Every address outside `n` pages from page `first` translates as before, for both walks. */
  ghost predicate OtherPagesKept(m: Memory, m': Memory, first: int, n: int) {
    && |m.dir| == |m'.dir| == DIR_ENTRIES && |m.low| == |m'.low| == LOW_WORDS
    && forall vaddr: Word | !(first <= vaddr / 0x1000 < first + n) ::
         && Translate(m'.dir, m'.low, vaddr) == Translate(m.dir, m.low, vaddr)
         && GetPhysaddr(m'.dir, m'.low, vaddr) == GetPhysaddr(m.dir, m.low, vaddr)
  }

  lemma GrowthKeepsOthers(m: Memory, owner: seq<nat>, f: nat, n: nat)
    requires HeapMapped(m, owner) && UnusedRun(m.table, f, n) && |owner| + n <= HEAP_PAGES
    ensures OtherPagesKept(m, MapPages(Taken(m, f, n), Growth(|owner|, f), n).memory, BASE_PAGE + |owner|, n)
  {
    hide HeapMapped, MapPages, Translate, GetPhysaddr;
    HeapLayout(m, owner);
    var m1, r := Taken(m, f, n), Growth(|owner|, f);
    forall vaddr: Word | !(BASE_PAGE + |owner| <= vaddr / 0x1000 < BASE_PAGE + |owner| + n)
      ensures var m' := MapPages(m1, r, n).memory;
              && Translate(m'.dir, m'.low, vaddr) == Translate(m.dir, m.low, vaddr)
              && GetPhysaddr(m'.dir, m'.low, vaddr) == GetPhysaddr(m.dir, m.low, vaddr)
    {
      MappedElsewhere(m1, r, n, vaddr / 0x1000, vaddr % 0x1000);
    }
  }

  lemma NoPages(m: Memory, m': Memory, first: int)
    requires OtherPagesKept(m, m', 0, 0)
    ensures OtherPagesKept(m, m', first, 0)
  {
    hide Translate, GetPhysaddr;
  }

  lemma TakenKeepsPages(m: Memory, owner: seq<nat>, f: nat, n: nat)
    requires HeapMapped(m, owner)
    ensures OtherPagesKept(m, m, BASE_PAGE + |owner|, 0) && OtherPagesKept(m, Taken(m, f, n), BASE_PAGE + |owner|, 0)
  {
    hide Translate, GetPhysaddr;
    HeapLayout(m, owner);
  }

  lemma UnmapKeepsAll(m: Memory, m': Memory, first: nat, n: nat)
    requires Layout(m.dir, m.low) && first + n <= ALL_PAGES && |m'.low| == LOW_WORDS && m' == m.(low := m'.low)
    requires forall s | 0 <= s < LOW_WORDS :: m'.low[s] == if Cleared(m.dir, first, n, s) then ZERO else m.low[s]
    ensures OtherPagesKept(m, m', 0, 0)
  {
    hide Translate, GetPhysaddr;
    forall vaddr: Word
      ensures Translate(m'.dir, m'.low, vaddr) == Translate(m.dir, m.low, vaddr)
      ensures GetPhysaddr(m'.dir, m'.low, vaddr) == GetPhysaddr(m.dir, m.low, vaddr)
    {
      UnmapKeepsTranslations(m.dir, m.low, m'.low, first, n, vaddr);
    }
  }

  // --------------------------------------------------------------------- the quota

  ghost function Interval(a: int, b: int): (s: set<int>)
    ensures forall j :: j in s <==> a <= j < b
    decreases b - a
  {
    if b <= a then {} else Interval(a, b - 1) + {b - 1}
  }

  lemma {:induction false} IntervalSize(a: int, b: int)
    requires a <= b
    ensures |Interval(a, b)| == b - a
    decreases b - a
  {
    if a < b {
      IntervalSize(a, b - 1);
    }
  }

  ghost function Members(s: seq<nat>): set<int> { set x: int | x in s }

  lemma {:induction false} DistinctSize(s: seq<nat>)
    requires forall p, q | 0 <= p < q < |s| :: s[p] != s[q]
    ensures |Members(s)| == |s|
    decreases s
  {
    var n := |s| - 1;
    if n >= 0 {
      DistinctSize(s[..n]);
      assert s[n] !in s[..n];
      assert Members(s) == Members(s[..n]) + {s[n]} by { assert s == s[..n] + [s[n]]; }
    }
  }

  /** Heap pages have different frames, all in use: with a run of unused frames they fit in the table. */
  lemma PagesAndRunFit(m: Memory, owner: seq<nat>, i: int, n: nat)
    requires HeapMapped(m, owner) && UnusedRun(m.table, i, n)
    ensures |owner| + n <= |m.table|
  {
    hide HeapMapped;
    forall p | 0 <= p < |owner|
      ensures owner[p] < |m.table| && !(i <= owner[p] < i + n)
    {
      OwnerInUse(m, owner, p);
    }
    forall p, q | 0 <= p < q < |owner|
      ensures owner[p] != owner[q]
    {
      OwnerInUse(m, owner, p);
      OwnerInUse(m, owner, q);
    }
    MembersApart(owner, i, n, |m.table|);
  }

  lemma MembersApart(s: seq<nat>, i: int, n: nat, len: nat)
    requires 0 <= i && i + n <= len && forall p | 0 <= p < |s| :: s[p] < len && !(i <= s[p] < i + n)
    requires forall p, q | 0 <= p < q < |s| :: s[p] != s[q]
    ensures |s| + n <= len
  {
    hide Interval;
    DistinctSize(s);
    IntervalSize(i, i + n);
    IntervalSize(0, len);
    forall x | x in Members(s)
      ensures x in Interval(0, len) && x !in Interval(i, i + n)
    {
      var p :| 0 <= p < |s| && s[p] == x;
    }
    DisjointSizes(Members(s), Interval(i, i + n), Interval(0, len));
  }

  lemma DisjointSizes(a: set<int>, b: set<int>, all: set<int>)
    requires a <= all && b <= all && a !! b
    ensures |a| + |b| <= |all|
  {
    assert |a + b| == |a| + |b|;
    assert all == (a + b) + (all - (a + b));
  }

  lemma OwnerInUse(m: Memory, owner: seq<nat>, p: int)
    requires HeapMapped(m, owner) && 0 <= p < |owner|
    ensures owner[p] < |m.table| && m.table[owner[p]].refCount >= 1 && m.table[owner[p]].vaddr == HEAP_BASE + p * 0x1000
  {
    assert PageOwned(m, p, owner[p]);
  }

  /** A segment of `size` bytes has all `mapped` pages, over the frames from `lo`, and those up to `hi` are unused. */
  ghost predicate ExactlyUsed(size: int, mapped: int, t: seq<Frame>, lo: int, hi: int) {
    size >= 0 && PagesFor(size) == mapped && UnusedExactly(t, lo + mapped, hi)
  }

  lemma AllInUse(size: int, mapped: int, t: seq<Frame>, lo: int, hi: int)
    requires ExactlyUsed(size, mapped, t, lo, hi)
    ensures size >= 0 && PagesFor(size) == mapped
  {
  }

  /** So it stays when the segment grows, by whole pages or from a page boundary. */
  lemma GrowthIsExact(size: int, mapped: int, t: seq<Frame>, t': seq<Frame>, bytes: int, lo: int, hi: int)
    requires ExactlyUsed(size, mapped, t, lo, hi) && bytes > 0 && (bytes % 0x1000 == 0 || size % 0x1000 == 0)
    requires HasRun(t, PagesFor(bytes)) && CountsAfter(t, t', FirstRun(t, PagesFor(bytes)), PagesFor(bytes))
    ensures ExactlyUsed(size + bytes, mapped + PagesFor(bytes), t', lo, hi)
  {
    RunsOfInterval(t, lo + mapped, hi, PagesFor(bytes));
    PagesAdd(size, bytes);
  }

  // ------------------------------------------------------------------------ sbrk

  class Kds {
    const space: AddressSpace
    const frames: FrameTable
    /** g_kds_size. */
    var size: int
    /** Frame record of each heap page that is present. */
    ghost var owner: seq<nat>

    ghost function Repr(): set<object> { {this, space.dir, space.low, frames.table} }

    ghost function Memory(): Memory
      reads space.dir, space.low, frames.table
    {
      space.View(frames)
    }

    ghost predicate Valid()
      reads this, space.dir, space.low, frames.table
    {
      && space.Shaped() && size >= 0 && PagesFor(size) <= |owner|
      && HeapMapped(Memory(), owner)
    }

    /** Quota and frames suffice for `n` more pages; the quota adds the base to a page count, as coded. */
    ghost predicate Affordable(n: int)
      reads this, frames.table
    {
      && size / 0x1000 + n <= (frames.mapBase + frames.mapLength / 0x1000) % 0x1_0000_0000
      && HasRun(frames.table[..], n)
    }

    /** Nothing has been given back: the pages present are in use, over frames from `lo`, and those up to `hi` are unused. */
    ghost predicate Exact(lo: int, hi: int)
      reads this, frames.table
    {
      ExactlyUsed(size, |owner|, frames.table[..], lo, hi)
    }

    /** The quota and the table of this machine. */
    ghost predicate OfMachine() {
      frames.mapBase == 0x10_0000 && frames.table.Length < 0x10_0000
    }

    /** On this machine the quota never refuses what the frames allow. */
    lemma QuotaNeverRefuses(n: int)
      requires Valid() && OfMachine()
      ensures Affordable(n) <==> HasRun(frames.table[..], n)
      ensures HasRun(frames.table[..], n) ==> |owner| + n < 0x10_0000
    {
      hide HeapMapped;
      if HasRun(frames.table[..], n) {
        var i :| UnusedRun(frames.table[..], i, n);
        PagesAndRunFit(Memory(), owner, i, n);
      }
    }

    ghost function State(): Break
      reads this
    {
      Break(size, |owner|)
    }

    /** Boot: page directory, page tables, frame table and an empty segment. */
    constructor (mapBase: Word, mapLength: Word)
      ensures Valid() && fresh(Repr()) && size == 0 && owner == []
      ensures frames.mapBase == mapBase && frames.mapLength == mapLength
      ensures var nb := FrameCount(mapLength);
              && Booted(Memory().dir, Memory().low, MetaSize(nb))
              && Memory().table == BootTable(Memory().dir, Memory().low, nb)
    {
      hide HeapMapped, Booted, GetPhysaddr, FrameCount;
      var nb := FrameCount(mapLength);
      MetaFits(nb);
      var s := new AddressSpace();
      s.InitPageDirectory();
      s.InitPageTables();
      s.InitPageDirectoryForFrames(MetaSize(nb));
      var t := new FrameTable(nb, mapBase, mapLength);
      var end := GetPhysaddr(s.dir[..], s.low[..], META_VADDR + MetaSize(nb));
      t.InitRamFrames(end);
      BootMapsNoHeap(s.View(t), nb);
      space, frames, size, owner := s, t, 0, [];
    }

    /** The map_pages call of sbrk, after alloc_frames has taken frames `f`.. from memory `m`. */
    method MapAtEnd(ghost m: Memory, f: nat, n: nat) returns (ok: bool)
      requires space.Shaped() && HeapMapped(m, owner) && UnusedRun(m.table, f, n) && Memory() == Taken(m, f, n)
      requires size >= 0 && n >= 1 && PagesFor(size) <= |owner| && PagesFor(size) + n <= HEAP_PAGES
      modifies space.dir, space.low, frames.table
      ensures ok <==> PagesFor(size) == |owner|
      ensures !ok ==> Memory() == Taken(m, f, n)
      ensures HeapMapped(Memory(), if ok then owner + NewOwners(f, n) else owner)
      ensures SameAddresses(m.table, Memory().table)
      ensures ok ==> CountsAfter(m.table, Memory().table, f, n)
      ensures OtherPagesKept(m, Memory(), BASE_PAGE + |owner|, if ok then n else 0)
    {
      hide HeapMapped, OtherPagesKept, SameAddresses, CountsAfter, Paging.MapPages;
      HeapLayout(m, owner);
      GrowthStep(m, owner, PagesFor(size), f, n);
      assert Range(EndAddress(size) / 0x1000, EndAddress(size), f, PRES_RW) == Growth(PagesFor(size), f);
      ok := space.MapPages(EndAddress(size), frames, f, n, PRES_RW);
    }

    /** sbrk with a positive amount; -1 is failure. */
    method Grow(bytes: int) returns (r: int)
      requires Valid() && bytes > 0
      requires PagesFor(size) + PagesFor(bytes) <= HEAP_PAGES || !Affordable(PagesFor(bytes))
      modifies Repr()
      ensures Valid()
      ensures State() == Moved(old(State()), Call(bytes, old(Affordable(PagesFor(bytes)))))
      ensures r == if State() == old(State()) then -1 else EndAddress(old(size))
      ensures var f := FirstRun(old(frames.table[..]), PagesFor(bytes));
              if r == -1 then
                // a failure after alloc_frames keeps the frames taken
                && owner == old(owner)
                && Memory() == (if old(Affordable(PagesFor(bytes))) then Taken(old(Memory()), f, PagesFor(bytes))
                                else old(Memory()))
              else
                && f >= 0 && owner == old(owner) + NewOwners(f, PagesFor(bytes))
                && CountsAfter(old(Memory().table), Memory().table, f, PagesFor(bytes))
      ensures SameAddresses(old(Memory().table), Memory().table)
      ensures forall end :: Clear(old(Memory().table), old(owner), end) ==> Clear(Memory().table, owner, end)
      ensures r == -1 ==> forall n :: HasRun(Memory().table, n) ==> HasRun(old(Memory().table), n)
      ensures OtherPagesKept(old(Memory()), Memory(), BASE_PAGE + |old(owner)|, |owner| - |old(owner)|)
    {
      hide HeapMapped, OtherPagesKept, Clear, HasRun, FirstRun, WithCounts, NewOwners;
      var nbPages := PagesFor(bytes);
      TakenKeepsPages(Memory(), owner, 0, 0);
      var maxNbPages := (frames.mapBase + frames.mapLength / 0x1000) % 0x1_0000_0000;
      if size / 0x1000 + nbPages > maxNbPages {
        return -1;
      }
      ghost var m := Memory();
      ghost var affordable := Affordable(nbPages);
      var f := frames.AllocFrames(nbPages);
      if f == -1 {
        return -1;
      }
      assert affordable && Memory() == Taken(m, f, nbPages);
      TakenRuns(m.table, f, nbPages);
      var ok := MapAtEnd(m, f, nbPages);
      forall end | Clear(m.table, owner, end)
        ensures Clear(Memory().table, if ok then owner + NewOwners(f, nbPages) else owner, end)
      {
        GrowthKeepsClear(m.table, Memory().table, owner, f, nbPages, end);
      }
      if !ok {
        return -1;
      }
      r := EndAddress(size);
      PagesAdd(size, bytes);
      owner := owner + NewOwners(f, nbPages);
      size := size + bytes;
    }

    /** sbrk with a negative amount: the break moves, but every page stays as it is. */
    method Shrink(bytes: int) returns (r: int)
      requires Valid() && -size <= bytes < 0
      modifies Repr()
      ensures Valid() && owner == old(owner)
      ensures State() == Moved(old(State()), Call(bytes, true))
      ensures r == EndAddress(old(size))
      ensures Memory().table == old(Memory().table) && Memory().dir == old(Memory().dir)
      ensures Memory().low[TABLE_WORDS..] == old(Memory().low[TABLE_WORDS..])
      ensures var (first, n) := (BASE_PAGE + PagesFor(old(size)) - PagesFor(-bytes), PagesFor(-bytes));
              forall s | 0 <= s < LOW_WORDS ::
                space.low[s] == if Cleared(space.dir[..], first, n, s) then ZERO else old(space.low[s])
      ensures OtherPagesKept(old(Memory()), Memory(), BASE_PAGE + |owner|, 0)
    {
      hide OtherPagesKept;
      ghost var m := Memory();
      var nbPages := PagesFor(-bytes);
      PagesMonotonic(-bytes, size);
      PagesMonotonic(size + bytes, size);
      ghost var first := BASE_PAGE + PagesFor(size) - nbPages;
      var at := EndAddress(size) - nbPages * 0x1000;
      assert at / 0x1000 == first;
      space.UnmapPages(at, nbPages);
      ClearedIsLow(m.dir, first, nbPages);
      TablesKeepHeap(m, Memory(), owner);
      UnmapKeepsAll(m, Memory(), first, nbPages);
      NoPages(m, Memory(), BASE_PAGE + |owner|);
      r := EndAddress(size);
      size := size + bytes;
    }

    /** sbrk. A failure is -1 and moves nothing; success returns the old end. */
    method Sbrk(bytes: int) returns (r: int)
      requires Valid() && -size <= bytes
      requires bytes > 0 ==> PagesFor(size) + PagesFor(bytes) <= HEAP_PAGES || !Affordable(PagesFor(bytes))
      modifies Repr()
      ensures Valid() && old(owner) <= owner
      ensures State() == Moved(old(State()), Call(bytes, bytes > 0 && old(Affordable(PagesFor(bytes)))))
      ensures r == -1 <==> bytes > 0 && !(old(Affordable(PagesFor(bytes))) && PagesFor(old(size)) == |old(owner)|)
      ensures r == -1 || r == HEAP_BASE + PagesFor(old(size)) * 0x1000
      ensures size == old(size) + if r == -1 then 0 else bytes
      ensures |owner| == |old(owner)| + if bytes > 0 && r != -1 then PagesFor(bytes) else 0
      ensures bytes > 0 && (bytes % 0x1000 == 0 || old(size) % 0x1000 == 0) ==>
                forall lo, hi :: old(Exact(lo, hi)) ==> Exact(lo, hi)
      ensures SameAddresses(old(Memory().table), Memory().table)
      ensures forall end :: Clear(old(Memory().table), old(owner), end) ==> Clear(Memory().table, owner, end)
      ensures r == -1 ==> forall n :: HasRun(Memory().table, n) ==> HasRun(old(Memory().table), n)
      ensures OtherPagesKept(old(Memory()), Memory(), BASE_PAGE + |old(owner)|, |owner| - |old(owner)|)
      ensures bytes > 0 && r != -1 ==>
                CountsAfter(old(Memory().table), Memory().table, FirstRun(old(Memory().table), PagesFor(bytes)), PagesFor(bytes))
    {
      hide HeapMapped, OtherPagesKept, Clear, FirstRun, HasRun, ExactlyUsed, CountsAfter;
      TakenKeepsPages(Memory(), owner, 0, 0);
      if bytes == 0 {
        return EndAddress(size);
      }
      if bytes > 0 {
        ghost var (t, size0, mapped) := (frames.table[..], size, |owner|);
        r := Grow(bytes);
        forall lo, hi | ExactlyUsed(size0, mapped, t, lo, hi) && (bytes % 0x1000 == 0 || size0 % 0x1000 == 0)
          ensures Exact(lo, hi)
        {
          AllInUse(size0, mapped, t, lo, hi);
          if r != -1 { GrowthIsExact(size0, mapped, t, frames.table[..], bytes, lo, hi); }
        }
      } else {
        r := Shrink(bytes);
      }
    }
  }

  /** Only the page tables matter to the heap pages, not the words below them. */
  lemma TablesKeepHeap(m: Memory, m': Memory, owner: seq<nat>)
    requires HeapMapped(m, owner) && m' == m.(low := m'.low) && |m'.low| == LOW_WORDS
    requires forall s | TABLE_WORDS <= s < LOW_WORDS :: m'.low[s] == m.low[s]
    ensures HeapMapped(m', owner)
  {
    forall p | 0 <= p < |owner|
      ensures PageOwned(m', p, owner[p])
    {
      assert PageOwned(m, p, owner[p]);
    }
    forall j | 0 <= j < |m'.table| && HEAP_BASE <= m'.table[j].vaddr < SYSTEM_BASE
      ensures OwnsHeapPage(m', owner, j)
    {
      assert OwnsHeapPage(m, owner, j);
    }
  }

  /** Boot maps no heap page and names none in a frame record. */
  lemma BootMapsNoHeap(m: Memory, nb: nat)
    requires nb < 0x10_0000 && Booted(m.dir, m.low, MetaSize(nb)) && m.table == BootTable(m.dir, m.low, nb)
    ensures HeapMapped(m, [])
  {
    forall s | HEAP_SLOT <= s < HEAP_SLOT + HEAP_PAGES
      ensures !m.low[s].flags.pres
    {
      assert s == Slot(s - TABLE_WORDS);
    }
  }
}
