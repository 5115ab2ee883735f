/**
 Page directory and page tables, the two walks over them, and what mapping a range of
 pages does to them.

 `dir` is the page directory. `low` is physical memory 0..8MB by words; its upper half
 holds the 1024 page tables. Every word of either is read as an entry.
 */
module Paging {
  import opened Machine
  import opened Frames

  const DIR_ENTRIES: int := 1024
  const LOW_WORDS: int := 0x20_0000
  const TABLE_WORDS: int := 0x10_0000
  /** Number of 4 KB pages in the 32-bit address space. */
  const ALL_PAGES: int := 0x10_0000

  const KERNEL_INDEX: int := 768
  const TABLES_INDEX: int := 769
  const FRAMES_INDEX: int := 770

  // ------------------------------------------------------------------------ entries

  type Bits3 = x: int | 0 <= x < 8
  type Bits5 = x: int | 0 <= x < 32
  type Bits20 = x: int | 0 <= x < 0x10_0000

  /** The low nine bits of an entry: PF_PRES, PF_RW, five more, PF_4M and bit 8. */
  datatype Flags = Flags(pres: bool, rw: bool, mid: Bits5, large: bool, bit8: bool)

  /** A 32-bit entry, read as the bit fields of either kind. */
  datatype Entry = Entry(flags: Flags, ignored: Bits3, addr: Bits20) {
    /** The entry as a word. */
    function Value(): Word {
      Packed(Bit(flags.pres), Bit(flags.rw), flags.mid, Bit(flags.large), Bit(flags.bit8), ignored, addr)
    }

    /** A present directory entry that maps 4 MB itself. */
    predicate Large() { flags.pres && flags.large }

    /** _4mb_fields.addr and _4mb_fields.ignored_ of the same word. */
    function LargeAddr(): int { addr / 1024 }
    function LargeIgnored(): int { addr / 2 % 512 }
  }

  function Bit(b: bool): int { if b then 1 else 0 }

  const PRES_RW: Flags := Flags(true, true, 0, false, false)
  const PRES_RW_4M: Flags := Flags(true, true, 0, true, false)
  const ZERO: Entry := Entry(Flags(false, false, 0, false, false), 0, 0)

  /** A 32-bit word from its fields, lowest first: bits 0, 1, 2..6, 7, 8, 9..11 and 12..31. */
  function Packed(pres: int, rw: int, mid: int, large: int, bit8: int, ignored: int, addr: int): int {
    pres + 2 * rw + 4 * mid + 128 * large + 256 * bit8 + 512 * ignored + 0x1000 * addr
  }

  lemma PackedBit0(pres: int, rest: int)
    requires 0 <= pres < 2
    ensures (pres + 2 * rest) % 2 == pres
  {
  }

  lemma PackedBit1(pres: int, rw: int, rest: int)
    requires 0 <= pres < 2 && 0 <= rw < 2
    ensures (pres + 2 * rw + 4 * rest) / 2 % 2 == rw
  {
    assert (pres + 2 * rw + 4 * rest) / 2 == rw + 2 * rest;
  }

  lemma PackedBit7(low: int, large: int, rest: int)
    requires 0 <= low < 128 && 0 <= large < 2
    ensures (low + 128 * large + 256 * rest) / 128 % 2 == large
  {
    assert (low + 128 * large + 256 * rest) / 128 == large + 2 * rest;
  }

  lemma PackedHigh(low: int, ignored: int, addr: int)
    requires 0 <= low < 512 && 0 <= ignored < 8
    ensures var v := low + 512 * ignored + 0x1000 * addr;
            v / 512 % 8 == ignored && v / 0x1000 == addr
  {
    assert (low + 512 * ignored + 0x1000 * addr) / 512 == ignored + 8 * addr;
  }

  lemma Nested(v: int)
    ensures v / 0x1000 / 1024 == v / 0x40_0000 && v / 0x1000 / 2 == v / 0x2000
  {
  }

  /** The fields are those bits of the word that the bit-field structs and flag masks name. */
  lemma FieldsOfValue(e: Entry)
    ensures e.flags.pres <==> e.Value() % 2 == 1
    ensures e.flags.rw <==> e.Value() / 2 % 2 == 1
    ensures e.flags.large <==> e.Value() / 128 % 2 == 1
    ensures e.ignored == e.Value() / 512 % 8 && e.addr == e.Value() / 0x1000
    ensures e.LargeAddr() == e.Value() / 0x40_0000 && e.LargeIgnored() == e.Value() / 0x2000 % 512
  {
    LowFields(e);
    BitOne(e);
    HighFields(e);
    Nested(e.Value());
    hide Packed;
  }

  lemma LowFields(e: Entry)
    ensures e.Value() % 2 == Bit(e.flags.pres) && e.Value() / 128 % 2 == Bit(e.flags.large)
  {
    var (p, w, m, l, b) := (Bit(e.flags.pres), Bit(e.flags.rw), e.flags.mid, Bit(e.flags.large), Bit(e.flags.bit8));
    PackedBit0(p, w + 2 * m + 64 * l + 128 * b + 256 * e.ignored + 0x800 * e.addr);
    PackedBit7(p + 2 * w + 4 * m, l, b + 2 * e.ignored + 16 * e.addr);
  }

  lemma BitOne(e: Entry)
    ensures e.Value() / 2 % 2 == Bit(e.flags.rw)
  {
    var (p, w, m, l, b) := (Bit(e.flags.pres), Bit(e.flags.rw), e.flags.mid, Bit(e.flags.large), Bit(e.flags.bit8));
    PackedBit1(p, w, m + 32 * l + 64 * b + 128 * e.ignored + 0x400 * e.addr);
  }

  /** The flag words that the kernel writes: PF_PRES | PF_RW, and the same with PF_4M. */
  lemma FlagWords()
    ensures Entry(PRES_RW, 0, 0).Value() == 3 && Entry(PRES_RW_4M, 0, 0).Value() == 0x83
  {
  }

  lemma HighFields(e: Entry)
    ensures e.Value() / 512 % 8 == e.ignored && e.Value() / 0x1000 == e.addr
  {
    var (p, w, m, l, b) := (Bit(e.flags.pres), Bit(e.flags.rw), e.flags.mid, Bit(e.flags.large), Bit(e.flags.bit8));
    PackedHigh(p + 2 * w + 4 * m + 128 * l + 256 * b, e.ignored, e.addr);
  }

  // ------------------------------------------------------------------------- layout

  /** The table entry of `page` has clear ignored bits, and is present only under a present directory entry. */
  predicate TableEntry(dir: seq<Entry>, e: Entry, page: int)
    requires |dir| == DIR_ENTRIES && 0 <= page < ALL_PAGES
  {
    e.ignored == 0 && (e.flags.pres ==> dir[page / 1024].flags.pres)
  }

  /** Directory entry `i` either maps 4 MB or points at page table `i`. */
  ghost predicate Layout(dir: seq<Entry>, low: seq<Entry>) {
    && |dir| == DIR_ENTRIES && |low| == LOW_WORDS
    && (forall i | 0 <= i < DIR_ENTRIES :: dir[i].Large() || dir[i].addr == 0x400 + i)
    && (forall s | TABLE_WORDS <= s < LOW_WORDS :: TableEntry(dir, low[s], s - TABLE_WORDS))
    && dir[KERNEL_INDEX] == Entry(PRES_RW_4M, 0, 0) && dir[TABLES_INDEX] == Entry(PRES_RW_4M, 0, 0x400)
  }

  /** Word of `low` that holds the table entry of `page`. */
  function Slot(page: int): int { TABLE_WORDS + page }

  /** Where a walk through `dir` finds the entry of `page`, as a word of `low`. */
  function WalkSlot(dir: seq<Entry>, page: int): int
    requires |dir| == DIR_ENTRIES && 0 <= page < ALL_PAGES
  {
    dir[page / 1024].addr * 1024 + page % 1024
  }

  /** Table slots are injective in (directory index, table index). */
  lemma WalkSlotIsSlot(dir: seq<Entry>, low: seq<Entry>, page: int)
    requires Layout(dir, low) && 0 <= page < ALL_PAGES && !dir[page / 1024].Large()
    ensures WalkSlot(dir, page) == Slot(page)
  {
  }

  // -------------------------------------------------------------------------- walks

  /** The software walk get_physaddr; 0 is NULL. */
  function GetPhysaddr(dir: seq<Entry>, low: seq<Entry>, vaddr: Word): int
    requires |dir| == DIR_ENTRIES && |low| == LOW_WORDS
  {
    var pd := dir[vaddr / 0x40_0000];
    if !pd.flags.pres then 0
    else if pd.flags.large then
      if pd.ignored != 0 || pd.LargeIgnored() != 0 then 0
      else pd.LargeAddr() * 0x40_0000 + vaddr % 0x1000
    else
      var s := pd.addr * 1024 + vaddr / 0x1000 % 1024;
      if s >= |low| || !low[s].flags.pres || low[s].ignored != 0 then 0
      else low[s].addr * 0x1000 + vaddr % 0x1000
  }

  datatype Translation = Fault | At(paddr: int)

  /**
   The processor's walk, section 4.3 of the Intel SDM Volume 3A: bits 31:22 select the
   directory entry; a 4 MB entry supplies bits 31:22 and the low 22 bits pass through;
   otherwise bits 21:12 select the table entry, which supplies bits 31:12. A 4 MB entry
   with one of its bits 21:13 set is not covered and faults here. The table entry at
   physical address 4 * s is word s of `low`.
   */
  function Translate(dir: seq<Entry>, low: seq<Entry>, vaddr: Word): Translation
    requires |dir| == DIR_ENTRIES && |low| == LOW_WORDS
  {
    var pde := dir[vaddr / 0x40_0000];
    if !pde.flags.pres then Fault
    else if pde.flags.large then
      if pde.LargeIgnored() != 0 then Fault else At(pde.LargeAddr() * 0x40_0000 + vaddr % 0x40_0000)
    else
      var s := pde.addr * 1024 + vaddr % 0x40_0000 / 0x1000;
      if s >= |low| || !low[s].flags.pres then Fault
      else At(low[s].addr * 0x1000 + vaddr % 0x1000)
  }

  function AsPhys(t: Translation): int { if t.Fault? then 0 else t.paddr }

  /** The window at SYSTEM_BASE through which the kernel reads its tables is the identity on 0..8MB. */
  lemma WindowIsIdentity(dir: seq<Entry>, low: seq<Entry>, p: int)
    requires Layout(dir, low) && 0 <= p < 4 * LOW_WORDS
    ensures Translate(dir, low, SYSTEM_BASE + p) == At(p)
  {
  }

  /**
   The software walk agrees with the processor on every address, except under a 4 MB
   entry that the processor uses: there it agrees exactly on the first 4 KB if the three
   ignored bits are clear, and otherwise exactly where the processor gives 0 as well.
   */
  lemma WalksAgree(dir: seq<Entry>, low: seq<Entry>, vaddr: Word)
    requires Layout(dir, low)
    ensures var pde := dir[vaddr / 0x40_0000];
            GetPhysaddr(dir, low, vaddr) == AsPhys(Translate(dir, low, vaddr)) <==>
            pde.Large() && pde.LargeIgnored() == 0 ==>
              if pde.ignored == 0 then vaddr % 0x40_0000 < 0x1000 else pde.LargeAddr() == 0 && vaddr % 0x40_0000 == 0
  {
    assert vaddr % 0x40_0000 / 0x1000 == vaddr / 0x1000 % 1024;
    assert vaddr % 0x40_0000 % 0x1000 == vaddr % 0x1000;
    if !dir[vaddr / 0x40_0000].Large() {
      assert vaddr / 0x1000 / 1024 == vaddr / 0x40_0000;
      WalkSlotIsSlot(dir, low, vaddr / 0x1000);
    }
  }

  lemma PageIndex(page: int, off: int)
    requires 0 <= page < ALL_PAGES && 0 <= off < 0x1000
    ensures var a := page * 0x1000 + off;
            && a / 0x40_0000 == page / 1024 && a / 0x1000 == page && a % 0x1000 == off
            && a % 0x40_0000 / 0x1000 == page % 1024
  {
  }

  /** Both walks of an address inside a page with a present entry under a small directory entry. */
  lemma PageWalk(dir: seq<Entry>, low: seq<Entry>, page: int, off: int)
    requires Layout(dir, low) && 0 <= page < ALL_PAGES && 0 <= off < 0x1000
    requires dir[page / 1024].flags.pres && !dir[page / 1024].flags.large && low[Slot(page)].flags.pres
    ensures GetPhysaddr(dir, low, page * 0x1000 + off) == low[Slot(page)].addr * 0x1000 + off
    ensures Translate(dir, low, page * 0x1000 + off) == At(low[Slot(page)].addr * 0x1000 + off)
  {
    PageIndex(page, off);
    WalkSlotIsSlot(dir, low, page);
  }

  // ------------------------------------------------------------------- mapping pages

  /** map_pages refuses this page: it lies under a 4 MB entry or its table entry is present. */
  predicate Blocked(dir: seq<Entry>, low: seq<Entry>, page: int)
    requires |dir| == DIR_ENTRIES && |low| == LOW_WORDS && 0 <= page < ALL_PAGES
  {
    dir[page / 1024].Large() || low[Slot(page)].flags.pres
  }

  /** How many pages from `page` on, of at most `n`, come before the first blocked one. */
  function FreePrefix(dir: seq<Entry>, low: seq<Entry>, page: int, n: nat): (k: int)
    requires |dir| == DIR_ENTRIES && |low| == LOW_WORDS && 0 <= page && page + n <= ALL_PAGES
    ensures 0 <= k <= n
    decreases n
  {
    if n == 0 || Blocked(dir, low, page) then 0 else 1 + FreePrefix(dir, low, page + 1, n - 1)
  }

  lemma {:induction false} FreePrefixIsPrefix(dir: seq<Entry>, low: seq<Entry>, page: int, n: nat)
    requires |dir| == DIR_ENTRIES && |low| == LOW_WORDS && 0 <= page && page + n <= ALL_PAGES
    ensures var k := FreePrefix(dir, low, page, n);
            && (forall p | page <= p < page + k :: !Blocked(dir, low, p))
            && (k < n ==> Blocked(dir, low, page + k))
    decreases n
  {
    if n > 0 && !Blocked(dir, low, page) {
      FreePrefixIsPrefix(dir, low, page + 1, n - 1);
    }
  }

  /** A directory entry that map_pages has passed through: only its low eight bits may change. */
  function Enabled(e: Entry): Entry {
    if e.flags.pres then e else e.(flags := PRES_RW.(bit8 := e.flags.bit8))
  }

  /** The table entry that map_pages leaves for a frame at `addr`. */
  function MapEntry(e: Entry, addr: Word, flags: Flags): Entry {
    e.(addr := addr / 0x1000, flags := flags)
  }

  /** Directory, tables and frame records, as one value. */
  datatype Memory = Memory(dir: seq<Entry>, low: seq<Entry>, table: seq<Frame>)

  /** Pages from `vaddr`, in page `first`, to be mapped to the frame records from `f`. */
  datatype Range = Range(first: nat, vaddr: int, f: nat, flags: Flags) {
    function Next(): Range { Range(first + 1, vaddr + 0x1000, f + 1, flags) }
  }

  /** `n` pages of the range lie in the address space and have a frame record each. */
  ghost predicate InTables(m: Memory, r: Range, n: int) {
    && |m.dir| == DIR_ENTRIES && |m.low| == LOW_WORDS
    && r.first * 0x1000 <= r.vaddr < r.first * 0x1000 + 0x1000
    && 0 <= n && r.first + n <= ALL_PAGES && r.f + n <= |m.table|
  }

  /** Passing through the directory entry of the first page of the range. */
  function Enter(m: Memory, r: Range): Memory
    requires InTables(m, r, 1)
  {
    m.(dir := m.dir[r.first / 1024 := Enabled(m.dir[r.first / 1024])])
  }

  /** Mapping the first page of the range to its frame record. */
  function PutPage(m: Memory, r: Range): Memory
    requires InTables(m, r, 1)
  {
    m.(low := m.low[Slot(r.first) := MapEntry(m.low[Slot(r.first)], m.table[r.f].addr, r.flags)],
       table := m.table[r.f := Frame(m.table[r.f].refCount + 1, m.table[r.f].addr, r.vaddr)])
  }

  /** What map_pages leaves behind, how many pages it has mapped, and whether it succeeds. */
  datatype Mapping = Mapping(memory: Memory, count: nat, ok: bool)

  ghost function MapPages(m: Memory, r: Range, n: nat): (res: Mapping)
    requires InTables(m, r, n)
    ensures var m' := res.memory; |m'.dir| == |m.dir| && |m'.low| == |m.low| && |m'.table| == |m.table|
    ensures res.count <= n && (res.ok <==> res.count == n)
    decreases n
  {
    if n == 0 then Mapping(m, 0, true)
    else if Blocked(m.dir, m.low, r.first) then Mapping(Enter(m, r), 0, false)
    else
      var rest := MapPages(PutPage(Enter(m, r), r), r.Next(), n - 1);
      rest.(count := rest.count + 1)
  }

  /** Mapping keeps the layout: it only writes flag bits of the directory. */
  lemma StepKeepsLayout(m: Memory, r: Range)
    requires Layout(m.dir, m.low) && InTables(m, r, 1)
    ensures Layout(Enter(m, r).dir, m.low)
    ensures Layout(Enter(m, r).dir, PutPage(Enter(m, r), r).low)
  {
  }

  lemma FreePrefixLater(dir: seq<Entry>, low: seq<Entry>, dir': seq<Entry>, low': seq<Entry>, page: int, n: nat)
    requires |dir| == |dir'| == DIR_ENTRIES && |low| == |low'| == LOW_WORDS && 0 <= page && page + n <= ALL_PAGES
    requires forall d | 0 <= d < DIR_ENTRIES :: dir'[d].Large() <==> dir[d].Large()
    requires forall s | Slot(page) <= s < LOW_WORDS :: low'[s] == low[s]
    ensures FreePrefix(dir', low', page, n) == FreePrefix(dir, low, page, n)
    decreases n
  {
    if n > 0 {
      FreePrefixLater(dir, low, dir', low', page + 1, n - 1);
    }
  }

  /** After one step the rest of the range is blocked where it was. */
  lemma FreePrefixStep(m: Memory, r: Range, n: nat)
    requires InTables(m, r, n + 1) && InTables(m, r, 1) && !Blocked(m.dir, m.low, r.first)
    ensures var m1 := PutPage(Enter(m, r), r);
            && InTables(m1, r.Next(), n)
            && FreePrefix(m.dir, m.low, r.first, n + 1) == 1 + FreePrefix(m1.dir, m1.low, r.first + 1, n)
  {
    var m1 := PutPage(Enter(m, r), r);
    FreePrefixLater(m.dir, m.low, m1.dir, m1.low, r.first + 1, n);
  }

  /** map_pages maps the pages before the first blocked one, and fails exactly if there is one. */
  lemma {:induction false} MapPagesCount(m: Memory, r: Range, n: nat)
    requires InTables(m, r, n)
    ensures MapPages(m, r, n).count == FreePrefix(m.dir, m.low, r.first, n)
    decreases n
  {
    hide Blocked, Enabled, MapEntry;
    if n > 0 && !Blocked(m.dir, m.low, r.first) {
      FreePrefixStep(m, r, n - 1);
      MapPagesCount(PutPage(Enter(m, r), r), r.Next(), n - 1);
    }
  }

  lemma {:induction false} MapPagesKeepsLayout(m: Memory, r: Range, n: nat)
    requires Layout(m.dir, m.low) && InTables(m, r, n)
    ensures Layout(MapPages(m, r, n).memory.dir, MapPages(m, r, n).memory.low)
    decreases n
  {
    if n > 0 {
      StepKeepsLayout(m, r);
      if !Blocked(m.dir, m.low, r.first) {
        MapPagesKeepsLayout(PutPage(Enter(m, r), r), r.Next(), n - 1);
      }
    }
  }

  /** Table entries: those of the pages mapped get their frames, no other entry changes. */
  lemma {:induction false} MapPagesEntry(m: Memory, r: Range, n: nat, s: int)
    requires InTables(m, r, n) && 0 <= s < LOW_WORDS
    ensures var res := MapPages(m, r, n);
            res.memory.low[s] == if Slot(r.first) <= s < Slot(r.first) + res.count
                                 then Entry(r.flags, m.low[s].ignored, m.table[r.f + s - Slot(r.first)].addr / 0x1000)
                                 else m.low[s]
    decreases n
  {
    if n > 0 && !Blocked(m.dir, m.low, r.first) {
      MapPagesEntry(PutPage(Enter(m, r), r), r.Next(), n - 1, s);
    }
  }

  /** Frame records: each frame mapped gains a user and the address of its page, no other record changes. */
  lemma {:induction false} MapPagesFrame(m: Memory, r: Range, n: nat, j: int)
    requires InTables(m, r, n) && 0 <= j < |m.table|
    ensures var res := MapPages(m, r, n);
            res.memory.table[j] ==
            if r.f <= j < r.f + res.count
            then Frame(m.table[j].refCount + 1, m.table[j].addr, r.vaddr + (j - r.f) * 0x1000) else m.table[j]
    decreases n
  {
    if n > 0 && !Blocked(m.dir, m.low, r.first) {
      MapPagesFrame(PutPage(Enter(m, r), r), r.Next(), n - 1, j);
    }
  }

  /** `d` is the directory entry of one of the `tried` pages from `first` on. */
  predicate EntryOf(first: nat, tried: nat, d: int) {
    tried > 0 && first / 1024 <= d <= (first + tried - 1) / 1024
  }

  lemma NextEntry(first: nat, tried: nat, d: int)
    ensures EntryOf(first, tried + 1, d) <==> d == first / 1024 || EntryOf(first + 1, tried, d)
  {
    assert (first + 1) / 1024 <= first / 1024 + 1;
  }

  lemma EnableStep(before: Entry, first: Entry, last: Entry, page: nat, tried: nat, d: int)
    requires first == if d == page / 1024 then Enabled(before) else before
    requires last == if EntryOf(page + 1, tried, d) then Enabled(first) else first
    ensures last == if EntryOf(page, tried + 1, d) then Enabled(before) else before
  {
    NextEntry(page, tried, d);
  }

  /** How many pages the loop looks at: those mapped, and the blocked one if any. */
  function Tried(res: Mapping): nat { res.count + if res.ok then 0 else 1 }

  /**
   Directory entries: those of the pages looked at that were not present become present and
   writable, with bit 8 and everything above kept; no other entry changes.
   */
  lemma {:induction false} MapPagesDir(m: Memory, r: Range, n: nat, d: int)
    requires InTables(m, r, n) && 0 <= d < DIR_ENTRIES
    ensures var (res, e) := (MapPages(m, r, n), m.dir[d]);
            res.memory.dir[d] == if EntryOf(r.first, Tried(res), d) && !e.flags.pres
                                 then Entry(Flags(true, true, 0, false, e.flags.bit8), e.ignored, e.addr) else e
    decreases n
  {
    if n > 0 && Blocked(m.dir, m.low, r.first) {
      NextEntry(r.first, 0, d);
    } else if n > 0 {
      var m1 := PutPage(Enter(m, r), r);
      var rest := MapPages(m1, r.Next(), n - 1);
      MapPagesDir(m1, r.Next(), n - 1, d);
      EnableStep(m.dir[d], m1.dir[d], rest.memory.dir[d], r.first, Tried(rest), d);
    }
  }

  /** An entry that was present, in a table or in the directory, is never altered, whether mapping succeeds or fails. */
  lemma PresentEntriesKept(m: Memory, r: Range, n: nat, s: int, d: int)
    requires InTables(m, r, n) && 0 <= s < LOW_WORDS && 0 <= d < DIR_ENTRIES
    ensures m.low[s].flags.pres ==> MapPages(m, r, n).memory.low[s] == m.low[s]
    ensures m.dir[d].flags.pres ==> MapPages(m, r, n).memory.dir[d] == m.dir[d]
  {
    MapPagesEntry(m, r, n, s);
    MapPagesDir(m, r, n, d);
    MapPagesCount(m, r, n);
    FreePrefixIsPrefix(m.dir, m.low, r.first, n);
    if Slot(r.first) <= s < Slot(r.first) + MapPages(m, r, n).count {
      assert !Blocked(m.dir, m.low, s - TABLE_WORDS);
    }
  }

  /** A mapped page has an enabled directory entry and its frame's address in its table entry. */
  lemma MappedEntry(m: Memory, r: Range, n: nat, page: int)
    requires Layout(m.dir, m.low) && InTables(m, r, n)
    requires r.first <= page < r.first + MapPages(m, r, n).count
    ensures var m' := MapPages(m, r, n).memory;
            && m'.dir[page / 1024].flags.pres && !m'.dir[page / 1024].flags.large
            && (!m.dir[page / 1024].flags.pres || m.dir[page / 1024].flags.rw ==> m'.dir[page / 1024].flags.rw)
            && m'.low[Slot(page)] == Entry(r.flags, 0, m.table[r.f + page - r.first].addr / 0x1000)
  {
    hide MapPages;
    MapPagesCount(m, r, n);
    FreePrefixIsPrefix(m.dir, m.low, r.first, n);
    assert !Blocked(m.dir, m.low, page);
    MapPagesEntry(m, r, n, Slot(page));
    MapPagesDir(m, r, n, page / 1024);
  }

  /** After a mapping, every page mapped translates to its frame for both walks. */
  lemma MappedTranslates(m: Memory, r: Range, n: nat, page: int, off: int)
    requires Layout(m.dir, m.low) && InTables(m, r, n) && r.flags.pres
    requires r.first <= page < r.first + MapPages(m, r, n).count && 0 <= off < 0x1000
    ensures var m' := MapPages(m, r, n).memory;
            && GetPhysaddr(m'.dir, m'.low, page * 0x1000 + off) == m.table[r.f + page - r.first].addr / 0x1000 * 0x1000 + off
            && Translate(m'.dir, m'.low, page * 0x1000 + off) == At(GetPhysaddr(m'.dir, m'.low, page * 0x1000 + off))
  {
    var m' := MapPages(m, r, n).memory;
    MappedEntry(m, r, n, page);
    MapPagesKeepsLayout(m, r, n);
    PageWalk(m'.dir, m'.low, page, off);
  }

  /** Every page outside the range translates as before, for both walks. */
  lemma MappedElsewhere(m: Memory, r: Range, n: nat, page: int, off: int)
    requires Layout(m.dir, m.low) && InTables(m, r, n)
    requires 0 <= page < ALL_PAGES && 0 <= off < 0x1000 && !(r.first <= page < r.first + MapPages(m, r, n).count)
    ensures var (m', a) := (MapPages(m, r, n).memory, page * 0x1000 + off);
            && GetPhysaddr(m'.dir, m'.low, a) == GetPhysaddr(m.dir, m.low, a)
            && Translate(m'.dir, m'.low, a) == Translate(m.dir, m.low, a)
  {
    hide GetPhysaddr, Translate;
    var m' := MapPages(m, r, n).memory;
    MapPagesEntry(m, r, n, Slot(page));
    MapPagesDir(m, r, n, page / 1024);
    MapPagesKeepsLayout(m, r, n);
    assert TableEntry(m.dir, m.low[Slot(page)], page);
    SameWalks(m, m', page, off);
  }

  /** Both walks see of a page its directory entry and, if that is small, its table entry. */
  lemma SameWalks(m: Memory, m': Memory, page: int, off: int)
    requires Layout(m.dir, m.low) && Layout(m'.dir, m'.low) && 0 <= page < ALL_PAGES && 0 <= off < 0x1000
    requires || (m'.dir[page / 1024] == m.dir[page / 1024] && m.dir[page / 1024].Large())
             || (&& !m.dir[page / 1024].Large() && !m'.dir[page / 1024].Large() && m'.low[Slot(page)] == m.low[Slot(page)]
                 && (m.low[Slot(page)].flags.pres ==> m.dir[page / 1024].flags.pres && m'.dir[page / 1024].flags.pres))
    ensures GetPhysaddr(m'.dir, m'.low, page * 0x1000 + off) == GetPhysaddr(m.dir, m.low, page * 0x1000 + off)
    ensures Translate(m'.dir, m'.low, page * 0x1000 + off) == Translate(m.dir, m.low, page * 0x1000 + off)
  {
    PageIndex(page, off);
    if !m.dir[page / 1024].Large() {
      WalkSlotIsSlot(m.dir, m.low, page);
      WalkSlotIsSlot(m'.dir, m'.low, page);
      hide Layout;
    }
  }

  // ----------------------------------------------------------------- unmapping pages

  /** The word of `low` that unmap_pages clears for `page`. */
  function StraySlot(dir: seq<Entry>, page: int): int
    requires |dir| == DIR_ENTRIES && 0 <= page < ALL_PAGES
  {
    dir[page / 1024].LargeAddr() * 1024 + page % 1024
  }

  ghost predicate Cleared(dir: seq<Entry>, first: nat, n: nat, s: int)
    requires |dir| == DIR_ENTRIES && first + n <= ALL_PAGES
  {
    exists page :: first <= page < first + n && s == StraySlot(dir, page)
  }

  /** No directory makes unmap_pages reach a page table: it clears words below the tables. */
  lemma ClearedIsLow(dir: seq<Entry>, first: nat, n: nat)
    requires |dir| == DIR_ENTRIES && first + n <= ALL_PAGES
    ensures forall s | Cleared(dir, first, n, s) :: 0 <= s < TABLE_WORDS
  {
  }

  /**
   As the tables are laid out, the word cleared for a page under a small directory entry is
   one of the second physical page, by the index of the page in its table; the page's own
   entry is elsewhere.
   */
  lemma ClearedWord(dir: seq<Entry>, low: seq<Entry>, page: int)
    requires Layout(dir, low) && 0 <= page < ALL_PAGES && !dir[page / 1024].Large()
    ensures 1024 <= StraySlot(dir, page) < 2048 && StraySlot(dir, page) % 1024 == page % 1024
    ensures StraySlot(dir, page) != WalkSlot(dir, page)
  {
    assert dir[page / 1024].addr == 0x400 + page / 1024;
  }

  /** So after unmap_pages every address, the unmapped pages included, still translates as before, for both walks. */
  lemma UnmapKeepsTranslations(dir: seq<Entry>, low: seq<Entry>, low': seq<Entry>, first: nat, n: nat, vaddr: Word)
    requires Layout(dir, low) && first + n <= ALL_PAGES && |low'| == |low|
    requires forall s | 0 <= s < LOW_WORDS :: low'[s] == if Cleared(dir, first, n, s) then ZERO else low[s]
    ensures GetPhysaddr(dir, low', vaddr) == GetPhysaddr(dir, low, vaddr)
    ensures Translate(dir, low', vaddr) == Translate(dir, low, vaddr)
  {
    ClearedIsLow(dir, first, n);
    PageIndex(vaddr / 0x1000, vaddr % 0x1000);
    if !dir[vaddr / 0x40_0000].Large() {
      WalkSlotIsSlot(dir, low, vaddr / 0x1000);
    }
  }
}
