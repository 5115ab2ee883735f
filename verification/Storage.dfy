/**
 Where the heap's bytes are: physical memory behind the page tables, and exactly when
 it behaves like separate storage for every heap address.
 */
module Storage {
  import opened Machine
  import opened Frames
  import opened Paging
  import opened HeapChain
  import opened HeapMemory
  import opened KernelData
  import opened Boot

  const RAM_BYTES: int := 0x1_0000_0000

  /** Physical memory, by bytes. */
  type Ram = r: seq<Byte> | |r| == RAM_BYTES ghost witness seq(RAM_BYTES, _ => 0)

  /** Physical memory with the frame records and the owner of each heap page. */
  datatype Backing = Backing(table: seq<Frame>, owner: seq<nat>, ram: Ram)

  // ------------------------------------------------------------------- the places

  /** Pages and frame records exist for the first `n` bytes of the heap. */
  ghost predicate Owned(s: Backing, n: int) {
    0 <= n && PagesFor(n) <= |s.owner| && OwnersExist(s)
  }

  ghost predicate OwnersExist(s: Backing) { forall p | 0 <= p < |s.owner| :: s.owner[p] < |s.table| }

  /** The physical page of heap page `p`, by its frame record. */
  ghost function PageAddress(s: Backing, p: nat): (page: int)
    requires OwnersExist(s) && p < |s.owner|
    ensures 0 <= page < 0x10_0000
  {
    s.table[s.owner[p]].addr / 0x1000
  }

  /** The physical byte of the heap byte at offset `i`. */
  ghost function Place(s: Backing, i: int): (a: int)
    requires 0 <= i && Owned(s, i + 1)
    ensures 0 <= a < RAM_BYTES
  {
    PageAddress(s, i / 0x1000) * 0x1000 + i % 0x1000
  }

  /** It is where the processor's walk leads. */
  lemma PlaceIsTranslated(m: Memory, s: Backing, n: int, i: int)
    requires HeapMapped(m, s.owner) && s.table == m.table && 0 <= i < n && PagesFor(n) <= |s.owner|
    ensures Owned(s, n) && Owned(s, i + 1) && |m.dir| == DIR_ENTRIES && |m.low| == LOW_WORDS
    ensures Translate(m.dir, m.low, HEAP_BASE + i) == At(Place(s, i))
  {
    hide HeapMapped, Translate, GetPhysaddr;
    HeapLayout(m, s.owner);
    OwnersInTable(m, s);
    PagesMonotonic(i + 1, n);
    HeapTranslates(m, s.owner, i / 0x1000, i % 0x1000);
  }

  lemma OwnersInTable(m: Memory, s: Backing)
    requires HeapMapped(m, s.owner) && s.table == m.table
    ensures OwnersExist(s)
  {
    forall p | 0 <= p < |s.owner|
      ensures s.owner[p] < |s.table|
    {
      assert PageOwned(m, p, s.owner[p]);
    }
  }

  // ------------------------------------------------------------- backed by memory

  /** The pages of the first `w` heap bytes are different physical pages. */
  ghost predicate Distinct(s: Backing, w: int)
    requires OwnersExist(s)
  {
    forall p: nat, q: nat | p < q < |s.owner| && q * 0x1000 < w :: PageAddress(s, p) != PageAddress(s, q)
  }

  /** Every heap byte below offset `w` is what physical memory holds at its place. */
  ghost predicate Backed(s: Backing, mem: Bytes, w: int)
    requires Owned(s, |mem|)
  {
    forall i | 0 <= i < |mem| && i < w :: BackedAt(s, mem, i)
  }

  ghost predicate BackedAt(s: Backing, mem: Bytes, i: int)
    requires Owned(s, |mem|) && 0 <= i < |mem|
  {
    PagesMonotonic(i + 1, |mem|);
    s.ram[Place(s, i)] == mem[i]
  }

  /** Physical memory after `v` is stored at heap offset `i`. */
  ghost function Poke(s: Backing, i: int, v: Byte): Backing
    requires 0 <= i && Owned(s, i + 1)
  {
    s.(ram := s.ram[Place(s, i) := v])
  }

  /** Storing one byte keeps a heap of `w` bytes backed. */
  ghost predicate StoreSafe(s: Backing, w: nat, mem: Bytes, i: int, v: Byte)
    requires |mem| == w && Owned(s, w) && 0 <= i < w
  {
    PagesMonotonic(i + 1, w);
    Backed(s, mem, w) ==> Backed(Poke(s, i, v), mem[i := v], w)
  }

  /** So does every store, whatever heap and physical memory hold. */
  ghost predicate SafeStorage(s: Backing, w: nat)
    requires Owned(s, w)
  {
    forall r: Ram, mem: Bytes, i: int, v: Byte | |mem| == w && 0 <= i < w :: StoreSafe(s.(ram := r), w, mem, i, v)
  }

  lemma PlacesDiffer(s: Backing, w: int, i: int, j: int)
    requires 0 <= i < w && 0 <= j < w && i != j && Owned(s, i + 1) && Owned(s, j + 1) && Distinct(s, w)
    ensures Place(s, i) != Place(s, j)
  {
    var (p, q) := (i / 0x1000, j / 0x1000);
    assert p < q ==> PageAddress(s, p) != PageAddress(s, q);
    assert q < p ==> PageAddress(s, q) != PageAddress(s, p);
  }

  lemma StoreKeepsBacked(s: Backing, mem: Bytes, w: int, i: int, v: Byte)
    requires Owned(s, |mem|) && Owned(s, i + 1) && 0 <= i < |mem| && i < w && Backed(s, mem, w) && Distinct(s, w)
    ensures Backed(Poke(s, i, v), mem[i := v], w)
  {
    var (s', mem') := (Poke(s, i, v), mem[i := v]);
    forall j | 0 <= j < |mem'| && j < w
      ensures BackedAt(s', mem', j)
    {
      PagesMonotonic(j + 1, |mem|);
      assert Place(s', j) == Place(s, j);
      if j != i {
        PlacesDiffer(s, w, i, j);
        assert BackedAt(s, mem, j);
      }
    }
  }

  /** Two heap pages in one physical page: a store into the first shows in the second. */
  lemma SharedPageUnsafe(s: Backing, w: nat, p: nat, q: nat)
    requires Owned(s, w) && p < q < |s.owner| && q * 0x1000 < w && PageAddress(s, p) == PageAddress(s, q)
    ensures !SafeStorage(s, w)
  {
    var r: Ram := seq(RAM_BYTES, _ => 0);
    var mem: Bytes := seq(w, _ => 0);
    var s0 := s.(ram := r);
    var (i, j) := (p * 0x1000, q * 0x1000);
    PagesMonotonic(i + 1, w);
    PagesMonotonic(j + 1, w);
    assert PageAddress(s0, p) == PageAddress(s0, q) && Place(s0, i) == Place(s0, j);
    assert !BackedAt(Poke(s0, i, 1), mem[i := 1], j);
    assert Backed(s0, mem, w);
    assert !StoreSafe(s0, w, mem, i, 1);
  }

  /**
   Physical memory is separate storage for a heap of `w` bytes, for every contents, address
   and value, if and only if its pages are different physical pages.
   */
  lemma SafeExactlyIfDistinct(s: Backing, w: nat)
    requires Owned(s, w)
    ensures SafeStorage(s, w) <==> Distinct(s, w)
  {
    if Distinct(s, w) {
      forall r: Ram, mem: Bytes, i: int, v: Byte | |mem| == w && 0 <= i < w
        ensures StoreSafe(s.(ram := r), w, mem, i, v)
      {
        var s0 := s.(ram := r);
        PagesMonotonic(i + 1, w);
        assert forall p: nat | p < |s.owner| :: PageAddress(s0, p) == PageAddress(s, p);
        if Backed(s0, mem, w) {
          StoreKeepsBacked(s0, mem, w, i, v);
        }
      }
    } else {
      var p: nat, q: nat :| p < q < |s.owner| && q * 0x1000 < w && PageAddress(s, p) == PageAddress(s, q);
      SharedPageUnsafe(s, w, p, q);
    }
  }

  // ------------------------------------------------------- when pages are distinct

  /** All frame records hold different page addresses. */
  ghost predicate DistinctFrames(t: seq<Frame>) {
    forall i, j | 0 <= i < j < |t| :: t[i].addr / 0x1000 != t[j].addr / 0x1000
  }

  /** What a caller can check: the window is one page, or no two records share a page address. */
  ghost predicate Separable(t: seq<Frame>, w: int) { w <= 0x1000 || DistinctFrames(t) }

  lemma SeparableIsDistinct(m: Memory, s: Backing, w: int)
    requires HeapMapped(m, s.owner) && s.table == m.table && Separable(s.table, w)
    ensures OwnersExist(s) && Distinct(s, w)
  {
    OwnersInTable(m, s);
    forall p: nat, q: nat | p < q < |s.owner| && q * 0x1000 < w
      ensures PageAddress(s, p) != PageAddress(s, q)
    {
      OneRecordPerPage(m, s.owner, p, s.owner[p]);
      OneRecordPerPage(m, s.owner, q, s.owner[q]);
    }
  }

  /** Had boot stored in each record the address that its frame stands for, all would be distinct. */
  lemma AddressesWouldBeDistinct(t: seq<Frame>)
    requires |t| < 0x10_0000 && forall i: nat | i < |t| :: t[i].addr == FrameAddress(i)
    ensures DistinctFrames(t)
  {
    forall i: nat, j: nat | i < j < |t|
      ensures t[i].addr / 0x1000 != t[j].addr / 0x1000
    {
      FramePage(i);
      FramePage(j);
    }
  }

  /** The frame records with these addresses in them. */
  function WithAddresses(t: seq<Frame>): seq<Frame> {
    seq(|t|, j requires 0 <= j < |t| => t[j].(addr := FrameAddress(j)))
  }

  lemma AlignedAddress(i: nat)
    ensures FrameAddress(i) / 0x1000 * 0x1000 == FrameAddress(i)
  {
  }

  /**
   With the addresses stored at boot, heap pages would all differ, and they would all lie
   above the metadata, whatever the heap then asks for, exactly if the frame count is not a
   multiple of 1024.
   */
  lemma AddressedBoot(dir: seq<Entry>, low: seq<Entry>, nb: nat)
    requires 1 <= nb < 0x10_0000 && Booted(dir, low, MetaSize(nb))
    ensures var t := WithAddresses(BootTable(dir, low, nb));
            && HeapMapped(Memory(dir, low, t), []) && Addressed(t) && DistinctFrames(t)
            && (Clear(t, [], META_PADDR + MetaSize(nb)) <==> nb % 1024 != 0)
  {
    hide GetPhysaddr;
    var (b, t) := (BootTable(dir, low, nb), WithAddresses(BootTable(dir, low, nb)));
    BootMapsNoHeap(Memory(dir, low, b), nb);
    AddressesWouldBeDistinct(t);
    ReservedPrefix(dir, low, nb);
    if nb % 1024 == 0 {
      KernelFrameGranted(dir, low, nb);
      assert t[0].refCount == b[0].refCount == 0;
    }
  }

  lemma FramePage(i: nat)
    requires i < 0x10_0000
    ensures FrameAddress(i) / 0x1000 == if i < 0xF_FF00 then i + 0x100 else i + 0x100 - 0x10_0000
  {
  }

  /** With the addresses that boot leaves, the heap is separate storage exactly on its first page. */
  lemma BootedExactly(s: Backing, w: int)
    requires Unaddressed(s.table) && |s.owner| >= 2 && OwnersExist(s)
    ensures Distinct(s, w) <==> w <= 0x1000
  {
    assert PageAddress(s, 0) == PageAddress(s, 1);
  }

  // ------------------------------------------------------- access through the walk

  /** The physical byte that the processor's walk gives for an address; 0 for a fault. */
  function Walked(dir: seq<Entry>, low: seq<Entry>, a: Word): (p: int)
    requires |dir| == DIR_ENTRIES && |low| == LOW_WORDS
    ensures 0 <= p < RAM_BYTES
  {
    AsPhys(Translate(dir, low, a))
  }

  function LoadByte(dir: seq<Entry>, low: seq<Entry>, ram: Ram, a: Word): Byte
    requires |dir| == DIR_ENTRIES && |low| == LOW_WORDS
  {
    ram[Walked(dir, low, a)]
  }

  function StoreByte(dir: seq<Entry>, low: seq<Entry>, ram: Ram, a: Word, v: Byte): Ram
    requires |dir| == DIR_ENTRIES && |low| == LOW_WORDS
  {
    ram[Walked(dir, low, a) := v]
  }

  /** The little-endian word that the processor reads at `a`. */
  function LoadVia(dir: seq<Entry>, low: seq<Entry>, ram: Ram, a: int): int
    requires |dir| == DIR_ENTRIES && |low| == LOW_WORDS && 0 <= a && a + 4 <= RAM_BYTES
  {
    (LoadByte(dir, low, ram, a) as int) + 0x100 * ((LoadByte(dir, low, ram, a + 1) as int) +
    0x100 * ((LoadByte(dir, low, ram, a + 2) as int) + 0x100 * (LoadByte(dir, low, ram, a + 3) as int)))
  }

  /** Physical memory after the processor has stored the word `v` at `a`. */
  function StoreVia(dir: seq<Entry>, low: seq<Entry>, ram: Ram, a: int, v: Word): Ram
    requires |dir| == DIR_ENTRIES && |low| == LOW_WORDS && 0 <= a && a + 4 <= RAM_BYTES
  {
    var r1 := StoreByte(dir, low, ram, a, v % 0x100);
    var r2 := StoreByte(dir, low, r1, a + 1, v / 0x100 % 0x100);
    var r3 := StoreByte(dir, low, r2, a + 2, v / 0x100 / 0x100 % 0x100);
    StoreByte(dir, low, r3, a + 3, v / 0x100 / 0x100 / 0x100)
  }

  /** The tables `m` and the backing `s` are of one machine, and the heap `mem` is backed below offset `w`. */
  ghost predicate Coherent(m: Memory, s: Backing, mem: Bytes, w: int) {
    && HeapMapped(m, s.owner) && s.table == m.table && Separable(s.table, w)
    && |m.dir| == DIR_ENTRIES && |m.low| == LOW_WORDS && Owned(s, |mem|) && HEAP_BASE + |mem| <= RAM_BYTES
    && Backed(s, mem, w)
  }

  lemma LoadByteCoherent(m: Memory, s: Backing, mem: Bytes, w: int, a: int)
    requires Coherent(m, s, mem, w) && In(mem, a, 1) && a + 1 <= HEAP_BASE + w
    ensures LoadByte(m.dir, m.low, s.ram, a) == mem[a - HEAP_BASE]
  {
    hide HeapMapped, Place, Translate;
    PlaceIsTranslated(m, s, |mem|, a - HEAP_BASE);
    assert BackedAt(s, mem, a - HEAP_BASE);
  }

  lemma StoreByteCoherent(m: Memory, s: Backing, mem: Bytes, w: int, a: int, v: Byte)
    requires Coherent(m, s, mem, w) && In(mem, a, 1) && a + 1 <= HEAP_BASE + w
    ensures Coherent(m, s.(ram := StoreByte(m.dir, m.low, s.ram, a, v)), mem[a - HEAP_BASE := v], w)
  {
    hide HeapMapped, Place, Translate, Separable;
    PlaceIsTranslated(m, s, |mem|, a - HEAP_BASE);
    SeparableIsDistinct(m, s, w);
    StoreKeepsBacked(s, mem, w, a - HEAP_BASE, v);
  }

  /** Below the window the processor reads the words that the heap holds. */
  lemma LoadCoherent(m: Memory, s: Backing, mem: Bytes, w: int, a: int)
    requires Coherent(m, s, mem, w) && In(mem, a, 4) && a + 4 <= HEAP_BASE + w
    ensures LoadVia(m.dir, m.low, s.ram, a) == Load(mem, a)
  {
    hide Coherent, LoadByte;
    CoherentShape(m, s, mem, w);
    LoadByteCoherent(m, s, mem, w, a);
    LoadByteCoherent(m, s, mem, w, a + 1);
    LoadByteCoherent(m, s, mem, w, a + 2);
    LoadByteCoherent(m, s, mem, w, a + 3);
  }

  /** And a word stored there by the processor is the word stored in the heap, with no other heap byte changed. */
  lemma StoreCoherent(m: Memory, s: Backing, mem: Bytes, w: int, a: int, v: Word)
    requires Coherent(m, s, mem, w) && In(mem, a, 4) && a + 4 <= HEAP_BASE + w
    ensures |m.dir| == DIR_ENTRIES && |m.low| == LOW_WORDS && a + 4 <= RAM_BYTES
    ensures Coherent(m, s.(ram := StoreVia(m.dir, m.low, s.ram, a, v)), Store(mem, a, v), w)
  {
    hide Coherent, StoreByte;
    CoherentShape(m, s, mem, w);
    var o := a - HEAP_BASE;
    var (b0, b1, b2, b3) := (v % 0x100, v / 0x100 % 0x100, v / 0x100 / 0x100 % 0x100, v / 0x100 / 0x100 / 0x100);
    StoreByteCoherent(m, s, mem, w, a, b0);
    var (s1, m1) := (s.(ram := StoreByte(m.dir, m.low, s.ram, a, b0)), mem[o := b0]);
    StoreByteCoherent(m, s1, m1, w, a + 1, b1);
    var (s2, m2) := (s1.(ram := StoreByte(m.dir, m.low, s1.ram, a + 1, b1)), m1[o + 1 := b1]);
    StoreByteCoherent(m, s2, m2, w, a + 2, b2);
    var (s3, m3) := (s2.(ram := StoreByte(m.dir, m.low, s2.ram, a + 2, b2)), m2[o + 2 := b2]);
    StoreByteCoherent(m, s3, m3, w, a + 3, b3);
  }

  lemma CoherentShape(m: Memory, s: Backing, mem: Bytes, w: int)
    requires Coherent(m, s, mem, w)
    ensures |m.dir| == DIR_ENTRIES && |m.low| == LOW_WORDS && HEAP_BASE + |mem| <= RAM_BYTES && Owned(s, |mem|)
  {
  }

  // ------------------------------------------------------------------- shared pages

  /** A word stored on heap page `p` is what the processor then reads at the same offset of a page that shares its storage. */
  lemma SharedWord(m: Memory, owner: seq<nat>, ram: Ram, p: nat, q: nat, off: nat, v: Word)
    requires HeapMapped(m, owner) && p < |owner| && q < |owner| && off + 4 <= 0x1000
    requires owner[p] < |m.table| && owner[q] < |m.table|
    requires m.table[owner[p]].addr / 0x1000 == m.table[owner[q]].addr / 0x1000
    ensures |m.dir| == DIR_ENTRIES && |m.low| == LOW_WORDS && |owner| <= HEAP_PAGES
    ensures var (a, b) := (HEAP_BASE + p * 0x1000 + off, HEAP_BASE + q * 0x1000 + off);
            LoadVia(m.dir, m.low, StoreVia(m.dir, m.low, ram, a, v), b) == v
  {
    hide HeapMapped, Walked;
    WalkedTo(m, owner, p, q, off);
    WalkedTo(m, owner, p, q, off + 1);
    WalkedTo(m, owner, p, q, off + 2);
    WalkedTo(m, owner, p, q, off + 3);
    var (a, b) := (HEAP_BASE + p * 0x1000 + off, HEAP_BASE + q * 0x1000 + off);
    var x := Walked(m.dir, m.low, a);
    var ram' := StoreVia(m.dir, m.low, ram, a, v);
    assert ram'[x] == v % 0x100 && ram'[x + 1] == v / 0x100 % 0x100;
    assert ram'[x + 2] == v / 0x100 / 0x100 % 0x100 && ram'[x + 3] == v / 0x100 / 0x100 / 0x100;
    SumOfBytes(v);
  }

  lemma SumOfBytes(v: Word)
    ensures v % 0x100 + 0x100 * (v / 0x100 % 0x100 +
            0x100 * (v / 0x100 / 0x100 % 0x100 + 0x100 * (v / 0x100 / 0x100 / 0x100))) == v
  {
  }

  lemma WalkedTo(m: Memory, owner: seq<nat>, p: nat, q: nat, off: nat)
    requires HeapMapped(m, owner) && p < |owner| && q < |owner| && off < 0x1000
    requires owner[p] < |m.table| && owner[q] < |m.table|
    requires m.table[owner[p]].addr / 0x1000 == m.table[owner[q]].addr / 0x1000
    ensures |m.dir| == DIR_ENTRIES && |m.low| == LOW_WORDS && |owner| <= HEAP_PAGES
    ensures Walked(m.dir, m.low, HEAP_BASE + p * 0x1000 + off) == m.table[owner[p]].addr / 0x1000 * 0x1000 + off
    ensures Walked(m.dir, m.low, HEAP_BASE + q * 0x1000 + off) == m.table[owner[p]].addr / 0x1000 * 0x1000 + off
  {
    hide Translate, GetPhysaddr;
    HeapTranslates(m, owner, p, off);
    HeapTranslates(m, owner, q, off);
  }

  // ------------------------------------------------------------ changes of the break

  lemma CoherentEmpty(m: Memory, s: Backing, w: int)
    requires HeapMapped(m, s.owner) && s.table == m.table && Separable(s.table, w)
    ensures Coherent(m, s, [], w)
  {
    OwnersInTable(m, s);
  }

  /** More pages or fewer, the heap that was backed still is: owners are kept and no record changes its address. */
  lemma CoherentMoves(m: Memory, s: Backing, m': Memory, s': Backing, mem: Bytes, w: int)
    requires Coherent(m, s, mem, w) && HeapMapped(m', s'.owner) && s'.table == m'.table
    requires s.owner <= s'.owner && SameAddresses(s.table, s'.table) && s'.ram == s.ram
    ensures Coherent(m', s', mem, w)
  {
    hide HeapMapped;
    HeapLayout(m', s'.owner);
    OwnersInTable(m', s');
    forall i | 0 <= i < |mem| && i < w
      ensures BackedAt(s', mem, i)
    {
      PagesMonotonic(i + 1, |mem|);
      assert BackedAt(s, mem, i);
      assert PageAddress(s', i / 0x1000) == PageAddress(s, i / 0x1000);
    }
  }

  /** What the processor reads in `n` bytes from `from` on. */
  function Contents(dir: seq<Entry>, low: seq<Entry>, ram: Ram, from: int, n: nat): (r: Bytes)
    requires |dir| == DIR_ENTRIES && |low| == LOW_WORDS && 0 <= from && from + n <= RAM_BYTES
    ensures |r| == n
  {
    seq<Byte>(n, (i: int) requires 0 <= i < n => LoadByte(dir, low, ram, from + i))
  }

  lemma CoherentExtends(m: Memory, s: Backing, mem: Bytes, w: int, n: nat)
    requires Coherent(m, s, mem, w) && PagesFor(|mem| + n) <= |s.owner| && HEAP_BASE + |mem| + n <= RAM_BYTES
    ensures Coherent(m, s, mem + Contents(m.dir, m.low, s.ram, HEAP_BASE + |mem|, n), w)
  {
    hide HeapMapped, Translate, Place;
    var mem' := mem + Contents(m.dir, m.low, s.ram, HEAP_BASE + |mem|, n);
    forall i | 0 <= i < |mem'| && i < w
      ensures BackedAt(s, mem', i)
    {
      PlaceIsTranslated(m, s, |mem'|, i);
      if i < |mem| {
        assert BackedAt(s, mem, i);
      } else {
        assert mem'[i] == LoadByte(m.dir, m.low, s.ram, HEAP_BASE + i);
      }
    }
  }

  lemma CoherentCut(m: Memory, s: Backing, mem: Bytes, w: int, n: nat)
    requires Coherent(m, s, mem, w) && n <= |mem|
    ensures Coherent(m, s, mem[..n], w)
  {
    PagesMonotonic(n, |mem|);
    forall i | 0 <= i < n && i < w
      ensures BackedAt(s, mem[..n], i)
    {
      assert BackedAt(s, mem, i);
    }
  }

  // --------------------------------------------------------- payloads in physical memory

  /** The `n` bytes at heap address `to` in `s'` are those at `from` in `s`, in physical memory. */
  ghost predicate SameRam(s: Backing, from: int, s': Backing, to: int, n: int) {
    forall k | 0 <= k < n :: SameByte(s, from, s', to, k)
  }

  ghost predicate SameByte(s: Backing, from: int, s': Backing, to: int, k: int) {
    var (i, j) := (from - HEAP_BASE + k, to - HEAP_BASE + k);
    && 0 <= i && 0 <= j && Owned(s, i + 1) && Owned(s', j + 1)
    && s'.ram[Place(s', j)] == s.ram[Place(s, i)]
  }

  /** Every live payload of the chain, but for the one at `except`, is in physical memory as it was. */
  ghost predicate RamKept(s: Backing, bs: seq<Block>, s': Backing, except: int) {
    forall b | b in LiveBlocks(bs) && b.Begin() != except :: SameRam(s, b.Begin(), s', b.Begin(), b.size)
  }

  lemma CopyInRam(m: Memory, s: Backing, mem: Bytes, m': Memory, s': Backing, mem': Bytes, w: int, from: int, to: int, n: nat)
    requires Coherent(m, s, mem, w) && Coherent(m', s', mem', w)
    requires CopyOf(mem, from, mem', to, n) && from + n <= HEAP_BASE + w && to + n <= HEAP_BASE + w
    ensures SameRam(s, from, s', to, n)
  {
    hide HeapMapped, Place;
    var (i, j) := (from - HEAP_BASE, to - HEAP_BASE);
    forall k | 0 <= k < n
      ensures SameByte(s, from, s', to, k)
    {
      PagesMonotonic(i + k + 1, |mem|);
      PagesMonotonic(j + k + 1, |mem'|);
      assert BackedAt(s, mem, i + k) && BackedAt(s', mem', j + k);
      assert mem'[j..j + n][k] == mem[i..i + n][k];
    }
  }

  /** Payloads kept in the heap are kept in physical memory, if they lie in the window. */
  lemma KeptInRam(m: Memory, s: Backing, mem: Bytes, m': Memory, s': Backing, mem': Bytes, w: int, bs: seq<Block>, except: int)
    requires Coherent(m, s, mem, w) && Coherent(m', s', mem', w) && PayloadsKept(mem, bs, mem', except)
    requires forall b | b in LiveBlocks(bs) :: b.End() <= HEAP_BASE + w
    ensures RamKept(s, bs, s', except)
  {
    hide Coherent;
    forall b | b in LiveBlocks(bs) && b.Begin() != except
      ensures SameRam(s, b.Begin(), s', b.Begin(), b.size)
    {
      assert Payload(mem', b) == Payload(mem, b);
      CopyInRam(m, s, mem, m', s', mem', w, b.Begin(), b.Begin(), b.size);
    }
  }
}
