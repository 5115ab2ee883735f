/** What the boot code promises about the page tables and the frame table. */
module Boot {
  import opened Machine
  import opened Frames
  import opened Paging
  import FrameRuns

  /** sizeof(struct frame) times the number of frames. */
  function MetaSize(nb: nat): nat { 12 * nb }

  /** Frames found in a RAM region of `length` bytes; the subtraction is in 32 bits. */
  function FrameCount(length: Word): (nb: nat)
    ensures nb < 0x10_0000
  {
    (length - 0x70_0000) % 0x1_0000_0000 / 0x1000
  }

  /** The whole frames that 7 MB less than the region hold; a smaller region wraps to almost 2^20 frames. */
  lemma FrameCountBounds(length: Word)
    ensures length >= 0x70_0000 ==> FrameCount(length) * 0x1000 <= length - 0x70_0000 < (FrameCount(length) + 1) * 0x1000
    ensures length < 0x70_0000 ==> FrameCount(length) >= 0xF_F900
  {
  }

  /** Directory entries for `size` bytes, and how many table entries are filled in the last one. */
  function DirCount(size: nat): nat { size / 0x40_0000 + if size % 0x40_0000 > 0 then 1 else 0 }
  function LastTable(size: nat): nat { size % 0x40_0000 / 0x1000 + if size % 0x1000 > 0 then 1 else 0 }

  /** Table entries that init_page_directory_for_frames fills for `size` bytes, from the first page on. */
  function Filled(size: nat): nat {
    if DirCount(size) == 0 then 0 else (DirCount(size) - 1) * 1024 + LastTable(size)
  }

  /** The pages filled cover the metadata exactly when its size is not a positive multiple of 4 MB. */
  lemma FilledCovers(size: nat)
    ensures Filled(size) >= PagesFor(size) <==> size == 0 || size % 0x40_0000 != 0
    ensures size % 0x40_0000 != 0 ==> Filled(size) == PagesFor(size)
  {
    var q, r := size / 0x40_0000, size % 0x40_0000;
    assert size / 0x1000 == q * 1024 + r / 0x1000 && size % 0x1000 == r % 0x1000;
  }

  /** 12 bytes a frame never add up to a multiple of 4 MB on this machine. */
  lemma MetaNeverFillsLastTable(nb: nat)
    requires 1 <= nb < 0x10_0000
    ensures MetaSize(nb) % 0x40_0000 != 0
  {
    assert 0 <= 12 * nb / 0x40_0000 < 3;
  }

  /** The page tables with `entries` directory entries enabled for the metadata, and `pages` of its pages mapped. */
  ghost predicate Filling(dir: seq<Entry>, low: seq<Entry>, entries: nat, pages: nat) {
    && Layout(dir, low)
    && (forall d | 0 <= d < DIR_ENTRIES && d != KERNEL_INDEX && d != TABLES_INDEX ::
          dir[d] == Entry(if FRAMES_INDEX <= d < FRAMES_INDEX + entries then PRES_RW else ZERO.flags, 0, 0x400 + d))
    && (forall p | 0 <= p < ALL_PAGES ::
          low[Slot(p)] == if 0 <= p - FRAMES_INDEX * 1024 < pages
                          then Entry(PRES_RW, 0, 0x800 + p - FRAMES_INDEX * 1024) else ZERO)
  }

  /** The page tables after boot, for `size` bytes of frame metadata. */
  ghost predicate Booted(dir: seq<Entry>, low: seq<Entry>, size: nat) { Filling(dir, low, DirCount(size), Filled(size)) }

  /** After boot the frame metadata is mapped linearly, for every frame count. */
  lemma MetadataIsLinear(dir: seq<Entry>, low: seq<Entry>, nb: nat, off: nat)
    requires 1 <= nb < 0x10_0000 && Booted(dir, low, MetaSize(nb)) && off < MetaSize(nb)
    ensures GetPhysaddr(dir, low, META_VADDR + off) == META_PADDR + off
    ensures Translate(dir, low, META_VADDR + off) == At(META_PADDR + off)
  {
    MetaNeverFillsLastTable(nb);
    FilledCovers(MetaSize(nb));
    MetadataPage(dir, low, MetaSize(nb), off / 0x1000, off % 0x1000);
  }

  /** The words that boot leaves for the kernel, the page tables, the metadata and everything else. */
  lemma BootWords(dir: seq<Entry>, low: seq<Entry>, nb: nat, p: nat)
    requires 1 <= nb < 0x10_0000 && Booted(dir, low, MetaSize(nb)) && p < ALL_PAGES
    ensures dir[768].Value() == 0x83 && dir[769].Value() == 0x40_0083
    ensures var (d, pages) := (p / 1024, PagesFor(MetaSize(nb)));
            && (d != 768 && d != 769 ==>
                  dir[d].Value() == 0x40_0000 + d * 0x1000 + if 0 <= d * 1024 - 770 * 1024 < pages then 3 else 0)
            && low[0x10_0000 + p].Value() ==
               if 0 <= p - 770 * 1024 < pages then 0x80_0000 + (p - 770 * 1024) * 0x1000 + 3 else 0
  {
    MetaNeverFillsLastTable(nb);
    FilledCovers(MetaSize(nb));
    MetaFits(nb);
    assert low[Slot(p)] == if 0 <= p - FRAMES_INDEX * 1024 < Filled(MetaSize(nb))
                           then Entry(PRES_RW, 0, 0x800 + p - FRAMES_INDEX * 1024) else ZERO;
  }

  lemma MetadataPage(dir: seq<Entry>, low: seq<Entry>, size: nat, q: nat, off: nat)
    requires Booted(dir, low, size) && q < Filled(size) && off < 0x1000 && FRAMES_INDEX + DirCount(size) <= DIR_ENTRIES
    ensures GetPhysaddr(dir, low, META_VADDR + q * 0x1000 + off) == META_PADDR + q * 0x1000 + off
    ensures Translate(dir, low, META_VADDR + q * 0x1000 + off) == At(META_PADDR + q * 0x1000 + off)
  {
    hide GetPhysaddr, Translate;
    var page := FRAMES_INDEX * 1024 + q;
    assert q / 1024 < DirCount(size);
    assert page / 1024 == FRAMES_INDEX + q / 1024;
    PageWalk(dir, low, page, off);
  }

  lemma MetaAligned(nb: nat)
    ensures MetaSize(nb) % 0x1000 == 0 <==> nb % 1024 == 0
  {
    var q, r := nb / 1024, nb % 1024;
    assert MetaSize(nb) == 0x1000 * (3 * q) + 12 * r;
    PageRemainder(3 * q, 12 * r);
    AlignedRest(r);
  }

  lemma PageRemainder(k: nat, x: nat)
    ensures (0x1000 * k + x) % 0x1000 == x % 0x1000
  {
  }

  /** 12 r is less than three pages, and neither 4096 nor 8192 is a multiple of 12. */
  lemma AlignedRest(r: nat)
    requires r < 1024
    ensures 12 * r % 0x1000 == 0 <==> r == 0
  {
    var k := 12 * r / 0x1000;
    assert 0 <= k < 3 && 12 * r == 0x1000 * k + 12 * r % 0x1000;
  }

  /**
   The end of the metadata translates to the end of its physical copy exactly when the
   frame count is not a multiple of 1024; otherwise the walk finds no page and gives 0.
   */
  lemma MetadataEnd(dir: seq<Entry>, low: seq<Entry>, nb: nat)
    requires 1 <= nb < 0x10_0000 && Booted(dir, low, MetaSize(nb))
    ensures GetPhysaddr(dir, low, META_VADDR + MetaSize(nb)) ==
            if nb % 1024 != 0 then META_PADDR + MetaSize(nb) else 0
  {
    hide GetPhysaddr, Booted, Filled;
    var size := MetaSize(nb);
    MetaNeverFillsLastTable(nb);
    FilledCovers(size);
    MetaAligned(nb);
    MetaFits(nb);
    var q := size / 0x1000;
    if nb % 1024 != 0 {
      MetadataPage(dir, low, size, q, size % 0x1000);
    } else {
      NextPageUnmapped(dir, low, size, q);
    }
  }

  lemma MetaFits(nb: nat)
    requires nb < 0x10_0000
    ensures DirCount(MetaSize(nb)) <= 3
  {
  }

  /** The walk finds nothing on the page after the metadata. */
  lemma NextPageUnmapped(dir: seq<Entry>, low: seq<Entry>, size: nat, q: nat)
    requires Booted(dir, low, size) && q == Filled(size) < 0x1000
    ensures GetPhysaddr(dir, low, META_VADDR + q * 0x1000) == 0
  {
    var page := FRAMES_INDEX * 1024 + q;
    PageIndex(page, 0);
    WalkSlotIsSlot(dir, low, page);
    assert low[Slot(page)] == ZERO;
    hide Layout, Filled, Slot;
  }

  // -------------------------------------------------------------- reserved frames

  /** The frame table that boot leaves, for page tables `dir` and `low`. */
  function BootTable(dir: seq<Entry>, low: seq<Entry>, nb: nat): seq<Frame>
    requires |dir| == DIR_ENTRIES && |low| == LOW_WORDS && nb < 0x10_0000
  {
    InitialTable(nb, GetPhysaddr(dir, low, META_VADDR + MetaSize(nb)))
  }

  /** Boot reserves exactly the frames below the end of the metadata, if nb is not a multiple of 1024, and only then. */
  lemma ReservedPrefix(dir: seq<Entry>, low: seq<Entry>, nb: nat)
    requires 1 <= nb < 0x10_0000 && Booted(dir, low, MetaSize(nb))
    ensures (forall i: nat | i < nb ::
               BootTable(dir, low, nb)[i].refCount == if FrameAddress(i) < META_PADDR + MetaSize(nb) then 1 else 0)
            <==> nb % 1024 != 0
  {
    MetadataEnd(dir, low, nb);
    assert BootTable(dir, low, nb)[0].refCount == if nb % 1024 != 0 then 1 else 0;
  }

  /** A reserved record names the record itself, by its virtual address; every other record is clear. */
  lemma BootRecords(dir: seq<Entry>, low: seq<Entry>, nb: nat, i: nat)
    requires i < nb < 0x10_0000 && Booted(dir, low, MetaSize(nb))
    ensures var fr := BootTable(dir, low, nb)[i];
            && fr.addr == 0
            && fr.vaddr == (if nb % 1024 != 0 && FrameAddress(i) < META_PADDR + MetaSize(nb) then META_VADDR + 12 * i else 0)
            && (fr.vaddr != 0 ==> Translate(dir, low, fr.vaddr) == At(META_PADDR + 12 * i))
  {
    hide GetPhysaddr, Translate;
    MetadataEnd(dir, low, nb);
    MetadataIsLinear(dir, low, nb, 12 * i);
  }

  /** First frame that boot leaves unused, and the end of those frames; the last ones wrap around to low addresses. */
  function FreeFrom(nb: nat): int { if nb % 1024 == 0 then 0 else PagesFor(META_PADDR - 0x10_0000 + MetaSize(nb)) }
  function FreeTo(nb: nat): int { if nb % 1024 == 0 || nb < 0xF_FF00 then nb else 0xF_FF00 }

  /** The unused frames after boot, for every frame count. */
  lemma BootUnused(dir: seq<Entry>, low: seq<Entry>, nb: nat)
    requires nb < 0x10_0000 && Booted(dir, low, MetaSize(nb))
    ensures UnusedExactly(BootTable(dir, low, nb), FreeFrom(nb), FreeTo(nb))
  {
    hide GetPhysaddr;
    if nb > 0 { MetadataEnd(dir, low, nb); }
    var end := GetPhysaddr(dir, low, META_VADDR + MetaSize(nb));
    forall j: nat | j < nb
      ensures FrameAddress(j) < end <==> !(FreeFrom(nb) <= j < FreeTo(nb))
    {
      FrameBelow(nb, j);
    }
  }

  lemma FrameBelow(nb: nat, j: nat)
    requires j < nb < 0x10_0000
    ensures 0 <= FrameAddress(j)
    ensures nb % 1024 != 0 ==> (FrameAddress(j) < META_PADDR + MetaSize(nb) <==> !(FreeFrom(nb) <= j < FreeTo(nb)))
  {
    if j < 0xF_FF00 {
      assert FrameAddress(j) == 0x10_0000 + j * 0x1000;
    } else {
      assert FrameAddress(j) == 0x10_0000 + j * 0x1000 - 0x1_0000_0000;
    }
  }

  /** So no run of allocations hands out a frame under the metadata or the kernel unless someone frees it first. */
  lemma ReservedNeverGranted(dir: seq<Entry>, low: seq<Entry>, nb: nat, ops: seq<FrameRuns.Op>, op: FrameRuns.Op, i: nat)
    requires 1 <= nb < 0x10_0000 && nb % 1024 != 0 && Booted(dir, low, MetaSize(nb))
    requires i < nb && FrameRuns.Grants(FrameRuns.Run(BootTable(dir, low, nb), ops), op, i)
    requires FrameRuns.Release(i) !in ops
    ensures FrameAddress(i) >= META_PADDR + MetaSize(nb)
  {
    ReservedPrefix(dir, low, nb);
    FrameRuns.RegrantNeedsFrees(BootTable(dir, low, nb), ops, op, i);
    FrameRuns.CountPositive(ops, FrameRuns.Release(i));
  }

  /** With a multiple of 1024 frames the very first allocation is the frame at 1 MB, the kernel's own. */
  lemma KernelFrameGranted(dir: seq<Entry>, low: seq<Entry>, nb: nat)
    requires 1 <= nb < 0x10_0000 && nb % 1024 == 0 && Booted(dir, low, MetaSize(nb))
    ensures FirstRun(BootTable(dir, low, nb), 1) == 0 && FrameAddress(0) == 0x10_0000
  {
    MetadataEnd(dir, low, nb);
    LowestRunIsFirst(BootTable(dir, low, nb), 0, 1);
  }
}
