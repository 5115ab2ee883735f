/** The kernel's page directory and page tables, changed in place. */
module AddressSpaces {
  import opened Machine
  import opened Frames
  import opened Paging
  import opened Boot

  class AddressSpace {
    const dir: array<Entry>
    const low: array<Entry>

    constructor ()
      ensures fresh(dir) && fresh(low) && Shaped()
    {
      dir := new Entry[DIR_ENTRIES];
      low := new Entry[LOW_WORDS];
    }

    predicate Shaped() { dir != low && dir.Length == DIR_ENTRIES && low.Length == LOW_WORDS }

    ghost predicate Valid()
      reads this, dir, low
    {
      Shaped() && Layout(dir[..], low[..])
    }

    ghost function View(frames: FrameTable): Memory
      reads dir, low, frames.table
    {
      Memory(dir[..], low[..], frames.table[..])
    }

    /** One turn of the loop of map_pages: the first page of the range, unless it is blocked. */
    method MapPage(ghost r: Range, vaddr: Word, frames: FrameTable, f: nat, flags: Flags) returns (ok: bool)
      requires Valid() && r == Range(r.first, vaddr, f, flags) && InTables(View(frames), r, 1)
      modifies dir, low, frames.table
      ensures Valid()
      ensures ok <==> !Blocked(old(dir[..]), old(low[..]), r.first)
      ensures var e := old(dir[..])[r.first / 1024];
              dir[r.first / 1024] == if e.flags.pres then e
                                     else Entry(Flags(true, true, 0, false, e.flags.bit8), e.ignored, e.addr)
      ensures View(frames) == var m := Enter(old(View(frames)), r); if ok then PutPage(m, r) else m
    {
      ghost var m := View(frames);
      StepKeepsLayout(m, r);
      var pde := vaddr / 0x40_0000;
      var pte := (vaddr - pde * 0x40_0000) / 0x1000;
      assert pde == r.first / 1024 && pte == r.first % 1024;
      if !dir[pde].flags.pres {
        dir[pde] := dir[pde].(flags := PRES_RW.(bit8 := dir[pde].flags.bit8));
      }
      if dir[pde].flags.pres && !dir[pde].flags.large {
        var s := dir[pde].addr * 1024 + pte;
        assert s == Slot(r.first);
        if low[s].flags.pres {
          return false;
        }
        low[s] := low[s].(addr := frames.table[f].addr / 0x1000);
        low[s] := low[s].(flags := flags);
        frames.table[f] := frames.table[f].(refCount := frames.table[f].refCount + 1);
        frames.table[f] := frames.table[f].(vaddr := vaddr);
        assert View(frames) == PutPage(Enter(m, r), r);
        return true;
      }
      return false;
    }

    /**
     map_pages. All `n` pages end up mapped on success, and on failure exactly those
     before the first page that is already present or under a 4 MB entry.
     */
    method MapPages(vaddr: Word, frames: FrameTable, f: nat, n: nat, flags: Flags) returns (ok: bool)
      requires Valid() && f + n <= frames.table.Length && vaddr / 0x1000 + n <= ALL_PAGES
      modifies dir, low, frames.table
      ensures Valid()
      ensures var res := Paging.MapPages(old(View(frames)), Range(vaddr / 0x1000, vaddr, f, flags), n);
              View(frames) == res.memory && ok == res.ok
    {
      hide Layout, Enter, PutPage, Blocked;
      ghost var first := vaddr / 0x1000;
      ghost var r := Range(first, vaddr, f, flags);
      ghost var all := Paging.MapPages(View(frames), r, n);
      var cursor := 0;
      var at: int := vaddr;
      while cursor < n
        invariant 0 <= cursor <= n && r == Range(first + cursor, at, f + cursor, flags)
        invariant Valid() && InTables(View(frames), r, n - cursor)
        invariant var rest := Paging.MapPages(View(frames), r, n - cursor); rest.memory == all.memory && rest.ok == all.ok
      {
        var mapped := MapPage(r, at, frames, f + cursor, flags);
        if !mapped {
          return false;
        }
        r, at, cursor := r.Next(), at + 0x1000, cursor + 1;
      }
      return true;
    }

    /** unmap_pages: clears one word for each page, found through the 10-bit address of a 4 MB entry. */
    method UnmapPages(vaddr: Word, n: nat)
      requires Valid() && vaddr / 0x1000 + n <= ALL_PAGES
      modifies low
      ensures Valid()
      ensures forall s | 0 <= s < LOW_WORDS ::
                low[s] == if Cleared(dir[..], vaddr / 0x1000, n, s) then ZERO else old(low[s])
    {
      var cursor := 0;
      var at: int := vaddr;
      ghost var first := vaddr / 0x1000;
      while cursor < n
        invariant 0 <= cursor <= n && at == vaddr + cursor * 0x1000
        invariant forall s | 0 <= s < LOW_WORDS ::
                    low[s] == if Cleared(dir[..], first, cursor, s) then ZERO else old(low[s])
      {
        var pde := at / 0x40_0000;
        var pte := (at - pde * 0x40_0000) / 0x1000;
        assert pde == (first + cursor) / 1024 && pte == (first + cursor) % 1024;
        var s := dir[pde].LargeAddr() * 1024 + pte;
        assert s == StraySlot(dir[..], first + cursor);
        low[s] := ZERO;
        at := at + 0x1000;
        cursor := cursor + 1;
      }
      ClearedIsLow(dir[..], first, n);
    }

    // -------------------------------------------------------------------------- boot

    /** init_page_directory, then the entry 0 that finalize_pagination deletes. */
    method InitPageDirectory()
      requires Shaped()
      modifies dir
      ensures forall d | 0 <= d < DIR_ENTRIES ::
                dir[d] == if d == KERNEL_INDEX then Entry(PRES_RW_4M, 0, 0)
                          else if d == TABLES_INDEX then Entry(PRES_RW_4M, 0, 0x400) else ZERO
    {
      forall d | 0 <= d < DIR_ENTRIES { dir[d] := ZERO; }
      dir[0] := Entry(PRES_RW_4M, 0, 0x0 / 0x40_0000 * 1024);
      dir[KERNEL_INDEX] := Entry(PRES_RW_4M, 0, 0x0 / 0x40_0000 * 1024);
      dir[TABLES_INDEX] := Entry(PRES_RW_4M, 0, 0x40_0000 / 0x40_0000 * 1024);
      dir[0] := ZERO;
    }

    /** init_page_tables: every small directory entry gets its table, and the tables are cleared. */
    method InitPageTables()
      requires Shaped()
      requires forall d | 0 <= d < DIR_ENTRIES ::
                dir[d] == if d == KERNEL_INDEX then Entry(PRES_RW_4M, 0, 0)
                          else if d == TABLES_INDEX then Entry(PRES_RW_4M, 0, 0x400) else ZERO
      modifies dir, low
      ensures Booted(dir[..], low[..], 0)
    {
      var pdeCursor := 0;
      while pdeCursor < 1024
        invariant 0 <= pdeCursor <= 1024
        invariant forall d | 0 <= d < pdeCursor && d != KERNEL_INDEX && d != TABLES_INDEX ::
                    dir[d] == Entry(ZERO.flags, 0, 0x400 + d)
        invariant forall d | pdeCursor <= d < DIR_ENTRIES || d == KERNEL_INDEX || d == TABLES_INDEX :: dir[d] == old(dir[d])
      {
        if !dir[pdeCursor].flags.pres {
          dir[pdeCursor] := dir[pdeCursor].(addr := (0x40_0000 + pdeCursor * 1024 * 4) / 0x1000);
        }
        pdeCursor := pdeCursor + 1;
      }
      forall s | TABLE_WORDS <= s < LOW_WORDS { low[s] := ZERO; }
    }

    /** The inner loop of init_page_directory_for_frames: `count` table entries under directory entry `d`. */
    method FillTable(d: nat, cursor: nat, count: nat)
      requires Valid() && count <= 1024 && cursor < 254 && d == FRAMES_INDEX + cursor && !dir[d].Large()
      modifies low
      ensures forall s | 0 <= s < LOW_WORDS ::
                low[s] == if Slot(d * 1024) <= s < Slot(d * 1024) + count
                          then Entry(PRES_RW, 0, 0x800 + s - Slot(FRAMES_INDEX * 1024)) else old(low[s])
    {
      var pteCursor := 0;
      while pteCursor < count
        invariant 0 <= pteCursor <= count
        invariant forall s | 0 <= s < LOW_WORDS ::
                    low[s] == if Slot(d * 1024) <= s < Slot(d * 1024) + pteCursor
                              then Entry(PRES_RW, 0, 0x800 + s - Slot(FRAMES_INDEX * 1024)) else old(low[s])
      {
        var faddr := META_PADDR + cursor * 0x40_0000 + pteCursor * 0x1000;
        var s := dir[d].addr * 1024 + pteCursor;
        assert s == Slot(d * 1024) + pteCursor;
        low[s] := ZERO;
        low[s] := low[s].(addr := faddr / 0x1000);
        low[s] := low[s].(flags := PRES_RW);
        pteCursor := pteCursor + 1;
      }
    }

    /** The outer loop, once: directory entry `cursor` of the metadata and the first `count` entries of its table. */
    method FillEntry(cursor: nat, count: nat)
      requires Shaped() && cursor < 254 && count <= 1024 && Filling(dir[..], low[..], cursor, cursor * 1024)
      modifies dir, low
      ensures Filling(dir[..], low[..], cursor + 1, cursor * 1024 + count)
    {
      var d := FRAMES_INDEX + cursor;
      dir[d] := dir[d].(flags := PRES_RW.(bit8 := dir[d].flags.bit8));
      FillTable(d, cursor, count);
    }

    /** init_page_directory_for_frames. */
    method InitPageDirectoryForFrames(size: nat)
      requires Shaped() && Booted(dir[..], low[..], 0) && DirCount(size) <= 254
      modifies dir, low
      ensures Booted(dir[..], low[..], size)
    {
      hide Filling;
      var pdeCount := DirCount(size);
      var cursor := 0;
      while cursor < pdeCount
        invariant 0 <= cursor <= pdeCount
        invariant Filling(dir[..], low[..], cursor, if cursor < pdeCount then cursor * 1024 else Filled(size))
      {
        var maxLastPde := LastTable(size);
        FillEntry(cursor, if cursor < pdeCount - 1 then 1024 else maxLastPde);
        cursor := cursor + 1;
      }
    }
  }
}
