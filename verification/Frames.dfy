/** The physical frame allocator: first-fit runs over reference counts. */
module Frames {
  import opened Machine

  datatype Frame = Frame(refCount: int, addr: Word, vaddr: Word)

  /** Physical address that frame `i` stands for (RAM_BASE_ADDR + i * FRAME_SIZE in 32 bits). */
  function FrameAddress(i: nat): Word { (0x10_0000 + i * 0x1000) % 0x1_0000_0000 }

  /** `n` consecutive unused frames from `i`. */
  predicate UnusedRun(t: seq<Frame>, i: int, n: int) {
    0 <= i && i + n <= |t| && forall j | i <= j < i + n :: t[j].refCount == 0
  }

  /** `i` is the lowest start of `n` consecutive unused frames. */
  ghost predicate LowestRun(t: seq<Frame>, i: int, n: int) {
    UnusedRun(t, i, n) && forall j | 0 <= j < i :: !UnusedRun(t, j, n)
  }

  ghost predicate HasRun(t: seq<Frame>, n: int) { n >= 1 && exists i :: UnusedRun(t, i, n) }

  /** Start of the lowest run of `n` unused frames, or -1. */
  function FirstRun(t: seq<Frame>, n: int): (r: int)
    ensures r == -1 <==> !HasRun(t, n)
    ensures r != -1 ==> LowestRun(t, r, n)
  {
    if n < 1 then -1 else FirstRunFrom(t, 0, n)
  }

  function FirstRunFrom(t: seq<Frame>, i: nat, n: int): (r: int)
    requires n >= 1
    ensures r == -1 ==> forall j | i <= j :: !UnusedRun(t, j, n)
    ensures r != -1 ==> i <= r && UnusedRun(t, r, n) && forall j | i <= j < r :: !UnusedRun(t, j, n)
    decreases |t| - i
  {
    if i + n > |t| then -1
    else if UnusedRun(t, i, n) then i
    else FirstRunFrom(t, i + 1, n)
  }

  /** Only the lowest start is the lowest start. */
  lemma LowestRunIsFirst(t: seq<Frame>, i: int, n: int)
    requires n >= 1 && LowestRun(t, i, n)
    ensures FirstRun(t, n) == i
  {
    var r := FirstRun(t, n);
    assert r == -1 || r == i || (r < i && UnusedRun(t, r, n)) || (i < r && UnusedRun(t, i, n));
  }

  /** The table with every count in i..i+n set to `r`. */
  function WithCounts(t: seq<Frame>, i: int, n: int, r: int): seq<Frame> {
    seq(|t|, j requires 0 <= j < |t| => if i <= j < i + n then t[j].(refCount := r) else t[j])
  }

  /** The unused frames are exactly those from `lo` to `hi`. */
  ghost predicate UnusedExactly(t: seq<Frame>, lo: int, hi: int) {
    0 <= lo && hi <= |t| && forall j | 0 <= j < |t| :: t[j].refCount == 0 <==> lo <= j < hi
  }

  lemma RunsOfInterval(t: seq<Frame>, lo: int, hi: int, n: int)
    requires UnusedExactly(t, lo, hi)
    ensures HasRun(t, n) <==> 1 <= n <= hi - lo
    ensures HasRun(t, n) ==> FirstRun(t, n) == lo && UnusedExactly(WithCounts(t, lo, n, 2), lo + n, hi)
  {
    if HasRun(t, n) {
      var i :| UnusedRun(t, i, n);
      assert t[i].refCount == 0 && t[i + n - 1].refCount == 0;
    }
    if 1 <= n <= hi - lo {
      assert UnusedRun(t, lo, n);
      forall j | 0 <= j < lo
        ensures !UnusedRun(t, j, n)
      {
        assert t[j].refCount != 0;
      }
      LowestRunIsFirst(t, lo, n);
    }
  }

  /** The table that init_ram_frames leaves when the metadata ends at physical address `end`. */
  function InitialTable(nb: nat, end: int): seq<Frame>
    requires nb < 0x10_0000
  {
    seq(nb, i requires 0 <= i < nb => if FrameAddress(i) < end then Frame(1, 0, META_VADDR + 12 * i) else Frame(0, 0, 0))
  }

  /** What a free does to one count: down by one, never below zero. */
  function Dropped(r: int): int { if r - 1 < 0 then 0 else r - 1 }

  class FrameTable {
    const table: array<Frame>
    /** Base and length of the RAM region in the boot memory map. */
    const mapBase: Word
    const mapLength: Word

    constructor (nb: nat, mapBase: Word, mapLength: Word)
      ensures fresh(table) && table.Length == nb
      ensures this.mapBase == mapBase && this.mapLength == mapLength
    {
      this.table := new Frame[nb](_ => Frame(0, 0, 0));
      this.mapBase := mapBase;
      this.mapLength := mapLength;
    }

    /** init_ram_frames, given the physical address of the end of the metadata. */
    method InitRamFrames(end: int)
      requires table.Length < 0x10_0000
      modifies table
      ensures table[..] == InitialTable(table.Length, end)
      ensures forall i: nat | i < table.Length ::
                table[i] == if FrameAddress(i) < end then Frame(1, 0, META_VADDR + 12 * i) else Frame(0, 0, 0)
    {
      forall i | 0 <= i < table.Length { table[i] := Frame(0, 0, 0); }
      var cursor := 0;
      while cursor < table.Length
        invariant 0 <= cursor <= table.Length
        invariant forall i | 0 <= i < cursor :: table[i] == InitialTable(table.Length, end)[i]
        invariant forall i | cursor <= i < table.Length :: table[i] == Frame(0, 0, 0)
      {
        var addr := FrameAddress(cursor);
        table[cursor] := table[cursor].(refCount := if addr < end then 1 else 0);
        if table[cursor].refCount != 0 {
          table[cursor] := table[cursor].(vaddr := META_VADDR + cursor * 12);
        }
        cursor := cursor + 1;
      }
    }

    /** alloc_frame; -1 stands for NULL. */
    method AllocFrame() returns (r: int)
      modifies table
      ensures r == FirstRun(old(table[..]), 1)
      ensures table[..] == if r == -1 then old(table[..]) else WithCounts(old(table[..]), r, 1, 1)
      ensures forall j | 0 <= j < table.Length :: table[j] == if j == r then old(table[j]).(refCount := 1) else old(table[j])
    {
      var cursor := 0;
      while cursor < table.Length
        invariant 0 <= cursor <= table.Length
        invariant forall j | 0 <= j < cursor :: !UnusedRun(table[..], j, 1)
        invariant table[..] == old(table[..])
      {
        if table[cursor].refCount == 0 {
          LowestRunIsFirst(table[..], cursor, 1);
          table[cursor] := table[cursor].(refCount := 1);
          return cursor;
        }
        cursor := cursor + 1;
      }
      return -1;
    }

    method SetRefCount(f: nat, n: nat, refCount: int)
      requires f + n <= table.Length
      modifies table
      ensures table[..] == WithCounts(old(table[..]), f, n, refCount)
      ensures forall j | 0 <= j < table.Length ::
                table[j] == if f <= j < f + n then old(table[j]).(refCount := refCount) else old(table[j])
    {
      var cursor := 0;
      while cursor < n
        invariant 0 <= cursor <= n
        invariant forall j | 0 <= j < table.Length ::
                    table[j] == if f <= j < f + cursor then old(table[j]).(refCount := refCount) else old(table[j])
      {
        table[f + cursor] := table[f + cursor].(refCount := refCount);
        cursor := cursor + 1;
      }
    }

    /** alloc_frames: the first index of the lowest run, or -1 for FAILED. */
    method AllocFrames(n: int) returns (r: int)
      modifies table
      ensures r == FirstRun(old(table[..]), n)
      ensures table[..] == if r == -1 then old(table[..]) else WithCounts(old(table[..]), r, n, 1)
      ensures forall j | 0 <= j < table.Length ::
                table[j] == if r <= j < r + n && r != -1 then old(table[j]).(refCount := 1) else old(table[j])
    {
      var cursor, count, saved := 0, 0, -1;
      while cursor < table.Length
        invariant 0 <= cursor <= table.Length && 0 <= count <= cursor
        invariant table[..] == old(table[..])
        invariant if saved == -1 then count == 0 else saved == cursor - count && count > 0
        invariant forall j | cursor - count <= j < cursor :: table[j].refCount == 0
        invariant cursor > count ==> table[cursor - count - 1].refCount != 0
        invariant n >= 1 ==> count < n
        invariant n >= 1 ==> forall j | 0 <= j < cursor - count :: !UnusedRun(table[..], j, n)
      {
        if table[cursor].refCount == 0 {
          if saved == -1 {
            saved := cursor;
          }
          count := count + 1;
          if count == n {
            LowestRunIsFirst(table[..], saved, n);
            SetRefCount(saved, n, 1);
            return saved;
          }
        } else {
          saved, count := -1, 0;
        }
        cursor := cursor + 1;
      }
      return -1;
    }

    method FreeFrame(i: nat)
      requires i < table.Length
      modifies table
      ensures table[..] == old(table[..])[i := old(table[i]).(refCount := Dropped(old(table[i].refCount)))]
      ensures old(table[i].refCount) >= 1 ==> table[i].refCount == old(table[i].refCount) - 1
      ensures old(table[i].refCount) <= 0 ==> table[i].refCount == 0
    {
      table[i] := table[i].(refCount := table[i].refCount - 1);
      if table[i].refCount < 0 {
        table[i] := table[i].(refCount := 0);
      }
    }
  }
}
