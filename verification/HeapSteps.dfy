/** Single steps of the heap code: what each one reads, and what its writes mean for the chain. */
module HeapSteps {
  import opened Machine
  import opened HeapChain
  import opened HeapInvariant
  import opened HeapMemory
  import opened Frames
  import opened KernelData

  /** Taking frames leaves no run that was not there before. */
  lemma RunsShrink(t: seq<Frame>, t': seq<Frame>, f: int, n: int)
    requires CountsAfter(t, t', f, n)
    ensures forall k :: HasRun(t', k) ==> HasRun(t, k)
  {
    forall k | HasRun(t', k)
      ensures HasRun(t, k)
    {
      var i :| UnusedRun(t', i, k);
      assert UnusedRun(t, i, k);
    }
  }

  /** Runs of unused frames depend on the counts alone. */
  lemma SameRuns(t: seq<Frame>, t': seq<Frame>, f: int)
    requires CountsAfter(t, t', f, 2)
    ensures forall n :: HasRun(t', n) <==> HasRun(WithCounts(t, f, 2, 2), n)
  {
    var t2 := WithCounts(t, f, 2, 2);
    forall n
      ensures HasRun(t', n) <==> HasRun(t2, n)
    {
      if HasRun(t', n) {
        var i :| UnusedRun(t', i, n);
        assert UnusedRun(t2, i, n);
      }
      if HasRun(t2, n) {
        var i :| UnusedRun(t2, i, n);
        assert forall j | i <= j < i + n :: t2[j].refCount == t'[j].refCount;
        assert UnusedRun(t', i, n);
      }
    }
  }

  lemma WholePages(n: nat)
    ensures PagesFor(n * 0x1000) == n
  {
  }

  lemma LimitPages(pages: nat)
    ensures PagesFor(PAGE_INFOS + pages * 0x1000) == pages + 1
  {
  }

  lemma WalkStart(m: Bytes, c: Chain, size: int)
    requires Stored(m, c)
    ensures START == if c.blocks != [] then c.blocks[0].at else Top(c.blocks)
    ensures BestFit(c.blocks[..0], size) == -1
  {
  }

  lemma FoundAt(m: Bytes, c: Chain, k: int)
    requires Stored(m, c) && 0 <= k < |c.blocks|
    ensures Find(c.blocks, c.blocks[k].Begin()) == k
  {
    FindUnique(c.blocks, k);
  }

  lemma BestFitStep(bs: seq<Block>, k: int, size: int)
    requires 0 <= k < |bs|
    ensures var r := BestFit(bs[..k], size);
            && -1 <= r < k
            && BestFit(bs[..k + 1], size) ==
               if bs[k].free && bs[k].size >= size && (r == -1 || bs[k].size < bs[r].size) then k else r
  {
    assert bs[..k + 1][..k] == bs[..k];
  }

  /** The first piece of a split block begins where the block did. */
  lemma FirstPiece(m: Bytes, b: Block, size: int)
    requires Holds(m, Pieces(b, size))
    ensures In(m, b.at, HEADER) && Load(m, b.at + 8) == b.Begin()
  {
    hide Load;
    assert HeaderAt(m, Pieces(b, size)[0]);
  }

  /** kmalloc on chains, case by case. */
  lemma KmallocCases(c: Chain, size: int, granted: bool)
    requires size >= 1
    ensures var i := BestFit(c.blocks, size);
            && (i != -1 ==> Kmalloc(c, size, granted) == (c.(blocks := Take(c.blocks, i, size)), c.blocks[i].Begin()))
            && (i == -1 && PagesNeeded(c, size) != 0 && !granted ==> Kmalloc(c, size, granted) == (c, 0))
            && (i == -1 && (PagesNeeded(c, size) == 0 || granted) ==>
                  Kmalloc(c, size, granted) ==
                  (Chain(Append(c.blocks, size), c.pages + PagesNeeded(c, size)), Top(c.blocks) + HEADER))
  {
  }

  lemma AskedFits(c: Chain, size: int)
    requires Inv(c) && size >= 1 && Limit(c) < 0x8000_0000
    ensures PagesNeeded(c, size) >= 0 && Top(c.blocks) >= START
    ensures Limit(c) + PagesNeeded(c, size) * 0x1000 < 0x8000_0000 ==>
              Top(c.blocks) + HEADER + size < 0x1_0000_0000 && PagesNeeded(c, size) < 0x8_0000
  {
    if c.blocks != [] { Ordered(c.blocks, 0, |c.blocks| - 1); }
  }

  lemma AppendFits(c: Chain, size: int)
    requires Inv(c) && size >= 1
    ensures PagesNeeded(c, size) >= 0 && Top(c.blocks) + HEADER + size <= Limit(c) + PagesNeeded(c, size) * 0x1000
  {
  }

  lemma SelfKept(m: Bytes, c: Chain, except: int)
    requires Stored(m, c)
    ensures PayloadsKept(m, c.blocks, m, except)
  {
    hide Load;
    PageRecord(m, c);
    assert c.blocks[..|c.blocks|] == c.blocks;
    TailPayloads(m, m, c, |c.blocks|, except);
  }

  lemma NoPayload(m: Bytes, m': Bytes, except: int)
    ensures PayloadsKept(m, [], m', except)
  {
  }

  lemma CoalesceTop(c: Chain, m: Bytes, i: int)
    requires Stored(m, c) && 0 <= i < |c.blocks|
    ensures Top(Coalesce(c.blocks, i)) == Top(c.blocks)
  {
    CoalesceKeepsSound(c, i);
  }

  lemma MergedInside(m: Bytes, c: Chain, i: int)
    requires Stored(m, c) && 0 <= i < |c.blocks|
    ensures START <= Merged(c.blocks, i).at && Merged(c.blocks, i).size >= 1 && Merged(c.blocks, i).End() <= Top(c.blocks)
  {
    hide Load;
    MergeNumbers(m, c, i);
    if i > 0 { BlockStored(m, c, i - 1); }
  }

  lemma MergedFree(bs: seq<Block>, i: int)
    requires 0 <= i < |bs|
    ensures Merged(bs, i).free
  {
  }

  /** The merge keeps all payloads but that of block `i`, and so does giving back the tail. */
  lemma FreeKept(m: Bytes, c: Chain, i: int, m1: Bytes, m2: Bytes)
    requires Stored(m, c) && 0 <= i < |c.blocks|
    requires PayloadsKept(m, c.blocks, m1, c.blocks[i].Begin()) && PayloadsKept(m1, Coalesce(c.blocks, i), m2, 0)
    ensures PayloadsKept(m, c.blocks, m2, c.blocks[i].Begin())
  {
    hide Load, PayloadsKept, Coalesce;
    StoredSound(m, c);
    CoalesceRemoves(c.blocks, i);
    forall b | b in LiveBlocks(c.blocks)
      ensures b.Begin() != 0
    {
      LiveStored(m, c, b);
    }
    KeptTrans(m, c.blocks, m1, Coalesce(c.blocks, i), m2, c.blocks[i].Begin(), 0);
  }

  /** After a kmalloc the old live blocks are live and clear of the new one, and block `i` reads as before. */
  lemma OldStaysLive(m: Bytes, c: Chain, m1: Bytes, d: Chain, i: int, g: Block)
    requires Stored(m, c) && Stored(m1, d) && PayloadsKept(m, c.blocks, m1, 0)
    requires LiveBlocks(d.blocks) == LiveBlocks(c.blocks) + {g} && 0 <= i < |c.blocks| && !c.blocks[i].free
    requires forall b | b in LiveBlocks(c.blocks) :: b.End() <= g.at || g.End() <= b.at
    ensures g in d.blocks && g.End() <= Top(d.blocks)
    ensures forall b | b in LiveBlocks(c.blocks) :: b in LiveBlocks(d.blocks) && b.Begin() != g.Begin()
    ensures var b := c.blocks[i];
            && HeaderAt(m1, b) && b.End() <= Top(d.blocks) && b.End() <= Top(c.blocks)
            && In(m1, b.Begin(), b.size) && CopyOf(m, b.Begin(), m1, b.Begin(), b.size)
  {
    hide Load;
    var b := c.blocks[i];
    BlockStored(m, c, i);
    assert b in LiveBlocks(c.blocks) && b in LiveBlocks(d.blocks) && g in LiveBlocks(d.blocks);
    LiveStored(m1, d, b);
    LiveStored(m1, d, g);
    forall a | a in LiveBlocks(c.blocks)
      ensures a.Begin() != g.Begin()
    {
      LiveStored(m, c, a);
    }
  }

  lemma CopyTrans(m: Bytes, m1: Bytes, m2: Bytes, a: int, p: int, n: int)
    requires CopyOf(m, a, m1, a, n) && CopyOf(m1, a, m2, p, n)
    ensures CopyOf(m, a, m2, p, n)
  {
  }

  lemma LiveStored(m: Bytes, c: Chain, b: Block)
    requires Stored(m, c) && b in LiveBlocks(c.blocks)
    ensures HeaderAt(m, b) && START <= b.at && b.size >= 1 && b.End() <= Top(c.blocks) && b.Begin() != 0
  {
    var k :| 0 <= k < |c.blocks| && c.blocks[k] == b;
    BlockStored(m, c, k);
  }

  lemma StoredSound(m: Bytes, c: Chain)
    requires Stored(m, c)
    ensures Sound(c)
  {
  }

  /** What merge_freed_ptr reads around block `i`, and what it must arrive at. */
  lemma MergeNumbers(m: Bytes, c: Chain, i: int)
    requires Stored(m, c) && 0 <= i < |c.blocks|
    ensures var (bs, b, r) := (c.blocks, c.blocks[i], Merged(c.blocks, i));
            && In(m, b.at, HEADER) && ReadHeader(m, b.at) == HeaderOf(b) && START <= b.at && b.End() <= Top(bs)
            && (b.End() < Top(bs) <==> i + 1 < |bs|)
            && (i + 1 < |bs| ==>
                  var a := bs[i + 1];
                  a.at == b.End() && a.Begin() <= Top(bs) && In(m, a.at, HEADER) && ReadHeader(m, a.at) == HeaderOf(a))
            && (i > 0 ==>
                  var p := bs[i - 1];
                  p.size >= 1 && p.End() == b.at && In(m, p.at, HEADER) && ReadHeader(m, p.at) == HeaderOf(p))
            && r.at == (if i > 0 && bs[i - 1].free then bs[i - 1].at else b.at)
            && r.size == b.size + (if i > 0 && bs[i - 1].free then HEADER + bs[i - 1].size else 0)
                                + (if i + 1 < |bs| && bs[i + 1].free then HEADER + bs[i + 1].size else 0)
            && b.size >= 1 && b.End() <= r.End() <= Top(bs)
  {
    hide Load;
    BlockStored(m, c, i);
    if i > 0 { BlockStored(m, c, i - 1); }
    if i + 1 < |c.blocks| { BlockStored(m, c, i + 1); }
    MergedSpan(c.blocks, i);
  }

  /** Giving back `n` pages takes away the last block, which is free and lies at `h`. */
  ghost predicate GivesBack(c: Chain, h: int, n: int) {
    && c.blocks != [] && c.blocks[|c.blocks| - 1].at == h && START <= h <= Limit(c) - n * 0x1000
    && ReleaseTail(c) == Chain(c.blocks[..|c.blocks| - 1], c.pages - n)
  }

  /** What pagesize_rm_update computes for the free block `j`, and what it means for the chain. */
  lemma ReleaseNumbers(m: Bytes, c: Chain, j: int)
    requires Stored(m, c) && 0 <= j < |c.blocks| && c.blocks[j].free
    requires j + 1 < |c.blocks| ==> ReleaseTail(c) == c
    ensures var (b, n) := (c.blocks[j], (Limit(c) - c.blocks[j].at) / 0x1000);
            if b.End() >= Top(c.blocks) && n > 0 then GivesBack(c, b.at, n)
            else ReleaseTail(c) == c && Inv(c)
  {
    hide Load, HeaderAt;
    BlockStored(m, c, j);
    if j + 1 < |c.blocks| { BlockStored(m, c, j + 1); }
    StoredSound(m, c);
    ReleaseKeepsInv(c);
  }

  lemma CopyStarts(m: Bytes, dest: int, src: int)
    requires In(m, dest, 0) && In(m, src, 0)
    ensures CopiedUp(m, src, m, dest, 0)
  {
  }

  lemma CopyStep(m: Bytes, m1: Bytes, m2: Bytes, dest: int, src: int, k: nat)
    requires CopiedUp(m, src, m1, dest, k) && In(m, src, k + 1) && In(m, dest, k + 1)
    requires m2 == m1[dest - HEAP_BASE + k := m1[src - HEAP_BASE + k]]
    ensures CopiedUp(m, src, m2, dest, k + 1)
  {
    forall j | 0 <= j < k
      ensures CopiedAt(m, src, m2, dest, j)
    {
      assert CopiedAt(m, src, m1, dest, j);
    }
    assert CopiedAt(m, src, m2, dest, k);
  }

  lemma CopyEnds(m: Bytes, m': Bytes, dest: int, src: int, n: nat)
    requires CopiedUp(m, src, m', dest, n)
    ensures !(src < dest < src + n) ==> CopyOf(m, src, m', dest, n)
  {
    var (to, from) := (dest - HEAP_BASE, src - HEAP_BASE);
    if !(src < dest < src + n) {
      var (d, s) := (m'[to..to + n], m[from..from + n]);
      forall k | 0 <= k < n
        ensures d[k] == s[k]
      {
        assert CopiedAt(m, src, m', dest, k);
      }
    }
  }

  lemma FreshStored(m: Bytes)
    requires |m| == PAGE_INFOS + 0x1000 && Load(m, HEAP_BASE) == 1 && Load(m, HEAP_BASE + 4) == START
    ensures Stored(m, FRESH) && Inv(FRESH)
  {
  }

  lemma OtherFields(m: Bytes, m': Bytes, h: int, a: int)
    requires In(m, h, HEADER) && a in {h, h + 4, h + 8, h + 12} && SameOutside(m, m', a, a + 4)
    ensures a != h ==> Load(m', h) == Load(m, h)
    ensures a != h + 4 ==> Load(m', h + 4) == Load(m, h + 4)
    ensures a != h + 8 ==> Load(m', h + 8) == Load(m, h + 8)
    ensures a != h + 12 ==> Load(m', h + 12) == Load(m, h + 12)
  {
  }
}
