/** What kmalloc, free and realloc leave, said by sizes and addresses alone, without the functions that compute it. */
module HeapExact {
  import opened HeapChain
  import opened HeapInvariant

  // ---------------------------------------------------------------------- kmalloc

  lemma BestFitUnique(bs: seq<Block>, size: int, i: int)
    requires IsBestFit(bs, size, i)
    ensures BestFit(bs, size) == i
  {
    var r := BestFit(bs, size);
    assert r != -1 && Fits(bs[r], size) && Fits(bs[i], size);
  }

  /** The fewest pages after which the end lies strictly below the limit, and none if it lies at or below it already. */
  lemma PagesNeededExactly(c: Chain, size: int)
    requires Inv(c) && size >= 1
    ensures var (n, end) := (PagesNeeded(c, size), Top(c.blocks) + HEADER + size);
            && (n == 0 <==> end <= Limit(c))
            && (n != 0 ==> n > 0 && Limit(c) + (n - 1) * 0x1000 <= end < Limit(c) + n * 0x1000)
  {
  }

  /**
   kmalloc in free block `i`, the best fit: `size` bytes and a free block with the rest, if
   that can hold a byte beside its header, and the block as it is otherwise. No page moves.
   */
  lemma FittingKmalloc(c: Chain, size: int, granted: bool, i: int)
    requires size >= 1 && IsBestFit(c.blocks, size, i)
    ensures var (d, p, b) := (Kmalloc(c, size, granted).0, Kmalloc(c, size, granted).1, c.blocks[i]);
            && p == b.at + 16 && d.pages == c.pages
            && d.blocks == c.blocks[..i]
                           + (if b.size >= size + 17
                              then [Block(b.at, size, false), Block(b.at + 16 + size, b.size - size - 16, true)]
                              else [Block(b.at, b.size, false)])
                           + c.blocks[i + 1..]
  {
    BestFitUnique(c.blocks, size, i);
  }

  /** kmalloc where nothing fits: a block of exactly `size` bytes at the end, or NULL and no change. */
  lemma AppendingKmalloc(c: Chain, size: int, granted: bool)
    requires Inv(c) && size >= 1 && forall j | 0 <= j < |c.blocks| :: !Fits(c.blocks[j], size)
    ensures var (d, p, end) := (Kmalloc(c, size, granted).0, Kmalloc(c, size, granted).1, Top(c.blocks) + 16 + size);
            if end <= Limit(c) || granted then
              && p == Top(c.blocks) + 16 && d.blocks == c.blocks + [Block(Top(c.blocks), size, false)]
              && (end <= Limit(c) ==> d.pages == c.pages)
              && (end > Limit(c) ==> Limit(d) - 0x1000 <= end < Limit(d))
            else d == c && p == 0
  {
    assert BestFit(c.blocks, size) == -1;
    PagesNeededExactly(c, size);
  }

  /** The block that a kmalloc returns is live, and of exactly the size asked unless a fit is too small to split. */
  lemma KmallocSize(c: Chain, size: int, granted: bool)
    requires Inv(c) && size >= 1 && Kmalloc(c, size, granted).1 != 0
    ensures var (d, p) := Kmalloc(c, size, granted);
            exists g ::
              && g in LiveBlocks(d.blocks) && g !in LiveBlocks(c.blocks) && g.Begin() == p
              && LiveBlocks(d.blocks) == LiveBlocks(c.blocks) + {g}
              && (if exists i :: IsBestFit(c.blocks, size, i) && c.blocks[i].size < size + 17
                  then size <= g.size < size + 17 && Block(g.at, g.size, true) in c.blocks
                  else g.size == size)
  {
    var g := Granted(c, size);
    KmallocGrants(c, size, granted);
    var i := BestFit(c.blocks, size);
    if exists k :: IsBestFit(c.blocks, size, k) && c.blocks[k].size < size + 17 {
      var k :| IsBestFit(c.blocks, size, k) && c.blocks[k].size < size + 17;
      BestFitUnique(c.blocks, size, k);
      assert g == c.blocks[k].(free := false) && c.blocks[k] == Block(g.at, g.size, true);
    } else if i != -1 {
      assert IsBestFit(c.blocks, size, i);
    }
    assert g.End() > g.at;
  }

  // ------------------------------------------------------------------------- free

  /** End of the last live block; START if there is none. */
  function LiveEnd(bs: seq<Block>): int {
    if bs == [] then START
    else if !bs[|bs| - 1].free then bs[|bs| - 1].End()
    else LiveEnd(bs[..|bs| - 1])
  }

  lemma FreeTail(bs: seq<Block>)
    requires Tiled(bs) && Coalesced(bs) && bs != [] && bs[|bs| - 1].free
    ensures LiveEnd(bs) == LiveEnd(bs[..|bs| - 1]) == Top(bs[..|bs| - 1]) == bs[|bs| - 1].at < Top(bs)
  {
    var n := |bs| - 1;
    if n > 0 {
      assert bs[n - 1].End() == bs[n - 1 + 1].at && !bs[n - 1].free;
    }
  }

  /**
   Where the heap ends after a free. If less is live than the heap holds and a whole page
   lies beyond, it ends with the last live block and less than a page beyond is kept;
   otherwise neither the end nor the limit moves.
   */
  lemma FreeEnds(c: Chain, ptr: int)
    requires Inv(c)
    ensures var (d, e) := (Free(c, ptr), LiveEnd(Free(c, ptr).blocks));
            if e < Top(c.blocks) && Limit(c) >= e + 0x1000
            then Top(d.blocks) == e <= Limit(d) < e + 0x1000
            else Top(d.blocks) == Top(c.blocks) && d.pages == c.pages
  {
    hide Coalesce;
    var i := Find(c.blocks, ptr);
    var x := if i == -1 then c.blocks else Coalesce(c.blocks, i);
    if i != -1 { CoalesceKeepsSound(c, i); }
    if x != [] && x[|x| - 1].free { FreeTail(x); }
  }

  lemma LiveInside(bs: seq<Block>, b: Block)
    requires Tiled(bs) && b in LiveBlocks(bs)
    ensures START <= b.at && b.at + 17 <= b.End() <= Top(bs)
    ensures b.End() == Top(bs) ==> b == bs[|bs| - 1]
  {
    var k :| 0 <= k < |bs| && bs[k] == b;
    Ordered(bs, 0, k);
    Ordered(bs, k, |bs| - 1);
  }

  /** Without its last block, which is not in the rest a second time. */
  lemma LiveInit(bs: seq<Block>)
    requires Tiled(bs) && Coalesced(bs) && bs != []
    ensures var (init, last) := (bs[..|bs| - 1], bs[|bs| - 1]);
            && Tiled(init) && Coalesced(init) && Top(init) == last.at && last.at < Top(bs)
            && LiveBlocks(init) == LiveBlocks(bs) - {last}
            && (last.free && init != [] ==> init[|init| - 1] in LiveBlocks(bs))
  {
    var n := |bs| - 1;
    if n > 0 { assert bs[n - 1].End() == bs[n - 1 + 1].at; }
    assert bs == bs[..n] + [bs[n]];
    assert bs[n] !in bs[..n] by {
      forall k | 0 <= k < n
        ensures bs[k] != bs[n]
      {
        Ordered(bs, k, n);
      }
    }
  }

  /** What is live and where the heap ends determine every block, the free ones included. */
  lemma {:induction false} ChainUnique(a: seq<Block>, b: seq<Block>)
    requires Tiled(a) && Coalesced(a) && Tiled(b) && Coalesced(b)
    requires LiveBlocks(a) == LiveBlocks(b) && Top(a) == Top(b)
    ensures a == b
    decreases |a|
  {
    hide Tiled, Coalesced, LiveBlocks;
    if a != [] { LiveInit(a); Ordered(a, 0, |a| - 1); }
    if b != [] { LiveInit(b); Ordered(b, 0, |b| - 1); }
    if a != [] && b != [] {
      var (m, n) := (|a| - 1, |b| - 1);
      SameLast(a, b);
      ChainUnique(a[..m], b[..n]);
      assert a == a[..m] + [a[m]] && b == b[..n] + [b[n]];
    }
  }

  lemma SameLast(a: seq<Block>, b: seq<Block>)
    requires Tiled(a) && Coalesced(a) && Tiled(b) && Coalesced(b) && a != [] && b != []
    requires LiveBlocks(a) == LiveBlocks(b) && Top(a) == Top(b)
    ensures a[|a| - 1] == b[|b| - 1]
  {
    var (la, lb) := (a[|a| - 1], b[|b| - 1]);
    if !la.free {
      LiveInside(b, la);
    } else if !lb.free {
      LiveInside(a, lb);
    } else {
      LastGap(a, b);
      LastGap(b, a);
    }
  }

  lemma LastGap(a: seq<Block>, b: seq<Block>)
    requires Tiled(a) && Coalesced(a) && Tiled(b) && Coalesced(b) && a != [] && b != []
    requires LiveBlocks(a) == LiveBlocks(b) && a[|a| - 1].free && b[|b| - 1].free
    ensures a[|a| - 1].at <= b[|b| - 1].at
  {
    LiveInit(a);
    LiveInit(b);
    var (init, rest) := (a[..|a| - 1], b[..|b| - 1]);
    Ordered(b, 0, |b| - 1);
    if init != [] {
      LiveInside(rest, init[|init| - 1]);
    }
  }

  /** free is the only thing that takes away the block at `ptr`, leaves no two free blocks together, and ends where it does. */
  lemma FreeExactly(c: Chain, ptr: int, bs: seq<Block>)
    requires Inv(c) && Tiled(bs) && Coalesced(bs) && Top(bs) == Top(Free(c, ptr).blocks)
    requires LiveBlocks(bs) == set b | b in LiveBlocks(c.blocks) && b.Begin() != ptr
    ensures bs == Free(c, ptr).blocks
  {
    FreeKeepsInv(c, ptr);
    FreeRemoves(c, ptr);
    ChainUnique(bs, Free(c, ptr).blocks);
  }

  // ---------------------------------------------------------------------- realloc

  /** A live block is found by its pointer. */
  lemma FindLive(bs: seq<Block>, b: Block)
    requires Tiled(bs) && b in LiveBlocks(bs)
    ensures Find(bs, b.Begin()) != -1 && bs[Find(bs, b.Begin())] == b
  {
    var k :| 0 <= k < |bs| && bs[k] == b;
    FindUnique(bs, k);
  }

  /**
   realloc of live block `b` to a positive size. The pointer comes back exactly if the block
   is large enough, and then nothing changes. A larger size gives NULL and no change exactly
   if nothing fits, pages are needed and the break cannot move; otherwise another block with
   room for the size, and `b` stays live.
   */
  lemma ReallocExactly(c: Chain, b: Block, size: int, granted: bool)
    requires Inv(c) && b in LiveBlocks(c.blocks) && size >= 1
    ensures var (d, p) := Realloc(c, b.Begin(), size, granted);
            && (p == b.Begin() <==> b.size >= size)
            && (p == b.Begin() || p == 0 ==> d == c)
            && (p == 0 <==> && b.size < size && (forall j | 0 <= j < |c.blocks| :: !Fits(c.blocks[j], size))
                            && Top(c.blocks) + 16 + size > Limit(c) && !granted)
            && (p != 0 ==> exists g :: g in LiveBlocks(d.blocks) && g.Begin() == p && g.size >= size)
            && LiveBlocks(c.blocks) <= LiveBlocks(d.blocks)
  {
    FindLive(c.blocks, b);
    LiveInside(c.blocks, b);
    if b.size < size {
      MovingKmalloc(c, b, size, granted);
    } else {
      assert b in LiveBlocks(c.blocks) && b.Begin() == b.Begin() && b.size >= size;
    }
  }

  lemma MovingKmalloc(c: Chain, b: Block, size: int, granted: bool)
    requires Inv(c) && b in LiveBlocks(c.blocks) && size >= 1
    ensures var (d, p) := Kmalloc(c, size, granted);
            && p != b.Begin() && (p == 0 ==> d == c)
            && (p == 0 <==> && (forall j | 0 <= j < |c.blocks| :: !Fits(c.blocks[j], size))
                            && Top(c.blocks) + 16 + size > Limit(c) && !granted)
            && (p != 0 ==> exists g :: g in LiveBlocks(d.blocks) && g.Begin() == p && g.size >= size)
            && LiveBlocks(c.blocks) <= LiveBlocks(d.blocks)
  {
    KmallocGrants(c, size, granted);
    PagesNeededExactly(c, size);
    LiveInside(c.blocks, b);
    var (d, p, g) := (Kmalloc(c, size, granted).0, Kmalloc(c, size, granted).1, Granted(c, size));
    var i := BestFit(c.blocks, size);
    if i != -1 {
      Ordered(c.blocks, i, i);
    } else if c.blocks != [] {
      Ordered(c.blocks, 0, |c.blocks| - 1);
    }
    if p != 0 {
      assert g in LiveBlocks(d.blocks) && g.Begin() == p && g.size >= size;
      assert b.End() <= g.at || g.End() <= b.at;
    }
  }

  /** For NULL it is kmalloc, and for size 0 it is free. */
  lemma ReallocOtherwise(c: Chain, ptr: int, size: int, granted: bool)
    ensures Realloc(c, 0, size, granted) == Kmalloc(c, size, granted)
    ensures ptr != 0 ==> Realloc(c, ptr, 0, granted) == (Free(c, ptr), 0)
  {
  }
}
