/** Every heap operation keeps the chain invariant and changes the live blocks by exactly one. */
module HeapInvariant {
  import opened HeapChain

  /** `mid` covers exactly the addresses of bs[lo..hi]. */
  ghost predicate SameSpan(bs: seq<Block>, lo: int, mid: seq<Block>, hi: int) {
    && 0 <= lo < hi <= |bs| && mid != []
    && mid[0].at == bs[lo].at && mid[|mid| - 1].End() == bs[hi - 1].End()
    && (forall k | 0 <= k < |mid| - 1 :: mid[k].End() == mid[k + 1].at)
    && (forall k | 0 <= k < |mid| :: mid[k].size >= 1)
  }

  lemma SpliceTiled(bs: seq<Block>, lo: int, mid: seq<Block>, hi: int)
    requires Tiled(bs) && SameSpan(bs, lo, mid, hi)
    ensures Tiled(Splice(bs, lo, mid, hi)) && Top(Splice(bs, lo, mid, hi)) == Top(bs)
  {
    var r := Splice(bs, lo, mid, hi);
    var shift := hi - lo - |mid|;
    assert forall k | 0 <= k < lo :: r[k] == bs[k];
    assert forall k | lo <= k < lo + |mid| :: r[k] == mid[k - lo];
    assert forall k | lo + |mid| <= k < |r| :: r[k] == bs[k + shift];
    forall k | 0 <= k < |r| - 1
      ensures r[k].End() == r[k + 1].at
    {
      if k + 1 < lo {
        assert bs[k].End() == bs[k + 1].at;
      } else if k + 1 == lo {
        assert bs[k].End() == bs[k + 1].at;
      } else if k < lo + |mid| - 1 {
        assert mid[k - lo].End() == mid[k - lo + 1].at;
      } else {
        assert bs[k + shift].End() == bs[k + shift + 1].at;
      }
    }
  }

  lemma SpliceCoalesced(bs: seq<Block>, lo: int, mid: seq<Block>, hi: int)
    requires 0 <= lo < hi <= |bs| && mid != [] && Coalesced(bs) && Coalesced(mid)
    requires lo > 0 && mid[0].free ==> !bs[lo - 1].free
    requires hi < |bs| && mid[|mid| - 1].free ==> !bs[hi].free
    ensures Coalesced(Splice(bs, lo, mid, hi))
  {
    var r := Splice(bs, lo, mid, hi);
    var shift := hi - lo - |mid|;
    forall k | 0 <= k < |r| - 1
      ensures !(r[k].free && r[k + 1].free)
    {
      if k + 1 < lo {
        assert r[k] == bs[k] && r[k + 1] == bs[k + 1];
      } else if lo <= k < lo + |mid| - 1 {
        assert r[k] == mid[k - lo] && r[k + 1] == mid[k - lo + 1];
      } else if k >= lo + |mid| {
        assert r[k] == bs[k + shift] && r[k + 1] == bs[k + shift + 1];
      }
    }
  }

  lemma TakeKeepsInv(c: Chain, i: int, size: int)
    requires Inv(c) && size >= 1 && 0 <= i < |c.blocks| && Fits(c.blocks[i], size)
    ensures Inv(c.(blocks := Take(c.blocks, i, size)))
  {
    var bs, mid := c.blocks, Pieces(c.blocks[i], size);
    var r := Take(bs, i, size);
    SpliceTiled(bs, i, mid, i + 1);
    SpliceCoalesced(bs, i, mid, i + 1);
    if i + 1 < |bs| {
      assert r[|r| - 1] == bs[|bs| - 1];
    }
  }

  lemma AppendKeepsInv(c: Chain, size: int)
    requires Inv(c) && size >= 1
    ensures Inv(Chain(Append(c.blocks, size), c.pages + PagesNeeded(c, size)))
  {
  }

  lemma MergedSpan(bs: seq<Block>, i: int)
    requires Tiled(bs) && 0 <= i < |bs|
    ensures SameSpan(bs, MergeLow(bs, i), [Merged(bs, i)], MergeHigh(bs, i))
    ensures Merged(bs, i).size ==
            bs[i].size + (if MergeLow(bs, i) < i then HEADER + bs[i - 1].size else 0)
                       + (if MergeHigh(bs, i) > i + 1 then HEADER + bs[i + 1].size else 0)
  {
  }

  /** Coalescing keeps everything but the tail bound, which ReleaseTail restores. */
  lemma CoalesceKeepsSound(c: Chain, i: int)
    requires Sound(c) && 0 <= i < |c.blocks|
    ensures Sound(c.(blocks := Coalesce(c.blocks, i)))
    ensures Top(Coalesce(c.blocks, i)) == Top(c.blocks)
  {
    var bs := c.blocks;
    var lo, hi := MergeLow(bs, i), MergeHigh(bs, i);
    MergedSpan(bs, i);
    SpliceTiled(bs, lo, [Merged(bs, i)], hi);
    SpliceCoalesced(bs, lo, [Merged(bs, i)], hi);
  }

  /** If something follows the merged block, no page comes back: the last block is the old last one. */
  lemma CoalesceKeepsTail(c: Chain, i: int)
    requires Inv(c) && 0 <= i < |c.blocks|
    ensures MergeLow(c.blocks, i) < |Coalesce(c.blocks, i)|
    ensures Coalesce(c.blocks, i)[MergeLow(c.blocks, i)] == Merged(c.blocks, i)
    ensures var d := c.(blocks := Coalesce(c.blocks, i));
            MergeLow(c.blocks, i) + 1 < |d.blocks| ==> ReleaseTail(d) == d
  {
    var d := c.(blocks := Coalesce(c.blocks, i));
    if MergeLow(c.blocks, i) + 1 < |d.blocks| {
      assert d.blocks[|d.blocks| - 1] == c.blocks[|c.blocks| - 1];
    }
  }

  lemma ReleaseKeepsInv(c: Chain)
    requires Sound(c)
    ensures Inv(ReleaseTail(c))
    ensures Settled(c) ==> Settled(ReleaseTail(c))
  {
    if c.blocks != [] {
      var n := |c.blocks| - 1;
      Ordered(c.blocks, 0, n);
      var d := ReleaseTail(c);
      if d != c {
        assert Top(d.blocks) == c.blocks[n].at by {
          if n > 0 { assert c.blocks[n - 1].End() == c.blocks[n].at; }
        }
        assert n > 0 ==> !c.blocks[n - 1].free;
      }
    }
  }

  lemma KmallocKeepsInv(c: Chain, size: int, granted: bool)
    requires Inv(c) && size >= 0
    ensures Inv(Kmalloc(c, size, granted).0)
    ensures Settled(c) ==> Settled(Kmalloc(c, size, granted).0)
    ensures Kmalloc(c, size, granted).1 != 0 ==> Settled(Kmalloc(c, size, granted).0)
  {
    var i := BestFit(c.blocks, size);
    if size != 0 && i != -1 {
      TakeKeepsInv(c, i, size);
    } else if size != 0 {
      AppendKeepsInv(c, size);
    }
  }

  lemma FreeKeepsInv(c: Chain, ptr: int)
    requires Inv(c)
    ensures Inv(Free(c, ptr))
    ensures Settled(c) ==> Settled(Free(c, ptr))
  {
    var i := Find(c.blocks, ptr);
    if i != -1 {
      CoalesceKeepsSound(c, i);
      ReleaseKeepsInv(c.(blocks := Coalesce(c.blocks, i)));
    }
  }

  // ------------------------------------------------------------- live blocks

  /** What one successful kmalloc hands out. */
  function Granted(c: Chain, size: int): Block
  {
    var i := BestFit(c.blocks, size);
    if i == -1 then Block(Top(c.blocks), size, false) else Pieces(c.blocks[i], size)[0]
  }

  /** The best fit is too small for a second header and a byte beside `size` bytes. */
  predicate FitsWhole(c: Chain, size: int) {
    var i := BestFit(c.blocks, size);
    i != -1 && c.blocks[i].size < size + 17
  }

  lemma GrantedSize(c: Chain, size: int)
    ensures Granted(c, size).size == if FitsWhole(c, size) then c.blocks[BestFit(c.blocks, size)].size else size
  {
  }

  /**
   A successful kmalloc adds one live block of `size` bytes, or all of a best fit that is
   less than 17 bytes larger, clear of every block that was live, and those stay as they were.
   */
  lemma KmallocGrants(c: Chain, size: int, granted: bool)
    requires Inv(c) && size >= 0
    ensures var (d, p) := Kmalloc(c, size, granted);
            var g := Granted(c, size);
            if p == 0 then d == c
            else
              && p == g.Begin() && size <= g.size <= size + HEADER
              && g.size == (if FitsWhole(c, size) then c.blocks[BestFit(c.blocks, size)].size else size)
              && LiveBlocks(d.blocks) == LiveBlocks(c.blocks) + {g}
              && (forall b | b in LiveBlocks(c.blocks) :: b.End() <= g.at || g.End() <= b.at)
  {
    hide FitsWhole, Pieces, Take;
    GrantedSize(c, size);
    var i := BestFit(c.blocks, size);
    if i != -1 {
      TakeGrants(c.blocks, i, size);
    } else {
      AppendGrants(c.blocks, size);
    }
  }

  lemma TakeGrants(bs: seq<Block>, i: int, size: int)
    requires Tiled(bs) && 0 <= i < |bs| && Fits(bs[i], size)
    ensures var g := Pieces(bs[i], size)[0];
            && g.Begin() == bs[i].Begin() >= START && size <= g.size <= size + HEADER
            && LiveBlocks(Take(bs, i, size)) == LiveBlocks(bs) + {g}
            && (forall b | b in LiveBlocks(bs) :: b.End() <= g.at || g.End() <= b.at)
  {
    Ordered(bs, i, i);
    assert bs == bs[..i] + [bs[i]] + bs[i + 1..];
    forall b | b in LiveBlocks(bs)
      ensures b.End() <= bs[i].at || bs[i].End() <= b.at
    {
      DisjointBlocks(bs, b, bs[i]);
    }
  }

  lemma AppendGrants(bs: seq<Block>, size: int)
    requires Tiled(bs)
    ensures var g := Block(Top(bs), size, false);
            && g.at >= START && LiveBlocks(Append(bs, size)) == LiveBlocks(bs) + {g}
            && (forall b | b in LiveBlocks(bs) :: b.End() <= g.at)
  {
    if bs != [] { Ordered(bs, 0, |bs| - 1); }
    forall b | b in LiveBlocks(bs)
      ensures b.End() <= Top(bs)
    {
      var j :| 0 <= j < |bs| && bs[j] == b;
      BelowTop(bs, j);
    }
  }

  lemma CoalesceRemoves(bs: seq<Block>, i: int)
    requires Tiled(bs) && 0 <= i < |bs|
    ensures LiveBlocks(Coalesce(bs, i)) == LiveBlocks(bs) - {bs[i]}
  {
    var lo, hi := MergeLow(bs, i), MergeHigh(bs, i);
    var left, right := bs[..lo], bs[hi..];
    assert bs[i] !in left && bs[i] !in right by {
      forall k | 0 <= k < |bs| && bs[k] == bs[i]
        ensures k == i
      {
        FindUnique(bs, k);
        FindUnique(bs, i);
      }
    }
    forall b | b in bs && !b.free
      ensures b in left || b in right || b == bs[i]
    {
      var k :| 0 <= k < |bs| && bs[k] == b;
      assert k < lo ==> left[k] == b;
      assert k >= hi ==> right[k - hi] == b;
    }
  }

  lemma ReleaseKeepsLive(c: Chain)
    ensures LiveBlocks(ReleaseTail(c).blocks) == LiveBlocks(c.blocks)
  {
    if c.blocks != [] {
      var n := |c.blocks| - 1;
      assert c.blocks == c.blocks[..n] + [c.blocks[n]];
    }
  }

  /** A free removes exactly the live block at `ptr`, if there is one. */
  lemma FreeRemoves(c: Chain, ptr: int)
    requires Inv(c)
    ensures LiveBlocks(Free(c, ptr).blocks) == set b | b in LiveBlocks(c.blocks) && b.Begin() != ptr
  {
    var bs := c.blocks;
    var i := Find(bs, ptr);
    if i != -1 {
      CoalesceRemoves(bs, i);
      ReleaseKeepsLive(c.(blocks := Coalesce(bs, i)));
      forall b | b in bs && b.Begin() == ptr
        ensures b == bs[i]
      {
        var j :| 0 <= j < |bs| && bs[j] == b;
        FindUnique(bs, j);
      }
    }
  }
}
