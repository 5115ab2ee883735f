/** The heap's bytes: 32-bit words and block headers stored among the payloads. */
module HeapMemory {
  import opened Machine
  import opened HeapChain
  import opened HeapInvariant

  /** Memory from HEAP_BASE up to the break. */
  type Bytes = seq<Byte>

  predicate In(m: Bytes, a: int, n: int) { HEAP_BASE <= a && 0 <= n && a + n <= HEAP_BASE + |m| }

  /** The little-endian word at address `a`. */
  function Load(m: Bytes, a: int): int
    requires In(m, a, 4)
  {
    var o := a - HEAP_BASE;
    (m[o] as int) + 0x100 * ((m[o + 1] as int) + 0x100 * ((m[o + 2] as int) + 0x100 * (m[o + 3] as int)))
  }

  function Store(m: Bytes, a: int, v: Word): Bytes
    requires In(m, a, 4)
  {
    var o := a - HEAP_BASE;
    m[o := v % 0x100][o + 1 := v / 0x100 % 0x100][o + 2 := v / 0x100 / 0x100 % 0x100][o + 3 := v / 0x100 / 0x100 / 0x100]
  }

  lemma LoadStore(m: Bytes, a: int, v: Word)
    requires In(m, a, 4)
    ensures |Store(m, a, v)| == |m| && Load(Store(m, a, v), a) == v
    ensures SameOutside(m, Store(m, a, v), a, a + 4)
  {
  }

  /** The lowest byte of a word comes first. */
  lemma LittleEndian(m: Bytes, a: int)
    requires In(m, a, 4)
    ensures var (o, v) := (a - HEAP_BASE, Load(m, a));
            && 0 <= v < 0x1_0000_0000 && m[o] == v % 0x100 && m[o + 1] == v / 0x100 % 0x100
            && m[o + 2] == v / 0x1_0000 % 0x100 && m[o + 3] == v / 0x100_0000
  {
  }

  /** Nothing but the addresses lo..hi may differ. */
  ghost predicate SameOutside(m: Bytes, m': Bytes, lo: int, hi: int) {
    |m'| == |m| && forall i | 0 <= i < |m| && !(lo <= HEAP_BASE + i < hi) :: m'[i] == m[i]
  }

  /** Addresses lo..hi are in both memories and hold the same bytes. */
  ghost predicate Agree(m: Bytes, m': Bytes, lo: int, hi: int) {
    && HEAP_BASE <= lo && hi <= HEAP_BASE + |m| && hi <= HEAP_BASE + |m'|
    && forall i | lo - HEAP_BASE <= i < hi - HEAP_BASE :: m'[i] == m[i]
  }

  lemma LoadAgrees(m: Bytes, m': Bytes, a: int)
    requires Agree(m, m', a, a + 4)
    ensures Load(m', a) == Load(m, a)
  {
  }

  // ---------------------------------------------------------------------- headers

  /** t_mem_infos: four words. */
  datatype Header = Header(size: int, isFree: int, begin: int, next: int)

  function ReadHeader(m: Bytes, h: int): Header
    requires In(m, h, HEADER)
  {
    Header(Load(m, h), Load(m, h + 4), Load(m, h + 8), Load(m, h + 12))
  }

  function HeaderOf(b: Block): Header { Header(b.size, if b.free then 1 else 0, b.Begin(), b.End()) }

  ghost predicate HeaderAt(m: Bytes, b: Block) {
    In(m, b.at, HEADER) && ReadHeader(m, b.at) == HeaderOf(b)
  }

  /** The four words of a header: size, free or not, payload and next header. */
  lemma HeaderWords(m: Bytes, b: Block)
    requires In(m, b.at, 16)
    ensures HeaderAt(m, b) <==>
            && Load(m, b.at) == b.size && Load(m, b.at + 4) == (if b.free then 1 else 0)
            && Load(m, b.at + 8) == b.at + 16 && Load(m, b.at + 12) == b.at + 16 + b.size
  {
  }

  lemma HeaderAgrees(m: Bytes, m': Bytes, b: Block)
    requires HeaderAt(m, b) && Agree(m, m', b.at, b.Begin())
    ensures HeaderAt(m', b)
  {
    LoadAgrees(m, m', b.at);
    LoadAgrees(m, m', b.at + 4);
    LoadAgrees(m, m', b.at + 8);
    LoadAgrees(m, m', b.at + 12);
  }

  ghost predicate Holds(m: Bytes, bs: seq<Block>) {
    forall k | 0 <= k < |bs| :: HeaderAt(m, bs[k])
  }

  /** The bytes are the chain: page record, headers, and nothing beyond the limit. */
  ghost predicate Stored(m: Bytes, c: Chain) {
    && Sound(c) && HEAP_BASE + |m| == Limit(c) < 0x8000_0000
    && Load(m, HEAP_BASE) == c.pages && Load(m, HEAP_BASE + 4) == Top(c.blocks)
    && Holds(m, c.blocks)
  }

  /** The payload bytes of a block. */
  ghost function Payload(m: Bytes, b: Block): Bytes
    requires In(m, b.Begin(), b.size)
  {
    m[b.Begin() - HEAP_BASE..b.End() - HEAP_BASE]
  }

  /** Every payload of the old chain that is live, but for the one at `except`, is there unchanged. */
  ghost predicate PayloadsKept(m: Bytes, bs: seq<Block>, m': Bytes, except: int) {
    forall b | b in LiveBlocks(bs) && b.Begin() != except ::
      In(m, b.Begin(), b.size) && In(m', b.Begin(), b.size) && Payload(m', b) == Payload(m, b)
  }

  /** The `n` bytes at `to` in the new memory are those at `from` in the old one. */
  ghost predicate CopyOf(m: Bytes, from: int, m': Bytes, to: int, n: int) {
    && In(m, from, n) && In(m', to, n)
    && m'[to - HEAP_BASE..to - HEAP_BASE + n] == m[from - HEAP_BASE..from - HEAP_BASE + n]
  }

  /** Byte `k` of a copy made upwards: a source byte that lies in the destination has been overwritten before it is read. */
  ghost predicate CopiedAt(m: Bytes, from: int, m': Bytes, to: int, k: int)
    requires |m'| == |m| && In(m, from, k + 1) && In(m, to, k + 1) && 0 <= k
  {
    var (i, j) := (from - HEAP_BASE + k, to - HEAP_BASE + k);
    m'[j] == if from < to <= from + k then m'[i] else m[i]
  }

  /** All of the first `n` bytes are, and nothing else has changed. */
  ghost predicate CopiedUp(m: Bytes, from: int, m': Bytes, to: int, n: int) {
    && In(m, from, n) && In(m, to, n) && SameOutside(m, m', to, to + n)
    && forall k | 0 <= k < n :: CopiedAt(m, from, m', to, k)
  }

  // ------------------------------------------------------------ changes to a chain

  /** A header and a payload outside the addresses changed are untouched. */
  lemma BlockUntouched(m: Bytes, m': Bytes, b: Block, lo: int, hi: int)
    requires HeaderAt(m, b) && SameOutside(m, m', lo, hi) && b.size >= 0
    requires b.End() <= lo || hi <= b.at
    requires b.End() <= HEAP_BASE + |m|
    ensures HeaderAt(m', b) && Payload(m', b) == Payload(m, b)
  {
    HeaderAgrees(m, m', b);
  }

  lemma BlockInside(c: Chain, k: int)
    requires Sound(c) && 0 <= k < |c.blocks|
    ensures START <= c.blocks[k].at && c.blocks[k].End() <= Top(c.blocks) <= Limit(c)
  {
    Ordered(c.blocks, k, k);
  }

  /** Blocks outside a stretch of the chain survive any change within it. */
  lemma OutsideUntouched(m: Bytes, m': Bytes, c: Chain, lo: int, hi: int, k: int)
    requires Stored(m, c) && 0 <= lo < hi <= |c.blocks| && (0 <= k < lo || hi <= k < |c.blocks|)
    requires SameOutside(m, m', c.blocks[lo].at, c.blocks[hi - 1].End())
    ensures HeaderAt(m', c.blocks[k])
    ensures In(m, c.blocks[k].Begin(), c.blocks[k].size) && Payload(m', c.blocks[k]) == Payload(m, c.blocks[k])
  {
    BlockInside(c, k);
    if k < lo { Ordered(c.blocks, k, lo); } else { Ordered(c.blocks, hi - 1, k); }
    BlockUntouched(m, m', c.blocks[k], c.blocks[lo].at, c.blocks[hi - 1].End());
  }

  lemma SpliceHolds(m: Bytes, bs: seq<Block>, lo: int, mid: seq<Block>, hi: int)
    requires 0 <= lo <= hi <= |bs| && Holds(m, mid)
    requires forall k | 0 <= k < lo || hi <= k < |bs| :: HeaderAt(m, bs[k])
    ensures Holds(m, Splice(bs, lo, mid, hi))
  {
    var r := Splice(bs, lo, mid, hi);
    forall k | 0 <= k < |r|
      ensures HeaderAt(m, r[k])
    {
      if k < lo { assert r[k] == bs[k]; }
      else if k < lo + |mid| { assert r[k] == mid[k - lo]; }
      else { assert r[k] == bs[k - |mid| + hi - lo]; }
    }
  }

  /** Replacing blocks by others over the same addresses, header by header. */
  lemma StoredSplice(m: Bytes, m': Bytes, c: Chain, lo: int, mid: seq<Block>, hi: int)
    requires Stored(m, c) && SameSpan(c.blocks, lo, mid, hi) && Sound(c.(blocks := Splice(c.blocks, lo, mid, hi)))
    requires SameOutside(m, m', c.blocks[lo].at, c.blocks[hi - 1].End())
    requires Holds(m', mid)
    ensures Stored(m', c.(blocks := Splice(c.blocks, lo, mid, hi)))
  {
    forall k | 0 <= k < lo || hi <= k < |c.blocks|
      ensures HeaderAt(m', c.blocks[k])
    {
      OutsideUntouched(m, m', c, lo, hi, k);
    }
    SpliceHolds(m', c.blocks, lo, mid, hi);
    SpliceTiled(c.blocks, lo, mid, hi);
    BlockInside(c, lo);
    LoadAgrees(m, m', HEAP_BASE);
    LoadAgrees(m, m', HEAP_BASE + 4);
  }

  /** If only free blocks and the one at `except` are replaced, all other live payloads are kept. */
  lemma SplicePayloads(m: Bytes, m': Bytes, c: Chain, lo: int, hi: int, except: int)
    requires Stored(m, c) && 0 <= lo < hi <= |c.blocks|
    requires SameOutside(m, m', c.blocks[lo].at, c.blocks[hi - 1].End())
    requires forall k | lo <= k < hi :: c.blocks[k].free || c.blocks[k].Begin() == except
    ensures PayloadsKept(m, c.blocks, m', except)
  {
    forall b | b in LiveBlocks(c.blocks) && b.Begin() != except
      ensures In(m, b.Begin(), b.size) && In(m', b.Begin(), b.size) && Payload(m', b) == Payload(m, b)
    {
      var k :| 0 <= k < |c.blocks| && c.blocks[k] == b;
      OutsideUntouched(m, m', c, lo, hi, k);
    }
  }

  lemma PrefixUntouched(m: Bytes, m': Bytes, c: Chain, n: int, k: int)
    requires Stored(m, c) && 0 <= k < n <= |c.blocks| && Agree(m, m', START, Top(c.blocks[..n]))
    ensures HeaderAt(m', c.blocks[k])
    ensures var b := c.blocks[k];
            In(m, b.Begin(), b.size) && In(m', b.Begin(), b.size) && Payload(m', b) == Payload(m, b)
  {
    hide Load, ReadHeader;
    BlockInside(c, k);
    assert Tiled(c.blocks[..n]);
    Ordered(c.blocks[..n], k, k);
    HeaderAgrees(m, m', c.blocks[k]);
  }

  /** Cutting the chain after `n` blocks, or adding blocks there, with the page record to match. */
  lemma StoredTail(m: Bytes, m': Bytes, c: Chain, n: int, d: Chain)
    requires Stored(m, c) && 0 <= n <= |c.blocks| && Agree(m, m', START, Top(c.blocks[..n]))
    requires Sound(d) && n <= |d.blocks| && d.blocks[..n] == c.blocks[..n] && Holds(m', d.blocks[n..])
    requires HEAP_BASE + |m'| == Limit(d) < 0x8000_0000
    requires Load(m', HEAP_BASE) == d.pages && Load(m', HEAP_BASE + 4) == Top(d.blocks)
    ensures Stored(m', d)
  {
    hide Load, HeaderAt;
    forall k | 0 <= k < |d.blocks|
      ensures HeaderAt(m', d.blocks[k])
    {
      if k < n {
        assert d.blocks[k] == d.blocks[..n][k] == c.blocks[k];
        PrefixUntouched(m, m', c, n, k);
      } else {
        assert d.blocks[k] == d.blocks[n..][k - n];
      }
    }
  }

  lemma TailPayloads(m: Bytes, m': Bytes, c: Chain, n: int, except: int)
    requires Stored(m, c) && 0 <= n <= |c.blocks| && Agree(m, m', START, Top(c.blocks[..n]))
    requires forall k | n <= k < |c.blocks| :: c.blocks[k].free || c.blocks[k].Begin() == except
    ensures PayloadsKept(m, c.blocks, m', except)
  {
    forall b | b in LiveBlocks(c.blocks) && b.Begin() != except
      ensures In(m, b.Begin(), b.size) && In(m', b.Begin(), b.size) && Payload(m', b) == Payload(m, b)
    {
      var k :| 0 <= k < |c.blocks| && c.blocks[k] == b;
      PrefixUntouched(m, m', c, n, k);
    }
  }

  /** What a walk reads at block `k`. */
  lemma BlockStored(m: Bytes, c: Chain, k: int)
    requires Stored(m, c) && 0 <= k < |c.blocks|
    ensures HeaderAt(m, c.blocks[k])
    ensures START <= c.blocks[k].at && c.blocks[k].size >= 1 && c.blocks[k].End() <= Top(c.blocks)
    ensures c.blocks[k].End() == if k + 1 < |c.blocks| then c.blocks[k + 1].at else Top(c.blocks)
  {
    BlockInside(c, k);
  }

  lemma PageRecord(m: Bytes, c: Chain)
    requires Stored(m, c)
    ensures |m| >= PAGE_INFOS && Load(m, HEAP_BASE) == c.pages && Load(m, HEAP_BASE + 4) == Top(c.blocks)
    ensures START <= Top(c.blocks) <= Limit(c) == HEAP_BASE + |m| < 0x8000_0000
    ensures Limit(c) <= Top(c.blocks) + 0x1000
  {
    if c.blocks != [] {
      BlockInside(c, |c.blocks| - 1);
    }
  }

  lemma HeaderKept(m: Bytes, m': Bytes, h: int, lo: int, hi: int)
    requires In(m, h, HEADER) && SameOutside(m, m', lo, hi) && (h + HEADER <= lo || hi <= h)
    ensures ReadHeader(m', h) == ReadHeader(m, h)
  {
    LoadAgrees(m, m', h);
    LoadAgrees(m, m', h + 4);
    LoadAgrees(m, m', h + 8);
    LoadAgrees(m, m', h + 12);
  }

  /** Writing the pieces of a split block stores the chain that Take describes. */
  lemma StoredTake(m: Bytes, m': Bytes, c: Chain, i: int, size: int)
    requires Stored(m, c) && Inv(c) && 0 <= i < |c.blocks| && size >= 1 && Fits(c.blocks[i], size)
    requires SameOutside(m, m', c.blocks[i].at, c.blocks[i].End()) && Holds(m', Pieces(c.blocks[i], size))
    ensures Stored(m', c.(blocks := Take(c.blocks, i, size)))
    ensures PayloadsKept(m, c.blocks, m', 0)
  {
    hide Load, PayloadsKept;
    TakeKeepsInv(c, i, size);
    BlockInside(c, i);
    StoredSplice(m, m', c, i, Pieces(c.blocks[i], size), i + 1);
    SplicePayloads(m, m', c, i, i + 1, 0);
  }

  lemma StoredIsTiled(m: Bytes, c: Chain)
    requires Stored(m, c)
    ensures Sound(c) && Tiled(c.blocks)
  {
  }

  /** Writing the merged header stores the chain that Coalesce describes. */
  lemma StoredCoalesce(m: Bytes, m': Bytes, c: Chain, i: int)
    requires Stored(m, c) && 0 <= i < |c.blocks|
    requires SameOutside(m, m', Merged(c.blocks, i).at, Merged(c.blocks, i).End()) && HeaderAt(m', Merged(c.blocks, i))
    ensures Stored(m', c.(blocks := Coalesce(c.blocks, i)))
    ensures PayloadsKept(m, c.blocks, m', c.blocks[i].Begin())
  {
    hide Load, Merged, PayloadsKept, Tiled, Coalesced, HeaderAt;
    var lo, hi := MergeLow(c.blocks, i), MergeHigh(c.blocks, i);
    StoredIsTiled(m, c);
    CoalesceKeepsSound(c, i);
    MergedSpan(c.blocks, i);
    StoredSplice(m, m', c, lo, [Merged(c.blocks, i)], hi);
    SplicePayloads(m, m', c, lo, hi, c.blocks[i].Begin());
  }

  /** Memory after the limit has moved up by `n` pages: the page record counts them, the rest is as before. */
  ghost predicate Extended(m: Bytes, c: Chain, m': Bytes, n: int) {
    && HEAP_BASE + |m'| == Limit(c) + n * 0x1000 && |m'| >= PAGE_INFOS
    && Agree(m, m', HEAP_BASE + 4, HEAP_BASE + |m|) && Load(m', HEAP_BASE) == c.pages + n
  }

  /** Appending a header at the top stores the longer chain. */
  lemma StoredAppend(m: Bytes, m1: Bytes, m': Bytes, c: Chain, size: int)
    requires Stored(m, c) && Inv(c) && size >= 1 && Limit(c) + PagesNeeded(c, size) * 0x1000 < 0x8000_0000
    requires Extended(m, c, m1, PagesNeeded(c, size)) && |m'| == |m1|
    requires Load(m', HEAP_BASE) == Load(m1, HEAP_BASE) && Agree(m1, m', START, Top(c.blocks))
    requires Load(m', HEAP_BASE + 4) == Top(c.blocks) + HEADER + size
    requires HeaderAt(m', Block(Top(c.blocks), size, false))
    ensures Stored(m', Chain(Append(c.blocks, size), c.pages + PagesNeeded(c, size)))
    ensures PayloadsKept(m, c.blocks, m', 0)
  {
    hide Load;
    var n := |c.blocks|;
    var d := Chain(Append(c.blocks, size), c.pages + PagesNeeded(c, size));
    AppendKeepsInv(c, size);
    PageRecord(m, c);
    assert c.blocks[..n] == c.blocks && d.blocks[..n] == c.blocks;
    assert Agree(m, m', START, Top(c.blocks));
    StoredTail(m, m', c, n, d);
    TailPayloads(m, m', c, n, 0);
  }

  /** Giving back the pages above a free last block, and the page record to match, stores the shorter chain. */
  lemma StoredRelease(m: Bytes, m': Bytes, c: Chain)
    requires Stored(m, c) && c.blocks != [] && ReleaseTail(c) != c
    requires var d := ReleaseTail(c);
             && HEAP_BASE + |m'| == Limit(d) && |m'| >= PAGE_INFOS
             && Load(m', HEAP_BASE) == d.pages && Load(m', HEAP_BASE + 4) == c.blocks[|c.blocks| - 1].at
    requires Agree(m, m', START, HEAP_BASE + |m'|)
    ensures Stored(m', ReleaseTail(c))
    ensures PayloadsKept(m, c.blocks, m', 0)
  {
    hide Load;
    var n, d := |c.blocks| - 1, ReleaseTail(c);
    ReleaseKeepsInv(c);
    PageRecord(m, c);
    assert Top(c.blocks[..n]) == c.blocks[n].at by {
      if n > 0 { assert c.blocks[n - 1].End() == c.blocks[n - 1 + 1].at; }
    }
    StoredTail(m, m', c, n, d);
    TailPayloads(m, m', c, n, 0);
  }

  lemma KeptTrans(m: Bytes, bs: seq<Block>, m1: Bytes, bs1: seq<Block>, m2: Bytes, e: int, e1: int)
    requires PayloadsKept(m, bs, m1, e) && PayloadsKept(m1, bs1, m2, e1)
    requires forall b | b in LiveBlocks(bs) && b.Begin() != e :: b in LiveBlocks(bs1) && b.Begin() != e1
    ensures PayloadsKept(m, bs, m2, e)
  {
  }

  /** Writing into one payload leaves the chain and every other payload alone. */
  lemma StoredPayload(m: Bytes, m': Bytes, c: Chain, k: int)
    requires Stored(m, c) && 0 <= k < |c.blocks|
    requires SameOutside(m, m', c.blocks[k].Begin(), c.blocks[k].End())
    ensures Stored(m', c)
    ensures PayloadsKept(m, c.blocks, m', c.blocks[k].Begin())
  {
    hide Load;
    var b := c.blocks[k];
    BlockStored(m, c, k);
    HeaderAgrees(m, m', b);
    assert Splice(c.blocks, k, [b], k + 1) == c.blocks;
    StoredSplice(m, m', c, k, [b], k + 1);
    SplicePayloads(m, m', c, k, k + 1, b.Begin());
  }
}
