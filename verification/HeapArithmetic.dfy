/** The 32-bit arithmetic of pagesize_add_update, and exactly when it asks for enough memory. */
module HeapArithmetic {
  import opened Machine
  import opened HeapChain

  function U32(x: int): Word { x % 0x1_0000_0000 }
  function S32(x: int): int { if U32(x) >= 0x8000_0000 then U32(x) - 0x1_0000_0000 else U32(x) }

  /** nb_pages as computed: the sum wraps, and the difference is divided as an unsigned number. */
  function PagesAsked(maxPos: int, limit: int, size: Word): int {
    var end := U32(maxPos + HEADER + size);
    if end > limit then U32(S32(S32(end) - S32(limit))) / 0x1000 + 1 else 0
  }

  /** The signed amount that sbrk receives for that. */
  function BytesAsked(maxPos: int, limit: int, size: Word): int {
    S32(PagesAsked(maxPos, limit, size) * 0x1000)
  }

  /** The request covers the new block exactly when the block ends below 2^32 and less than 2^19 pages are missing. */
  lemma AskedIsEnough(maxPos: int, limit: int, size: Word)
    requires START <= maxPos <= limit < 0x1_0000_0000
    ensures var end := maxPos + HEADER + size;
            limit + BytesAsked(maxPos, limit, size) >= end <==>
            end <= limit || (end < 0x1_0000_0000 && (end - limit) / 0x1000 + 1 < 0x8_0000)
  {
    hide S32;
    var end := maxPos + HEADER + size;
    if end < 0x1_0000_0000 {
      NoWrap(maxPos, limit, size);
      SignedRange(PagesAsked(maxPos, limit, size) * 0x1000);
    } else {
      Wrapped(maxPos, limit, size);
    }
  }

  /** A block that ends below 2^32: the pages asked for are those missing. */
  lemma NoWrap(maxPos: int, limit: int, size: Word)
    requires 0 <= maxPos <= limit < 0x1_0000_0000 && maxPos + HEADER + size < 0x1_0000_0000
    ensures var end := maxPos + HEADER + size;
            PagesAsked(maxPos, limit, size) == if end > limit then (end - limit) / 0x1000 + 1 else 0
  {
    hide S32;
    var end := maxPos + HEADER + size;
    if end > limit {
      Difference(end, limit);
    }
  }

  /** A block that ends above 2^32: the sum wraps to less than what is missing, and so does the request. */
  lemma Wrapped(maxPos: int, limit: int, size: Word)
    requires START <= maxPos <= limit < 0x1_0000_0000 && maxPos + HEADER + size >= 0x1_0000_0000
    ensures limit + BytesAsked(maxPos, limit, size) < maxPos + HEADER + size
  {
    hide S32;
    var end := U32(maxPos + HEADER + size);
    SignedRange(PagesAsked(maxPos, limit, size) * 0x1000);
    if end > limit {
      Difference(end, limit);
    }
  }

  lemma SignedRange(x: int)
    ensures S32(x) < 0x8000_0000
    ensures 0 <= x < 0x8000_0000 ==> S32(x) == x
    ensures 0x8000_0000 <= x <= 0x1_0000_0000 ==> S32(x) <= 0
  {
  }

  lemma Difference(end: int, limit: int)
    requires 0 <= limit < end < 0x1_0000_0000
    ensures U32(S32(S32(end) - S32(limit))) == end - limit
  {
    Congruent(S32(end) - S32(limit), end - limit);
  }

  /** Signed and unsigned reading differ by a multiple of 2^32. */
  lemma Congruent(x: int, d: int)
    requires 0 <= d < 0x1_0000_0000
    requires x == d || x == d - 0x1_0000_0000 || x == d + 0x1_0000_0000
    ensures U32(S32(x)) == d
  {
  }

  /** On the heap, for every block that ends below 2^32, the number asked for is the one that the chain needs. */
  lemma AskedIsNeeded(c: Chain, size: int)
    requires Inv(c) && size >= 1 && Top(c.blocks) + HEADER + size < 0x1_0000_0000 && Limit(c) < 0x1_0000_0000
    ensures PagesAsked(Top(c.blocks), Limit(c), size) == PagesNeeded(c, size)
  {
    hide PagesAsked;
    if c.blocks != [] { Ordered(c.blocks, 0, |c.blocks| - 1); }
    NoWrap(Top(c.blocks), Limit(c), size);
  }

  /** A request just below 4 GB wraps to nothing: no page is asked for and the block would overrun the heap. */
  lemma HugeRequestWraps()
    ensures PagesAsked(START, START + 0x1000, 0xFFFF_FFF0) == 0
    ensures START + HEADER + 0xFFFF_FFF0 > START + 0x1000
  {
  }
}
