/**
 The heap over whole runs.

 A run is any sequence of kmalloc, free and realloc calls and any outcome of each request
 for memory. A free may have any pointer, a realloc NULL or one that names a block.
 */
module HeapRuns {
  import opened HeapChain
  import opened HeapInvariant

  datatype Op =
    | KmallocOp(size: nat, granted: bool)
    | FreeOp(ptr: int)
    | ReallocOp(ptr: int, size: nat, granted: bool)

  /** The chain after one call, and the pointer returned. */
  function Effect(c: Chain, op: Op): (Chain, int) {
    match op
    case KmallocOp(size, granted) => Kmalloc(c, size, granted)
    case FreeOp(ptr) => (Free(c, ptr), 0)
    case ReallocOp(ptr, size, granted) => Realloc(c, ptr, size, granted)
  }

  function Step(c: Chain, op: Op): Chain { Effect(c, op).0 }

  function Run(c: Chain, ops: seq<Op>): Chain
    decreases ops
  {
    if ops == [] then c else Run(Step(c, ops[0]), ops[1..])
  }

  /** Some call of the run returns a block. */
  ghost predicate Allocates(c: Chain, ops: seq<Op>)
    decreases ops
  {
    ops != [] && (Effect(c, ops[0]).1 != 0 || Allocates(Step(c, ops[0]), ops[1..]))
  }

  /** The call frees `ptr`. */
  predicate Releases(op: Op, ptr: int) {
    op == FreeOp(ptr) || (op.ReallocOp? && op.ptr == ptr && op.size == 0)
  }

  lemma StepKeepsInv(c: Chain, op: Op)
    requires Inv(c)
    ensures Inv(Step(c, op))
    ensures Settled(c) || Effect(c, op).1 != 0 ==> Settled(Step(c, op))
  {
    hide Kmalloc, Free, Inv;
    match op
    case KmallocOp(size, granted) => KmallocKeepsInv(c, size, granted);
    case FreeOp(ptr) => FreeKeepsInv(c, ptr);
    case ReallocOp(ptr, size, granted) =>
      KmallocKeepsInv(c, size, granted);
      FreeKeepsInv(c, ptr);
  }

  /** Tiling, coalescing and the tail bound hold in every reachable state. */
  lemma {:induction false} RunKeepsInv(c: Chain, ops: seq<Op>)
    requires Inv(c)
    ensures Inv(Run(c, ops))
    ensures Settled(c) || Allocates(c, ops) ==> Settled(Run(c, ops))
    decreases ops
  {
    if ops != [] {
      StepKeepsInv(c, ops[0]);
      RunKeepsInv(Step(c, ops[0]), ops[1..]);
    }
  }

  lemma LiveAfterStep(c: Chain, op: Op, b: Block)
    requires Inv(c) && b in LiveBlocks(c.blocks) && !Releases(op, b.Begin())
    ensures b in LiveBlocks(Step(c, op).blocks)
  {
    hide Kmalloc, Free, Inv, Find, Granted;
    match op
    case KmallocOp(size, granted) => KmallocGrants(c, size, granted);
    case FreeOp(ptr) => FreeRemoves(c, ptr);
    case ReallocOp(ptr, size, granted) =>
      KmallocGrants(c, size, granted);
      FreeRemoves(c, ptr);
  }

  /** A live block keeps its address and its size until its own pointer is freed. */
  lemma {:induction false} LiveUntilFreed(c: Chain, ops: seq<Op>, b: Block)
    requires Inv(c) && b in LiveBlocks(c.blocks)
    requires forall i | 0 <= i < |ops| :: !Releases(ops[i], b.Begin())
    ensures b in LiveBlocks(Run(c, ops).blocks)
    decreases ops
  {
    if ops != [] {
      StepKeepsInv(c, ops[0]);
      LiveAfterStep(c, ops[0], b);
      LiveUntilFreed(Step(c, ops[0]), ops[1..], b);
    }
  }

  // ------------------------------------------------------------------------ requests

  /** A call before its outcome is known. */
  datatype Request = KmallocReq(size: nat) | FreeReq(ptr: int) | ReallocReq(ptr: int, size: nat)

  function AsOp(q: Request, granted: bool): Op {
    match q
    case KmallocReq(size) => KmallocOp(size, granted)
    case FreeReq(ptr) => FreeOp(ptr)
    case ReallocReq(ptr, size) => ReallocOp(ptr, size, granted)
  }

  /** The pointer that the request frees, 0 if none. */
  function Released(q: Request): int {
    match q
    case KmallocReq(_) => 0
    case FreeReq(ptr) => ptr
    case ReallocReq(ptr, size) => if size == 0 then ptr else 0
  }

  /** The heap keeps below 2^31, and a pointer to be resized is live. */
  ghost predicate Servable(c: Chain, q: Request) {
    match q
    case KmallocReq(size) => InRange(c, size)
    case FreeReq(_) => true
    case ReallocReq(ptr, size) =>
      InRange(c, size) && (ptr != 0 && size != 0 ==> exists b :: b in LiveBlocks(c.blocks) && b.Begin() == ptr)
  }

  ghost predicate InRange(c: Chain, size: nat) {
    size == 0 || BestFit(c.blocks, size) != -1 || Limit(c) + PagesNeeded(c, size) * 0x1000 < 0x8000_0000
  }

  /** A program on the heap: its next request, from the pointers that its calls have returned so far. */
  type Client = seq<int> -> Request

  /** Each of the next `n` requests is servable when its turn comes, whatever is granted before. */
  ghost predicate AllServable(c: Chain, client: Client, rs: seq<int>, n: nat)
    decreases n
  {
    n > 0 ==>
      && Servable(c, client(rs))
      && forall g: bool :: AllServable(Step(c, AsOp(client(rs), g)), client, rs + [Effect(c, AsOp(client(rs), g)).1], n - 1)
  }

  /** The operations are what the client asks for, each with some outcome. */
  ghost predicate Plays(c: Chain, client: Client, rs: seq<int>, ops: seq<Op>)
    decreases ops
  {
    ops != [] ==>
      && (ops[0] == AsOp(client(rs), true) || ops[0] == AsOp(client(rs), false))
      && Plays(Step(c, ops[0]), client, rs + [Effect(c, ops[0]).1], ops[1..])
  }

  /** The pointers that the calls of a run return. */
  function Results(c: Chain, ops: seq<Op>): (r: seq<int>)
    ensures |r| == |ops|
    decreases ops
  {
    if ops == [] then [] else [Effect(c, ops[0]).1] + Results(Step(c, ops[0]), ops[1..])
  }

  /** That is: call `i` is what the client asks for after seeing the first `i` results. */
  lemma {:induction false} PlaysAt(c: Chain, client: Client, rs: seq<int>, ops: seq<Op>, i: nat)
    requires Plays(c, client, rs, ops) && i < |ops|
    ensures var q := client(rs + Results(c, ops)[..i]); ops[i] == AsOp(q, true) || ops[i] == AsOp(q, false)
    decreases i
  {
    if i == 0 {
      assert rs + Results(c, ops)[..0] == rs;
    } else {
      var p := Effect(c, ops[0]).1;
      PlaysAt(Step(c, ops[0]), client, rs + [p], ops[1..], i - 1);
      assert rs + [p] + Results(Step(c, ops[0]), ops[1..])[..i - 1] == rs + Results(c, ops)[..i];
    }
  }

  /** A run allocates exactly if one of its results is not NULL. */
  lemma {:induction false} AllocatesExactly(c: Chain, ops: seq<Op>)
    ensures Allocates(c, ops) <==> exists p :: p in Results(c, ops) && p != 0
    decreases ops
  {
    if ops != [] {
      var p, rest := Effect(c, ops[0]).1, Results(Step(c, ops[0]), ops[1..]);
      AllocatesExactly(Step(c, ops[0]), ops[1..]);
      assert Results(c, ops) == [p] + rest;
      assert p in Results(c, ops) && forall q | q in rest :: q in Results(c, ops);
    }
  }

  lemma LiveBeforeStep(c: Chain, op: Op, b: Block)
    requires Inv(c) && b in LiveBlocks(Step(c, op).blocks)
    ensures b in LiveBlocks(c.blocks) || b.Begin() == Effect(c, op).1
  {
    hide Kmalloc, Free, Inv, Find, Granted;
    match op
    case KmallocOp(size, granted) => KmallocGrants(c, size, granted);
    case FreeOp(ptr) => FreeRemoves(c, ptr);
    case ReallocOp(ptr, size, granted) =>
      KmallocGrants(c, size, granted);
      FreeRemoves(c, ptr);
  }

  /** A block live after a run was live before, or its pointer is one of the results. */
  lemma {:induction false} LiveAreResults(c: Chain, ops: seq<Op>, b: Block)
    requires Inv(c) && b in LiveBlocks(Run(c, ops).blocks)
    ensures b in LiveBlocks(c.blocks) || b.Begin() in Results(c, ops)
    decreases ops
  {
    if ops != [] {
      var d, p, rest := Step(c, ops[0]), Effect(c, ops[0]).1, Results(Step(c, ops[0]), ops[1..]);
      StepKeepsInv(c, ops[0]);
      LiveAreResults(d, ops[1..], b);
      assert Results(c, ops) == [p] + rest;
      if b !in LiveBlocks(c.blocks) && b in LiveBlocks(d.blocks) {
        LiveBeforeStep(c, ops[0], b);
      }
    }
  }

  /** The block is live and no call of the run frees it. */
  ghost predicate Survives(c: Chain, ops: seq<Op>, b: Block) {
    b in LiveBlocks(c.blocks) && forall i | 0 <= i < |ops| :: !Releases(ops[i], b.Begin())
  }

  lemma SurvivesStep(c: Chain, ops: seq<Op>, b: Block)
    requires Inv(c) && ops != [] && Survives(c, ops, b)
    ensures Survives(Step(c, ops[0]), ops[1..], b)
  {
    LiveAfterStep(c, ops[0], b);
  }

  // ------------------------------------------------------------------ where the heap ends

  /** The heap ends at or below `edge` before the run and after each call. */
  ghost predicate StaysWithin(c: Chain, ops: seq<Op>, edge: int)
    decreases ops
  {
    Top(c.blocks) <= edge && (ops != [] ==> StaysWithin(Step(c, ops[0]), ops[1..], edge))
  }

  lemma StaysStep(c: Chain, op: Op, rest: seq<Op>, edge: int)
    requires StaysWithin(c, [op] + rest, edge)
    ensures Top(c.blocks) <= edge && Top(Step(c, op).blocks) <= edge && StaysWithin(Step(c, op), rest, edge)
  {
    assert ([op] + rest)[1..] == rest;
  }

  /** kmalloc stays below `edge` exactly if it is refused, finds a fit, or has room for the block above the last one. */
  lemma KmallocStaysWithin(c: Chain, size: nat, granted: bool, edge: int)
    requires Inv(c) && size > 0 && Top(c.blocks) <= edge
    ensures Top(Kmalloc(c, size, granted).0.blocks) <= edge <==>
            || (PagesNeeded(c, size) > 0 && !granted)
            || (exists j :: 0 <= j < |c.blocks| && Fits(c.blocks[j], size))
            || Top(c.blocks) + HEADER + size <= edge
  {
    var i := BestFit(c.blocks, size);
    if i != -1 {
      assert Fits(c.blocks[i], size);
      SpliceTiled(c.blocks, i, Pieces(c.blocks[i], size), i + 1);
    } else if c.blocks != [] {
      Ordered(c.blocks, 0, |c.blocks| - 1);
    }
  }

  /** free never moves the end of the heap up. */
  lemma FreeStaysWithin(c: Chain, ptr: int)
    requires Inv(c)
    ensures Top(Free(c, ptr).blocks) <= Top(c.blocks)
  {
    hide Coalesce;
    var i := Find(c.blocks, ptr);
    if i != -1 {
      CoalesceKeepsSound(c, i);
      var bs := Coalesce(c.blocks, i);
      var n := |bs| - 1;
      if n > 0 { assert bs[n - 1].End() == bs[n].at; }
      if n >= 0 { Ordered(bs, 0, n); }
    }
  }

  // ------------------------------------------------------------------------------- free

  /** Freeing a block that is already free changes nothing. */
  lemma FreeingFreeBlock(c: Chain, i: int)
    requires Inv(c) && 0 <= i < |c.blocks| && c.blocks[i].free
    ensures Free(c, c.blocks[i].Begin()) == c
  {
    var bs := c.blocks;
    FindUnique(bs, i);
    assert i > 0 ==> !bs[i - 1].free;
    assert Coalesce(bs, i) == bs;
  }

  /** free changes the heap exactly when the pointer is that of a live block. */
  lemma FreeChangesLiveOnly(c: Chain, ptr: int)
    requires Inv(c)
    ensures Free(c, ptr) != c <==> exists b :: b in LiveBlocks(c.blocks) && b.Begin() == ptr
  {
    var i := Find(c.blocks, ptr);
    FreeRemoves(c, ptr);
    if i != -1 && c.blocks[i].free {
      FreeingFreeBlock(c, i);
    } else if i != -1 {
      assert c.blocks[i] in LiveBlocks(c.blocks) && c.blocks[i] !in LiveBlocks(Free(c, ptr).blocks);
    }
    forall b | b in LiveBlocks(c.blocks) && b.Begin() == ptr
      ensures b == c.blocks[i]
    {
      var j :| 0 <= j < |c.blocks| && c.blocks[j] == b;
      FindUnique(c.blocks, j);
    }
  }

  /** free is idempotent, whether the block was merged left, kept or released. */
  lemma FreeTwice(c: Chain, ptr: int)
    requires Inv(c)
    ensures Free(Free(c, ptr), ptr) == Free(c, ptr)
  {
    var d := Free(c, ptr);
    FreeKeepsInv(c, ptr);
    var j := Find(d.blocks, ptr);
    if j != -1 {
      FreeRemoves(c, ptr);
      assert d.blocks[j] !in LiveBlocks(d.blocks);
      FreeingFreeBlock(d, j);
    }
  }

  /** With no live block there is no block at all. */
  lemma NothingLiveNothingLeft(c: Chain)
    requires Inv(c)
    ensures LiveBlocks(c.blocks) == {} <==> c.blocks == []
  {
    var n := |c.blocks|;
    if n > 0 && !c.blocks[n - 1].free {
      assert c.blocks[n - 1] in LiveBlocks(c.blocks);
    } else if n > 1 {
      assert c.blocks[n - 2] in LiveBlocks(c.blocks);
    }
  }

  function Frees(ptrs: seq<int>): seq<Op> {
    seq(|ptrs|, i requires 0 <= i < |ptrs| => FreeOp(ptrs[i]))
  }

  lemma {:induction false} FreesRemove(c: Chain, ptrs: seq<int>)
    requires Inv(c)
    ensures LiveBlocks(Run(c, Frees(ptrs)).blocks) == set b | b in LiveBlocks(c.blocks) && b.Begin() !in ptrs
    decreases ptrs
  {
    if ptrs != [] {
      FreeKeepsInv(c, ptrs[0]);
      FreeRemoves(c, ptrs[0]);
      assert Frees(ptrs)[1..] == Frees(ptrs[1..]);
      FreesRemove(Free(c, ptrs[0]), ptrs[1..]);
    }
  }

  /** Freeing every live pointer, in any order and with any other pointers in between, leaves no block and no page. */
  lemma FreeAllEmpties(c: Chain, ptrs: seq<int>)
    requires Inv(c) && Settled(c)
    requires forall b | b in LiveBlocks(c.blocks) :: b.Begin() in ptrs
    ensures Run(c, Frees(ptrs)) == Chain([], 0)
  {
    RunKeepsInv(c, Frees(ptrs));
    FreesRemove(c, ptrs);
    NothingLiveNothingLeft(Run(c, Frees(ptrs)));
  }

  /** So the heap comes back empty after any run in which some kmalloc succeeded, once everything is freed. */
  lemma FreeEverything(ops: seq<Op>, ptrs: seq<int>)
    requires Allocates(FRESH, ops)
    requires forall b | b in LiveBlocks(Run(FRESH, ops).blocks) :: b.Begin() in ptrs
    ensures Run(Run(FRESH, ops), Frees(ptrs)) == Chain([], 0)
  {
    RunKeepsInv(FRESH, ops);
    FreeAllEmpties(Run(FRESH, ops), ptrs);
  }

  /** kmalloc serves from a free block whenever one fits, and then never asks for pages. */
  lemma BestFitFirst(c: Chain, size: nat, granted: bool, j: int)
    requires Inv(c) && size > 0 && 0 <= j < |c.blocks| && Fits(c.blocks[j], size)
    ensures var (d, p) := Kmalloc(c, size, granted);
            && d.pages == c.pages
            && (exists i :: IsBestFit(c.blocks, size, i) && p == c.blocks[i].Begin())
  {
    var i := BestFit(c.blocks, size);
    assert IsBestFit(c.blocks, size, i);
  }

  /** The exact condition under which kmalloc returns NULL. */
  lemma NullExactly(c: Chain, size: nat, granted: bool)
    requires Inv(c)
    ensures Kmalloc(c, size, granted).1 == 0 <==>
            || size == 0
            || ((forall j | 0 <= j < |c.blocks| :: !Fits(c.blocks[j], size)) && PagesNeeded(c, size) > 0 && !granted)
  {
    var i := BestFit(c.blocks, size);
    if i != -1 {
      Ordered(c.blocks, i, i);
    }
  }
}
