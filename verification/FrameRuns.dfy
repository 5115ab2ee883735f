/** Frame ownership over whole runs of allocations, mappings and frees. */
module FrameRuns {
  import opened Frames

  /** Retain is the count that map_pages adds; Release is free_frame. */
  datatype Op = Alloc(n: int) | Retain(i: nat) | Release(i: nat)

  function Adjust(t: seq<Frame>, i: nat, r: int): seq<Frame> {
    if i < |t| then t[i := t[i].(refCount := r)] else t
  }

  function Step(t: seq<Frame>, op: Op): (r: seq<Frame>)
    ensures |r| == |t|
  {
    match op
    case Alloc(n) => var r := FirstRun(t, n); if r == -1 then t else WithCounts(t, r, n, 1)
    case Retain(i) => if i < |t| then Adjust(t, i, t[i].refCount + 1) else t
    case Release(i) => if i < |t| then Adjust(t, i, Dropped(t[i].refCount)) else t
  }

  function Run(t: seq<Frame>, ops: seq<Op>): (r: seq<Frame>)
    ensures |r| == |t|
    decreases ops
  {
    if ops == [] then t else Run(Step(t, ops[0]), ops[1..])
  }

  ghost predicate Grants(t: seq<Frame>, op: Op, i: int) {
    op.Alloc? && FirstRun(t, op.n) != -1 && FirstRun(t, op.n) <= i < FirstRun(t, op.n) + op.n
  }

  function Count(ops: seq<Op>, op: Op): nat {
    if ops == [] then 0 else (if ops[0] == op then 1 else 0) + Count(ops[1..], op)
  }

  /** A count only goes down by frees, whatever else happens. */
  lemma {:induction false} CountBound(t: seq<Frame>, ops: seq<Op>, i: nat)
    requires i < |t|
    ensures Run(t, ops)[i].refCount + Count(ops, Release(i)) >= t[i].refCount + Count(ops, Retain(i))
    decreases ops
  {
    if ops != [] {
      CountBound(Step(t, ops[0]), ops[1..], i);
    }
  }

  /**
   A frame in use is granted again only after as many frees as it had users:
   those at the start of the run and those that joined during it.
   */
  lemma RegrantNeedsFrees(t: seq<Frame>, ops: seq<Op>, op: Op, i: nat)
    requires i < |t| && Grants(Run(t, ops), op, i)
    ensures Count(ops, Release(i)) >= t[i].refCount + Count(ops, Retain(i))
  {
    CountBound(t, ops, i);
  }

  /** Two grants of one frame always have a free of that frame between them. */
  lemma NoDoubleGrant(t: seq<Frame>, first: Op, ops: seq<Op>, second: Op, i: nat)
    requires Grants(t, first, i) && Grants(Run(Step(t, first), ops), second, i)
    ensures Release(i) in ops
  {
    RegrantNeedsFrees(Step(t, first), ops, second, i);
    CountPositive(ops, Release(i));
  }

  /** No call of the run grants frame `i`, and none frees it while it is unused. */
  ghost predicate Proper(t: seq<Frame>, ops: seq<Op>, i: nat)
    requires i < |t|
    decreases ops
  {
    ops != [] ==>
      && !Grants(t, ops[0], i) && (ops[0] == Release(i) ==> t[i].refCount >= 1)
      && Proper(Step(t, ops[0]), ops[1..], i)
  }

  /** Over such a run the count is exact: users at the start, and those that joined, less the frees. */
  lemma {:induction false} CountExactly(t: seq<Frame>, ops: seq<Op>, i: nat)
    requires i < |t| && Proper(t, ops, i)
    ensures Run(t, ops)[i].refCount == t[i].refCount + Count(ops, Retain(i)) - Count(ops, Release(i))
    decreases ops
  {
    if ops != [] {
      CountExactly(Step(t, ops[0]), ops[1..], i);
    }
  }

  /** So a frame is unused exactly after as many frees as it had users, */
  lemma FreedExactly(t: seq<Frame>, ops: seq<Op>, i: nat)
    requires i < |t| && Proper(t, ops, i)
    ensures Run(t, ops)[i].refCount == 0 <==> Count(ops, Release(i)) == t[i].refCount + Count(ops, Retain(i))
  {
    CountExactly(t, ops, i);
  }

  /** and then the next request for one frame gets it, exactly if no lower frame is unused. */
  lemma FreedIsGranted(t: seq<Frame>, ops: seq<Op>, i: nat)
    requires i < |t| && Proper(t, ops, i) && Count(ops, Release(i)) == t[i].refCount + Count(ops, Retain(i))
    ensures Grants(Run(t, ops), Alloc(1), i) <==> forall j | 0 <= j < i :: Run(t, ops)[j].refCount != 0
  {
    FreedExactly(t, ops, i);
    var t' := Run(t, ops);
    assert UnusedRun(t', i, 1);
    if forall j | 0 <= j < i :: t'[j].refCount != 0 {
      forall j | 0 <= j < i
        ensures !UnusedRun(t', j, 1)
      {
        assert t'[j].refCount != 0;
      }
      LowestRunIsFirst(t', i, 1);
    } else {
      var j :| 0 <= j < i && t'[j].refCount == 0;
      assert UnusedRun(t', j, 1);
    }
  }

  /** Freeing an unused frame is lost: after a free and a new user, with one free for one user, the frame is in use. */
  lemma FreeOfUnusedIsLost(t: seq<Frame>, i: nat)
    requires i < |t| && t[i].refCount == 0
    ensures !Proper(t, [Release(i), Retain(i)], i) && Run(t, [Release(i), Retain(i)])[i].refCount == 1
  {
    var ops := [Release(i), Retain(i)];
    var t1 := Step(t, ops[0]);
    assert t1[i].refCount == 0 && ops[1..] == [Retain(i)];
    assert Run(t1, [Retain(i)]) == Run(Step(t1, Retain(i)), []);
  }

  lemma {:induction false} CountPositive(ops: seq<Op>, op: Op)
    ensures Count(ops, op) > 0 <==> op in ops
  {
    if ops != [] {
      CountPositive(ops[1..], op);
    }
  }
}
