/** Runs of the heap: no byte lost or counted twice, and what size zero does. */
module HeapRuns {
  import opened HeapModel
  import opened HeapSums
  import opened Lists

  /** Every byte the cursor has handed out belongs to exactly one live or free
      block: the rounded extents add up to the arena used so far. */
  ghost predicate Conserved(h: Heap) {
    LiveSum(Round16, h.live) + FreeSum(Round16, h.free) == h.next - HEAP_BASE
  }

  lemma AllocConserves(h: Heap, size: int)
    requires Conserved(h) && size >= 1 && h.next % 16 == 0
    requires Alloc(h, size).Allocated? ==> Alloc(h, size).addr !in h.live
    ensures Alloc(h, size).Allocated? ==> Conserved(Alloc(h, size).heap)
  {
    var i := FirstFit(h.free, size);
    if i < |h.free| {
      LiveSumAdd(Round16, h.live, h.free[i].addr, size);
      FreeSumRemoved(Round16, h.free, i);
      SplitExtent(size, h.free[i].size);
      FreeSumAppend(Round16, Without(h.free, i), Block(h.free[i].addr + Round16(size), h.free[i].size - Round16(size)));
    } else if BumpNext(h.next, size) <= THREAD_STACK_BASE {
      LiveSumAdd(Round16, h.live, h.next, size);
      RoundOfAligned(h.next, size);
    }
  }

  lemma FreeConserves(h: Heap, addr: int)
    requires Conserved(h) && addr in h.live
    ensures Conserved(Free(h, addr))
  {
    LiveSumRemove(Round16, h.live, addr);
    FreeSumAppend(Round16, h.free, Block(addr, h.live[addr]));
  }

  function Exact(n: int): int { n }

  lemma {:induction false} UserBytesFit(live: map<int, int>)
    requires forall a :: a in live ==> live[a] >= 1
    ensures LiveSum(Exact, live) <= LiveSum(Round16, live)
    decreases |live|
  {
    if a :| a in live {
      LiveSumRemove(Exact, live, a);
      LiveSumRemove(Round16, live, a);
      RoundFacts(live[a]);
      UserBytesFit(live - {a});
    }
  }

  lemma {:induction false} FreeBytesFit(free: seq<Block>)
    requires forall k :: 0 <= k < |free| ==> free[k].size >= 1
    ensures FreeSum(Exact, free) <= FreeSum(Round16, free)
  {
    if free != [] {
      RoundFacts(free[0].size);
      FreeBytesFit(free[1..]);
    }
  }

  // ---- Runs ----

  datatype Op = AllocOp(size: int) | FreeOp(addr: int)

  const EMPTY := Heap(HEAP_BASE, map[], [])

  /** A run of allocations and frees; what raises an error changes nothing. */
  function Play(ops: seq<Op>): Heap
    decreases |ops|
  {
    if ops == [] then EMPTY
    else
      var h := Play(ops[..|ops| - 1]);
      match ops[|ops| - 1]
      case AllocOp(size) => (match Alloc(h, size) case Allocated(h', _) => h' case Exhausted => h)
      case FreeOp(addr) => if addr in h.live then Free(h, addr) else h
  }

  /** In every run of positive allocations and of frees: blocks stay disjoint,
      aligned and in the arena, no byte is lost or counted twice, and the live
      and free bytes together never exceed the bytes handed out. */
  lemma {:induction false} HeapSafety(ops: seq<Op>)
    requires forall k :: 0 <= k < |ops| && ops[k].AllocOp? ==> ops[k].size >= 1
    ensures Safe(Play(ops)) && Conserved(Play(ops))
    ensures LiveSum(Exact, Play(ops).live) + FreeSum(Exact, Play(ops).free) <= Play(ops).next - HEAP_BASE
    decreases |ops|
  {
    if ops != [] {
      var h := Play(ops[..|ops| - 1]);
      HeapSafety(ops[..|ops| - 1]);
      match ops[|ops| - 1]
      case AllocOp(size) => AllocSafe(h, size); AllocConserves(h, size);
      case FreeOp(addr) => if addr in h.live { FreeSafe(h, addr); FreeConserves(h, addr); }
    }
    UserBytesFit(Play(ops).live);
    FreeBytesFit(Play(ops).free);
  }

  // ---- Size zero ----

  /** The documented claim that the cursor always advances holds exactly for
      non-empty requests when the cursor is aligned, as it always is. */
  lemma BumpAdvancesIff(current: int, size: int)
    requires current % 16 == 0 && size >= 0
    ensures BumpNext(current, size) > current <==> size >= 1
  {
    RoundOfAligned(current, size);
    RoundFacts(size);
  }

  lemma ZeroSizeDoesNotAdvance()
    ensures BumpNext(HEAP_BASE, 0) == HEAP_BASE
  {
  }

  /** A block is the caller's alone if no free block starts at it and the next
      bump allocation cannot return it again. */
  predicate Exclusive(h: Heap, addr: int) {
    addr != h.next && forall k :: 0 <= k < |h.free| ==> h.free[k].addr != addr
  }

  /** A successful allocation is the caller's alone exactly if it is not empty. */
  lemma AllocExclusiveIff(h: Heap, size: int)
    requires Safe(h) && size >= 0 && Alloc(h, size).Allocated?
    ensures Exclusive(Alloc(h, size).heap, Alloc(h, size).addr) <==> size >= 1
  {
    var i := FirstFit(h.free, size);
    var h' := Alloc(h, size).heap;
    var a := Alloc(h, size).addr;
    if size >= 1 {
      AllocSafe(h, size);
      RoundFacts(size);
      assert InArena(Block(a, h'.live[a]), h'.next);
      forall k | 0 <= k < |h'.free| ensures h'.free[k].addr != a {
        RoundFacts(h'.free[k].size);
        assert Apart(Block(a, h'.live[a]), h'.free[k]);
      }
    } else if i < |h.free| {
      assert Round16(0) == 0;
      assert h'.free[|h'.free| - 1].addr == a;
    } else {
      RoundOfAligned(h.next, 0);
    }
  }

  /** Two empty requests in a row are given the same address. */
  lemma ZeroSizeAliases()
    ensures var r := Alloc(EMPTY, 0);
      r.Allocated? && Alloc(r.heap, 0).Allocated? && Alloc(r.heap, 0).addr == r.addr
  {
  }
}
