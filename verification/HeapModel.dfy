/** The guest heap's bookkeeping as values: a bump cursor, the table of live
    blocks and the first-fit free list; and why no two blocks ever overlap,
    whatever is allocated and freed. */
module HeapModel {
  import opened Lists

  const HEAP_BASE := 0x0400_0000
  const THREAD_STACK_BASE := 0x0800_0000

  datatype Block = Block(addr: int, size: int)

  /** `live` maps the address of each block handed out to its user size. */
  datatype Heap = Heap(next: int, live: map<int, int>, free: seq<Block>)

  datatype AllocResult = Allocated(heap: Heap, addr: int) | Exhausted

  /** (n + 15) & ~15 */
  function Round16(n: int): int {
    (n + 15) / 16 * 16
  }

  function BumpNext(current: int, size: int): int {
    Round16(current + size)
  }

  /** Index of the first free block that is large enough, |free| if none is. */
  function FirstFit(free: seq<Block>, size: int): (i: nat)
    ensures i <= |free|
    ensures forall k :: 0 <= k < i ==> free[k].size < size
    ensures i < |free| ==> free[i].size >= size
  {
    if free == [] then 0
    else if free[0].size >= size then 0
    else 1 + FirstFit(free[1..], size)
  }

  /** The free list after `size` bytes are taken from its block i. */
  function Split(free: seq<Block>, i: nat, size: int): seq<Block>
    requires i < |free|
  {
    var b := free[i];
    var rest := Without(free, i);
    if Round16(size) < b.size then rest + [Block(b.addr + Round16(size), b.size - Round16(size))] else rest
  }

  function Alloc(h: Heap, size: int): AllocResult {
    var i := FirstFit(h.free, size);
    if i < |h.free| then
      Allocated(Heap(h.next, h.live[h.free[i].addr := size], Split(h.free, i, size)), h.free[i].addr)
    else if BumpNext(h.next, size) > THREAD_STACK_BASE then Exhausted
    else Allocated(Heap(BumpNext(h.next, size), h.live[h.next := size], h.free), h.next)
  }

  function Free(h: Heap, addr: int): Heap
    requires addr in h.live
  {
    Heap(h.next, h.live - {addr}, h.free + [Block(addr, h.live[addr])])
  }

  // ---- Safety ----

  /** A block occupies its size rounded up to 16 bytes. */
  predicate Apart(a: Block, b: Block) {
    a.addr + Round16(a.size) <= b.addr || b.addr + Round16(b.size) <= a.addr
  }

  predicate InArena(b: Block, next: int) {
    b.size >= 1 && b.addr % 16 == 0 && HEAP_BASE <= b.addr && b.addr + Round16(b.size) <= next
  }

  predicate LiveOk(live: map<int, int>, next: int) {
    && (forall a :: a in live ==> InArena(Block(a, live[a]), next))
    && (forall a, b :: a in live && b in live && a != b ==> Apart(Block(a, live[a]), Block(b, live[b])))
  }

  predicate FreeOk(free: seq<Block>, next: int) {
    && (forall k :: 0 <= k < |free| ==> InArena(free[k], next))
    && (forall j, k :: 0 <= j < k < |free| ==> Apart(free[j], free[k]))
  }

  predicate LiveFreeApart(live: map<int, int>, free: seq<Block>) {
    forall a, k :: a in live && 0 <= k < |free| ==> Apart(Block(a, live[a]), free[k])
  }

  /** Live and free blocks are 16-byte aligned, pairwise disjoint and inside
      [HEAP_BASE, cursor], and the cursor has not passed the thread stacks. */
  predicate Safe(h: Heap) {
    && HEAP_BASE <= h.next <= THREAD_STACK_BASE && h.next % 16 == 0
    && LiveOk(h.live, h.next) && FreeOk(h.free, h.next) && LiveFreeApart(h.live, h.free)
  }

  lemma RoundFacts(n: int)
    requires n >= 0
    ensures Round16(n) % 16 == 0 && n <= Round16(n) < n + 16
    ensures n >= 1 ==> Round16(n) >= 16
  {
  }

  lemma RoundMonotone(m: int, n: int)
    requires 0 <= m <= n
    ensures Round16(m) <= Round16(n)
  {
  }

  lemma RoundOfAligned(c: int, n: int)
    requires c % 16 == 0
    ensures Round16(c + n) == c + Round16(n)
  {
  }

  /** Splitting wastes nothing: the two parts fill the rounded extent exactly. */
  lemma SplitExtent(size: int, whole: int)
    requires 1 <= size && size <= whole
    ensures Round16(size) < whole ==> Round16(size) + Round16(whole - Round16(size)) == Round16(whole)
    ensures Round16(size) >= whole ==> Round16(size) == Round16(whole)
  {
    RoundFacts(size);
    RoundFacts(whole);
    if Round16(size) < whole {
      RoundOfAligned(-Round16(size), whole);
    } else {
      RoundMonotone(size, whole);
      RoundMonotone(whole, Round16(size));
      RoundOfAligned(Round16(size), 0);
    }
  }

  /** The block taken and the remainder both lie inside the old block i. */
  lemma SplitParts(free: seq<Block>, i: nat, size: int, next: int)
    requires i < |free| && FreeOk(free, next) && 1 <= size <= free[i].size
    ensures InArena(Block(free[i].addr, size), next)
    ensures forall b: Block {:trigger Apart(b, free[i])} :: Apart(b, free[i]) ==>
      Apart(b, Block(free[i].addr, size)) && Apart(Block(free[i].addr, size), b)
    ensures Round16(size) < free[i].size ==>
      var r := Block(free[i].addr + Round16(size), free[i].size - Round16(size));
      && InArena(r, next) && Apart(Block(free[i].addr, size), r)
      && forall b: Block {:trigger Apart(b, free[i])} :: Apart(b, free[i]) ==> Apart(b, r)
  {
    RoundFacts(size);
    RoundFacts(free[i].size);
    RoundMonotone(size, free[i].size);
    SplitExtent(size, free[i].size);
    if Round16(size) < free[i].size { RoundFacts(free[i].size - Round16(size)); }
    hide Round16;
  }

  lemma WithoutOk(free: seq<Block>, i: nat, next: int)
    requires i < |free| && FreeOk(free, next)
    ensures FreeOk(Without(free, i), next)
    ensures forall k :: 0 <= k < |Without(free, i)| ==> Apart(Without(free, i)[k], free[i])
  {
  }

  lemma AppendOk(free: seq<Block>, b: Block, next: int)
    requires FreeOk(free, next) && InArena(b, next)
    requires forall k :: 0 <= k < |free| ==> Apart(free[k], b)
    ensures FreeOk(free + [b], next)
  {
  }

  lemma SplitSafe(free: seq<Block>, i: nat, size: int, next: int)
    requires i < |free| && FreeOk(free, next) && 1 <= size <= free[i].size
    ensures FreeOk(Split(free, i, size), next)
    ensures forall k :: 0 <= k < |Split(free, i, size)| ==> Apart(Block(free[i].addr, size), Split(free, i, size)[k])
  {
    SplitParts(free, i, size, next);
    WithoutOk(free, i, next);
    var rest := Without(free, i);
    if Round16(size) < free[i].size {
      AppendOk(rest, Block(free[i].addr + Round16(size), free[i].size - Round16(size)), next);
    }
  }

  /** A block apart from free block i and from the rest is apart from the new list. */
  lemma SplitApart(free: seq<Block>, i: nat, size: int, next: int, b: Block)
    requires i < |free| && FreeOk(free, next) && 1 <= size <= free[i].size
    requires forall k :: 0 <= k < |free| ==> Apart(b, free[k])
    ensures Apart(b, Block(free[i].addr, size))
    ensures forall k :: 0 <= k < |Split(free, i, size)| ==> Apart(b, Split(free, i, size)[k])
  {
    SplitParts(free, i, size, next);
  }

  lemma ReuseSafe(h: Heap, size: int, i: nat)
    requires Safe(h) && i < |h.free| && 1 <= size <= h.free[i].size
    ensures h.free[i].addr !in h.live
    ensures Safe(Heap(h.next, h.live[h.free[i].addr := size], Split(h.free, i, size)))
  {
    var a := h.free[i].addr;
    SplitSafe(h.free, i, size, h.next);
    SplitParts(h.free, i, size, h.next);
    RoundFacts(h.free[i].size);
    forall b | b in h.live
      ensures b != a && Apart(Block(b, h.live[b]), Block(a, size))
      ensures forall k :: 0 <= k < |Split(h.free, i, size)| ==> Apart(Block(b, h.live[b]), Split(h.free, i, size)[k])
    {
      RoundFacts(h.live[b]);
      SplitApart(h.free, i, size, h.next, Block(b, h.live[b]));
    }
  }

  lemma BumpSafe(h: Heap, size: int)
    requires Safe(h) && size >= 1 && BumpNext(h.next, size) <= THREAD_STACK_BASE
    ensures h.next !in h.live
    ensures Safe(Heap(BumpNext(h.next, size), h.live[h.next := size], h.free))
  {
    RoundFacts(size);
    RoundOfAligned(h.next, size);
    forall b | b in h.live ensures b != h.next {
      RoundFacts(h.live[b]);
    }
  }

  /** Allocation of a positive size keeps the heap safe, and what it hands out is
      disjoint from every other live block. */
  lemma AllocSafe(h: Heap, size: int)
    requires Safe(h) && size >= 1
    ensures Alloc(h, size).Allocated? ==> Safe(Alloc(h, size).heap) && Alloc(h, size).addr !in h.live
  {
    var i := FirstFit(h.free, size);
    if i < |h.free| {
      ReuseSafe(h, size, i);
    } else if BumpNext(h.next, size) <= THREAD_STACK_BASE {
      BumpSafe(h, size);
    }
  }

  lemma FreeSafe(h: Heap, addr: int)
    requires Safe(h) && addr in h.live
    ensures Safe(Free(h, addr))
  {
    var h' := Free(h, addr);
    assert forall k :: 0 <= k < |h.free| ==> h'.free[k] == h.free[k];
  }
}
