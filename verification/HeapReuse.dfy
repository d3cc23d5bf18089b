/** Where an allocation is placed, on the lists alone, and that freed memory is used again. */
module HeapReuse {
  import opened HeapModel
  import opened HeapRuns
  import opened Lists

  predicate Fits(free: seq<Block>, k: nat, size: int) {
    k < |free| && free[k].size >= size
  }

  /** Free block i is the first that is large enough. */
  predicate FirstThatFits(free: seq<Block>, i: nat, size: int) {
    Fits(free, i, size) && forall k :: 0 <= k < i ==> free[k].size < size
  }

  predicate NoneFits(free: seq<Block>, size: int) {
    forall k :: 0 <= k < |free| ==> free[k].size < size
  }

  lemma FirstIsFound(free: seq<Block>, i: nat, size: int)
    requires FirstThatFits(free, i, size)
    ensures FirstFit(free, size) == i
  {
  }

  lemma {:induction false} WithoutIs<T>(s: seq<T>, i: nat)
    requires i < |s|
    ensures Without(s, i) == s[..i] + s[i + 1..]
  {
  }

  /** The head of the first block that is large enough is given out; what its rounded
      size leaves of it goes to the end of the list, and the cursor stays. */
  lemma PlacedInFirst(h: Heap, size: int, i: nat)
    requires FirstThatFits(h.free, i, size)
    ensures var b, taken := h.free[i], (size + 15) / 16 * 16;
      Alloc(h, size) == Allocated(
        Heap(h.next, h.live[b.addr := size],
             h.free[..i] + h.free[i + 1..] + if taken < b.size then [Block(b.addr + taken, b.size - taken)] else []),
        b.addr)
  {
    FirstIsFound(h.free, i, size);
    WithoutIs(h.free, i);
    var rest := Without(h.free, i);
    assert rest + [] == rest;
  }

  /** If none is, the block starts at the cursor, which moves to the next multiple of
      16 past it, unless that lies in the thread stacks. */
  lemma PlacedAtCursor(h: Heap, size: int)
    requires NoneFits(h.free, size)
    ensures var next := (h.next + size + 15) / 16 * 16;
      Alloc(h, size) ==
        if next > 0x0800_0000 then Exhausted else Allocated(Heap(next, h.live[h.next := size], h.free), h.next)
  {
  }

  /** The heap is exhausted exactly if no free block is large enough and the cursor
      would pass the thread stacks. */
  lemma ExhaustedIff(h: Heap, size: int)
    ensures Alloc(h, size).Exhausted? <==> NoneFits(h.free, size) && (h.next + size + 15) / 16 * 16 > 0x0800_0000
  {
    if NoneFits(h.free, size) { PlacedAtCursor(h, size); }
  }

  /** The first block of a new heap is at 64 MiB, and up to 64 MiB fit. */
  lemma FirstAddress(size: int)
    requires size >= 0
    ensures Alloc(EMPTY, size).Allocated? <==> size <= 0x0400_0000
    ensures Alloc(EMPTY, size).Allocated? ==> Alloc(EMPTY, size).addr == 0x0400_0000
  {
    assert NoneFits(EMPTY.free, size);
    ExhaustedIff(EMPTY, size);
    if size <= 0x0400_0000 { PlacedAtCursor(EMPTY, size); }
  }

  /** A freed block is large enough for any request up to its size: the request
      succeeds and the cursor stays. */
  lemma FreedIsReused(h: Heap, addr: int, size: int)
    requires addr in h.live && size <= h.live[addr]
    ensures Alloc(Free(h, addr), size).Allocated? && Alloc(Free(h, addr), size).heap.next == h.next
  {
    var free := Free(h, addr).free;
    assert Fits(free, |free| - 1, size);
  }

  /** Of two freed blocks the one freed first is used first. */
  lemma OldestFirst(h: Heap, a: int, b: int, size: int)
    requires a in h.live && b in h.live && a != b && size <= h.live[a] && size <= h.live[b] && NoneFits(h.free, size)
    ensures var r := Alloc(Free(Free(h, a), b), size); r.Allocated? && r.addr == a
  {
    PlacedInFirst(Free(Free(h, a), b), size, |h.free|);
  }

  /** A block allocated at the cursor and freed is given out again. */
  lemma SameAddressAgain(h: Heap, size: int)
    requires NoneFits(h.free, size) && Alloc(h, size).Allocated?
    ensures var r := Alloc(h, size); var again := Alloc(Free(r.heap, r.addr), size);
      r.addr == h.next && again.Allocated? && again.addr == r.addr && again.heap.next == r.heap.next
  {
    PlacedAtCursor(h, size);
    var r := Alloc(h, size);
    PlacedInFirst(Free(r.heap, r.addr), size, |h.free|);
  }

  /** n times allocating a block and freeing it; Exhausted once an allocation fails. */
  function Rounds(h: Heap, size: int, n: nat): AllocResult
    decreases n
  {
    if n == 0 then Allocated(h, h.next)
    else
      match Alloc(h, size)
      case Exhausted => Exhausted
      case Allocated(after, addr) => if addr in after.live then Rounds(Free(after, addr), size, n - 1) else Exhausted
  }

  /** However often, if the first allocation succeeds all do, and only it moves the
      cursor. */
  lemma {:induction false} RoundsSucceed(h: Heap, size: int, n: nat)
    requires Alloc(h, size).Allocated? && n > 0
    ensures Rounds(h, size, n).Allocated? && Rounds(h, size, n).heap.next == Alloc(h, size).heap.next
    decreases n
  {
    var r := Alloc(h, size);
    assert r.addr in r.heap.live && r.heap.live[r.addr] == size;
    FreedIsReused(r.heap, r.addr, size);
    if n > 1 { RoundsSucceed(Free(r.heap, r.addr), size, n - 1); }
  }
}
