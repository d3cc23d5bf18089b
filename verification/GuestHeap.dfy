/** The guest heap on real memory contents: simple_alloc and simple_free of the
    runtime state, and the HeapAlloc, HeapFree and HeapReAlloc handlers over them,
    with what each leaves untouched. */
module GuestHeap {
  import opened GuestMemory
  import opened LittleEndian
  import opened HeapModel
  import opened HeapRuns
  import opened Lists

  const CLEAN_FILL: Byte := 0xCD
  const DEAD_FILL: Byte := 0xDD

  const HEAP_NO_SERIALIZE := 1
  const HEAP_ZERO_MEMORY := 8
  const HEAP_REALLOC_IN_PLACE_ONLY := 0x10

  /** How a handler ends: EAX, a fatal halt, or the allocator's RuntimeError. */
  datatype Outcome = Returned(eax: int) | Halted | Raised

  /** The bit of value `mask`, a power of two, in `flags`. */
  predicate Bit(flags: nat, mask: nat)
    requires mask > 0
  {
    flags / mask % 2 == 1
  }

  /** No bit outside `HEAP_NO_SERIALIZE | HEAP_ZERO_MEMORY` (and, for HeapReAlloc,
      HEAP_REALLOC_IN_PLACE_ONLY) is set. */
  predicate KnownFlags(flags: nat, inPlaceAllowed: bool) {
    flags < 0x20 && !Bit(flags, 2) && !Bit(flags, 4) && (inPlaceAllowed || flags < 0x10)
  }

  /** The flags that are known, and what they ask for. */
  lemma FlagsMean(flags: nat)
    ensures KnownFlags(flags, false) <==> flags in {0, 1, 8, 9}
    ensures KnownFlags(flags, true) <==> flags in {0, 1, 8, 9, 0x10, 0x11, 0x18, 0x19}
    ensures KnownFlags(flags, true) ==> (Bit(flags, HEAP_ZERO_MEMORY) <==> flags in {8, 9, 0x18, 0x19})
    ensures KnownFlags(flags, true) ==> (Bit(flags, HEAP_REALLOC_IN_PLACE_ONLY) <==> flags >= 0x10)
  {
    var a, b, c, d, e := flags % 2, flags / 2 % 2, flags / 4 % 2, flags / 8 % 2, flags / 0x10 % 2;
    assert 0 <= a < 2 && 0 <= b < 2 && 0 <= c < 2 && 0 <= d < 2 && 0 <= e < 2;
    assert flags < 0x20 ==> flags == a + 2 * b + 4 * c + 8 * d + 0x10 * e;
  }

  /** Nothing in `live` changed between the two memories. */
  predicate BlocksUntouched(m: Mem, m': Mem, live: map<int, int>)
    requires |m| == |m'|
  {
    forall a, x :: a in live && a <= x < a + live[a] && 0 <= x < |m| ==> m'[x] == m[x]
  }

  class Guest {
    var mem: Mem
    var nextHeapAlloc: int
    var heapAllocSizes: map<int, int>
    var heapFreeList: seq<Block>
    var heapAllocOwner: map<int, int>
    var heapHandles: set<int>

    function View(): Heap
      reads this
    {
      Heap(nextHeapAlloc, heapAllocSizes, heapFreeList)
    }

    ghost predicate Valid()
      reads this
    {
      Safe(View()) && Conserved(View()) && |mem| >= THREAD_STACK_BASE
    }

    constructor (mem: Mem)
      requires |mem| >= THREAD_STACK_BASE
      ensures Valid() && View() == EMPTY && this.mem == mem
    {
      this.mem := mem;
      nextHeapAlloc, heapAllocSizes, heapFreeList := HEAP_BASE, map[], [];
      heapAllocOwner, heapHandles := map[], {0x9000};
      new;
      assert Conserved(EMPTY);
    }

    /** memory.load */
    method StoreBytes(addr: int, data: Bytes)
      requires 0 <= addr && addr + |data| <= |mem|
      modifies this`mem
      ensures mem == Stored(old(mem), addr, data)
    {
      mem := mem[..addr] + data + mem[addr + |data|..];
    }

    /** memory.write32 */
    method Write32(addr: int, v: int)
      requires 0 <= addr && addr + 4 <= |mem| && 0 <= v < 0x1_0000_0000
      modifies this`mem
      ensures mem == Written32(old(mem), addr, v)
    {
      StoreBytes(addr, Bytes32(v));
    }

    /** _fill_memory */
    method FillMemory(addr: int, size: int, fill: Byte)
      requires size > 0 ==> 0 <= addr && addr + size <= |mem|
      modifies this`mem
      ensures |mem| == |old(mem)|
      ensures forall x :: 0 <= x < |mem| ==> mem[x] == if addr <= x < addr + size then fill else old(mem)[x]
    {
      if size > 0 {
        StoreBytes(addr, Repeat(fill, size));
      }
    }

    /** The first-fit case of simple_alloc: the head of free block i becomes the
        new block, what is left of it goes to the end of the free list. */
    method TakeFree(i: nat, size: int)
      requires i < |heapFreeList|
      modifies this`heapAllocSizes, this`heapFreeList
      ensures heapFreeList == Split(old(heapFreeList), i, size)
      ensures heapAllocSizes == old(heapAllocSizes)[old(heapFreeList)[i].addr := size]
    {
      hide Without, Round16;
      var b := heapFreeList[i];
      var aligned := Round16(size);
      var rest := Without(heapFreeList, i);
      heapFreeList := if aligned < b.size then rest + [Block(b.addr + aligned, b.size - aligned)] else rest;
      heapAllocSizes := heapAllocSizes[b.addr := size];
    }

    /** simple_alloc: first fit in the free list, else the bump cursor. `ok` is
        false for the RuntimeError at the thread stacks, which changes nothing. */
    method SimpleAlloc(size: int, fill: Byte) returns (addr: int, ok: bool)
      requires Valid() && size >= 0 && nextHeapAlloc + size + 15 < 0x1_0000_0000
      modifies this`mem, this`nextHeapAlloc, this`heapAllocSizes, this`heapFreeList
      ensures |mem| == |old(mem)|
      ensures ok == Alloc(old(View()), size).Allocated?
      ensures ok ==> View() == Alloc(old(View()), size).heap && addr == Alloc(old(View()), size).addr
      ensures !ok ==> View() == old(View()) && mem == old(mem)
      ensures ok ==> forall x :: 0 <= x < |mem| ==> mem[x] == if addr <= x < addr + size then fill else old(mem)[x]
    {
      ghost var h := View();
      AllocWithin(h, size);
      var i := 0;
      while i < |heapFreeList|
        invariant i <= |heapFreeList|
        invariant forall k :: 0 <= k < i ==> heapFreeList[k].size < size
      {
        if heapFreeList[i].size >= size {
          FirstFitIs(heapFreeList, size, i);
          addr := heapFreeList[i].addr;
          TakeFree(i, size);
          FillMemory(addr, size, fill);
          return addr, true;
        }
        i := i + 1;
      }
      FirstFitIs(heapFreeList, size, i);
      addr := nextHeapAlloc;
      var newCursor := BumpNext(nextHeapAlloc, size);
      if newCursor > THREAD_STACK_BASE {
        return addr, false;
      }
      nextHeapAlloc := newCursor;
      heapAllocSizes := heapAllocSizes[addr := size];
      FillMemory(addr, size, fill);
      ok := true;
    }

    /** simple_alloc for the callers that never ask for an empty block. */
    method AllocBlock(size: int, fill: Byte) returns (addr: int, ok: bool)
      requires Valid() && size >= 1 && nextHeapAlloc + size + 15 < 0x1_0000_0000
      modifies this`mem, this`nextHeapAlloc, this`heapAllocSizes, this`heapFreeList
      ensures Valid() && |mem| == |old(mem)|
      ensures ok == Alloc(old(View()), size).Allocated?
      ensures !ok ==> View() == old(View()) && mem == old(mem)
      ensures ok ==>
        && View() == Alloc(old(View()), size).heap && addr == Alloc(old(View()), size).addr
        && addr !in old(heapAllocSizes) && heapAllocSizes == old(heapAllocSizes)[addr := size]
        && HEAP_BASE <= addr && addr + size <= THREAD_STACK_BASE
        && OthersApart(old(heapAllocSizes), addr, size)
        && (forall x :: 0 <= x < |mem| ==> mem[x] == if addr <= x < addr + size then fill else old(mem)[x])
      ensures BlocksUntouched(old(mem), mem, old(heapAllocSizes))
    {
      ghost var h := View();
      addr, ok := SimpleAlloc(size, fill);
      if ok {
        AllocSafe(h, size);
        AllocConserves(h, size);
        AllocApart(h, size);
      }
    }

    /** simple_free: NULL is a no-op, an untracked pointer raises, anything else
        is filled with 0xDD and goes to the end of the free list. */
    method SimpleFree(addr: int) returns (ok: bool)
      requires Valid()
      modifies this`mem, this`heapAllocSizes, this`heapFreeList, this`heapAllocOwner
      ensures Valid() && |mem| == |old(mem)|
      ensures ok == (addr == 0 || addr in old(heapAllocSizes))
      ensures addr !in old(heapAllocSizes) ==>
        View() == old(View()) && mem == old(mem) && heapAllocOwner == old(heapAllocOwner)
      ensures addr in old(heapAllocSizes) ==>
        && View() == Free(old(View()), addr)
        && heapAllocOwner == old(heapAllocOwner) - {addr}
        && forall x :: 0 <= x < |mem| ==>
          mem[x] == if addr <= x < addr + old(heapAllocSizes)[addr] then DEAD_FILL else old(mem)[x]
      ensures BlocksUntouched(old(mem), mem, heapAllocSizes)
    {
      ghost var h := View();
      if addr == 0 {
        assert addr in heapAllocSizes ==> InArena(Block(addr, heapAllocSizes[addr]), nextHeapAlloc);
        return true;
      }
      if addr !in heapAllocSizes {
        return false;
      }
      FreeSafe(h, addr);
      FreeConserves(h, addr);
      LiveWithin(h, addr);
      OthersOutside(h, addr);
      var size := heapAllocSizes[addr];
      heapAllocSizes := heapAllocSizes - {addr};
      heapAllocOwner := heapAllocOwner - {addr};
      FillMemory(addr, size, DEAD_FILL);
      heapFreeList := heapFreeList + [Block(addr, size)];
      ok := true;
    }

    /** HeapAlloc: zero bytes are rounded up to one, and HEAP_ZERO_MEMORY clears. */
    method HeapAlloc(hHeap: int, flags: nat, bytes: nat) returns (r: Outcome)
      requires Valid() && nextHeapAlloc + bytes + 16 < 0x1_0000_0000
      modifies this`mem, this`nextHeapAlloc, this`heapAllocSizes, this`heapFreeList, this`heapAllocOwner
      ensures Valid() && |mem| == |old(mem)|
      ensures r.Halted? <==> (hHeap !in heapHandles || !KnownFlags(flags, false))
      ensures r.Raised? <==> !r.Halted? && Alloc(old(View()), if bytes == 0 then 1 else bytes).Exhausted?
      ensures !r.Returned? ==> View() == old(View()) && mem == old(mem)
      ensures r.Returned? ==>
        var size := if bytes == 0 then 1 else bytes;
        && View() == Alloc(old(View()), size).heap && r.eax == Alloc(old(View()), size).addr
        && r.eax !in old(heapAllocSizes) && heapAllocSizes == old(heapAllocSizes)[r.eax := size]
        && heapAllocOwner == old(heapAllocOwner)[r.eax := hHeap]
        && HEAP_BASE <= r.eax && r.eax + size <= THREAD_STACK_BASE
        && (forall x :: r.eax <= x < r.eax + size ==> mem[x] == if Bit(flags, HEAP_ZERO_MEMORY) then 0 else CLEAN_FILL)
      ensures BlocksUntouched(old(mem), mem, old(heapAllocSizes))
    {
      hide Alloc, Safe, Conserved, KnownFlags, Bit, Repeat;
      if hHeap !in heapHandles || !KnownFlags(flags, false) {
        return Halted;
      }
      var size := if bytes == 0 then 1 else bytes;
      var addr, ok := AllocBlock(size, CLEAN_FILL);
      if !ok {
        return Raised;
      }
      heapAllocOwner := heapAllocOwner[addr := hHeap];
      if Bit(flags, HEAP_ZERO_MEMORY) {
        StoreBytes(addr, Repeat(0, size));
      }
      r := Returned(addr);
    }

    method HeapFree(hHeap: int, flags: nat, p: int) returns (r: Outcome)
      requires Valid()
      modifies this`mem, this`heapAllocSizes, this`heapFreeList, this`heapAllocOwner
      ensures Valid() && |mem| == |old(mem)|
      ensures r ==
        if hHeap !in heapHandles || flags > HEAP_NO_SERIALIZE || (p != 0 && p !in old(heapAllocSizes)) then Halted
        else Returned(1)
      ensures heapAllocSizes == (if r == Returned(1) then old(heapAllocSizes) - {p} else old(heapAllocSizes))
      ensures r == Halted || p == 0 ==>
        View() == old(View()) && mem == old(mem) && heapAllocOwner == old(heapAllocOwner)
      ensures r == Returned(1) && p != 0 ==>
        && View() == Free(old(View()), p) && heapAllocOwner == old(heapAllocOwner) - {p}
        && forall x :: 0 <= x < |mem| ==>
          mem[x] == if p <= x < p + old(heapAllocSizes)[p] then DEAD_FILL else old(mem)[x]
      ensures BlocksUntouched(old(mem), mem, heapAllocSizes)
    {
      if hHeap !in heapHandles || flags > HEAP_NO_SERIALIZE {
        return Halted;
      }
      if p == 0 {
        assert p in heapAllocSizes ==> InArena(Block(p, heapAllocSizes[p]), nextHeapAlloc);
        assert heapAllocSizes - {0} == heapAllocSizes;
        return Returned(1);
      }
      if p !in heapAllocSizes {
        return Halted;
      }
      var _ := SimpleFree(p);
      r := Returned(1);
    }

    /** The copying part of HeapReAlloc. */
    method MoveData(from: int, to: int, oldSize: int, newSize: int, zero: bool)
      requires 0 <= oldSize && 1 <= newSize && 0 <= to && to + newSize <= |mem|
      requires oldSize > 0 ==> 0 <= from && from + oldSize <= |mem|
      requires oldSize > 0 ==> from + oldSize <= to || to + newSize <= from
      modifies this`mem
      ensures |mem| == |old(mem)|
      ensures forall x :: 0 <= x < |mem| && !(to <= x < to + newSize) ==> mem[x] == old(mem)[x]
      ensures forall x :: to <= x < to + newSize && x < to + oldSize ==> mem[x] == old(mem)[from + (x - to)]
      ensures zero ==> forall x :: to + oldSize <= x < to + newSize ==> mem[x] == 0
    {
      hide Stored, Repeat;
      var copyLen := if oldSize < newSize then oldSize else newSize;
      if copyLen > 0 {
        StoreBytes(to, mem[from..from + copyLen]);
      }
      if zero && newSize > oldSize {
        StoreBytes(to + oldSize, Repeat(0, newSize - oldSize));
      }
    }

    /** The first half of a move: a new block that holds the old block's data. */
    method CopyToNew(hHeap: int, p: int, newSize: int, zero: bool) returns (addr: int, ok: bool)
      requires Valid() && newSize >= 1 && nextHeapAlloc + newSize + 15 < 0x1_0000_0000
      requires p == 0 || p in heapAllocSizes
      modifies this`mem, this`nextHeapAlloc, this`heapAllocSizes, this`heapFreeList, this`heapAllocOwner
      ensures Valid() && |mem| == |old(mem)|
      ensures ok <==> Alloc(old(View()), newSize).Allocated?
      ensures !ok ==> View() == old(View()) && mem == old(mem)
      ensures ok ==>
        && View() == Alloc(old(View()), newSize).heap && addr == Alloc(old(View()), newSize).addr
        && heapAllocOwner == old(heapAllocOwner)[addr := hHeap]
        && addr !in old(heapAllocSizes) && heapAllocSizes == old(heapAllocSizes)[addr := newSize]
        && HEAP_BASE <= addr && addr + newSize <= THREAD_STACK_BASE
        && Copied(old(mem), mem, old(heapAllocSizes), p, addr, newSize, zero)
      ensures BlocksUntouched(old(mem), mem, old(heapAllocSizes))
    {
      ghost var m0, live0 := mem, heapAllocSizes;
      NullIsNotLive(View());
      var oldSize := SizeOf(heapAllocSizes, p);
      if p != 0 {
        LiveWithin(View(), p);
      }
      addr, ok := AllocBlock(newSize, CLEAN_FILL);
      if !ok {
        return;
      }
      heapAllocOwner := heapAllocOwner[addr := hHeap];
      ghost var m1 := mem;
      MoveData(p, addr, oldSize, newSize, zero);
      OutsideUntouched(m0, mem, live0, addr, newSize);
    }

    /** Allocate, copy, clear the grown tail if asked, free: the data survives
        although the allocator fills both the new block and the freed one. */
    method MoveBlock(hHeap: int, p: int, newSize: int, zero: bool) returns (addr: int, ok: bool)
      requires Valid() && newSize >= 1 && nextHeapAlloc + newSize + 15 < 0x1_0000_0000
      requires p == 0 || p in heapAllocSizes
      modifies this`mem, this`nextHeapAlloc, this`heapAllocSizes, this`heapFreeList, this`heapAllocOwner
      ensures Valid() && |mem| == |old(mem)|
      ensures ok <==> Alloc(old(View()), newSize).Allocated?
      ensures !ok ==> View() == old(View()) && mem == old(mem)
      ensures ok ==>
        && View() == FreedIfAny(Alloc(old(View()), newSize).heap, p) && addr == Alloc(old(View()), newSize).addr
        && heapAllocOwner == OwnersAfter(old(heapAllocOwner)[addr := hHeap], p)
        && addr !in old(heapAllocSizes) && heapAllocSizes == old(heapAllocSizes)[addr := newSize] - {p}
        && HEAP_BASE <= addr && addr + newSize <= THREAD_STACK_BASE
        && Copied(old(mem), mem, old(heapAllocSizes), p, addr, newSize, zero)
      ensures BlocksUntouched(old(mem), mem, old(heapAllocSizes) - {p})
    {
      hide Safe, Conserved, Copied, BlocksUntouched, Alloc;
      ghost var live0 := heapAllocSizes;
      addr, ok := CopyToNew(hHeap, p, newSize, zero);
      if !ok {
        NothingTouched(mem, live0 - {p});
        return;
      }
      ghost var m1 := mem;
      OldApart(View(), live0, p, addr, newSize);
      FreeOld(p);
      FreeKeepsCopy(old(mem), m1, mem, live0, p, addr, newSize, zero);
      UntouchedTwice(old(mem), m1, mem, live0, heapAllocSizes, p);
    }

    /** simple_free of the old block, if there is one. */
    method FreeOld(p: int)
      requires Valid() && (p == 0 || p in heapAllocSizes)
      modifies this`mem, this`heapAllocSizes, this`heapFreeList, this`heapAllocOwner
      ensures Valid() && |mem| == |old(mem)| && heapAllocSizes == old(heapAllocSizes) - {p}
      ensures View() == FreedIfAny(old(View()), p) && heapAllocOwner == OwnersAfter(old(heapAllocOwner), p)
      ensures forall x :: 0 <= x < |mem| && !(p in old(heapAllocSizes) && p <= x < p + old(heapAllocSizes)[p]) ==>
        mem[x] == old(mem)[x]
      ensures BlocksUntouched(old(mem), mem, heapAllocSizes)
    {
      NullIsNotLive(View());
      var _ := SimpleFree(p);
      assert p !in old(heapAllocSizes) ==> old(heapAllocSizes) - {p} == old(heapAllocSizes);
    }

    /** HeapReAlloc: checks the heap, the flags and the pointer; refuses to stay in
        place; otherwise always moves the block. */
    method HeapReAlloc(hHeap: int, flags: nat, p: int, bytes: nat) returns (r: Outcome)
      requires Valid() && nextHeapAlloc + bytes + 16 < 0x1_0000_0000
      modifies this`mem, this`nextHeapAlloc, this`heapAllocSizes, this`heapFreeList, this`heapAllocOwner
      ensures Valid() && |mem| == |old(mem)|
      ensures r.Halted? <==> (hHeap !in heapHandles || !KnownFlags(flags, true)
                              || (!Bit(flags, HEAP_REALLOC_IN_PLACE_ONLY) && p != 0 && p !in old(heapAllocSizes)))
      ensures r == Returned(0) <==> (!r.Halted? && Bit(flags, HEAP_REALLOC_IN_PLACE_ONLY))
      ensures r.Raised? <==>
        && !r.Halted? && !Bit(flags, HEAP_REALLOC_IN_PLACE_ONLY)
        && Alloc(old(View()), if bytes == 0 then 1 else bytes).Exhausted?
      ensures !r.Returned? || r.eax == 0 ==> View() == old(View()) && mem == old(mem)
      ensures r.Returned? && r.eax != 0 ==>
        var newSize := if bytes == 0 then 1 else bytes;
        && View() == FreedIfAny(Alloc(old(View()), newSize).heap, p) && r.eax == Alloc(old(View()), newSize).addr
        && heapAllocOwner == OwnersAfter(old(heapAllocOwner)[r.eax := hHeap], p)
        && r.eax !in old(heapAllocSizes) && heapAllocSizes == old(heapAllocSizes)[r.eax := newSize] - {p}
        && HEAP_BASE <= r.eax && r.eax + newSize <= THREAD_STACK_BASE
        && Copied(old(mem), mem, old(heapAllocSizes), p, r.eax, newSize, Bit(flags, HEAP_ZERO_MEMORY))
      ensures BlocksUntouched(old(mem), mem, old(heapAllocSizes) - {p})
    {
      if hHeap !in heapHandles || !KnownFlags(flags, true) {
        return Halted;
      }
      if Bit(flags, HEAP_REALLOC_IN_PLACE_ONLY) {
        return Returned(0);
      }
      if p != 0 && p !in heapAllocSizes {
        return Halted;
      }
      var addr, ok := MoveBlock(hHeap, p, if bytes == 0 then 1 else bytes, Bit(flags, HEAP_ZERO_MEMORY));
      r := if ok then Returned(addr) else Raised;
    }
  }

  /** The heap with the block at p freed, if there is one. */
  function FreedIfAny(h: Heap, p: int): Heap {
    if p in h.live then Free(h, p) else h
  }

  function OwnersAfter(owners: map<int, int>, p: int): map<int, int> {
    if p == 0 then owners else owners - {p}
  }

  /** heap_alloc_sizes.get(p, 0) */
  function SizeOf(live: map<int, int>, p: int): int {
    if p in live then live[p] else 0
  }

  /** The block [addr, addr + size) meets none of the live blocks. */
  ghost predicate OthersApart(live: map<int, int>, addr: int, size: int) {
    forall b :: b in live ==> b + live[b] <= addr || addr + size <= b
  }

  /** In m', the block at addr starts with the first min(old, new) bytes that the
      block at p has in m, and the rest of it is zero if asked. */
  ghost predicate Copied(m: Mem, m': Mem, live: map<int, int>, p: int, addr: int, newSize: int, zero: bool)
    requires |m| == |m'|
  {
    && 0 <= addr && addr + newSize <= |m|
    && (p in live ==>
          && 0 <= p && p + live[p] <= |m|
          && forall x :: addr <= x < addr + newSize && x < addr + live[p] ==> m'[x] == m[p + (x - addr)])
    && (zero ==> forall x :: addr + SizeOf(live, p) <= x < addr + newSize && 0 <= x ==> m'[x] == 0)
  }

  /** The old block lies apart from the new one. */
  lemma OldApart(h: Heap, live: map<int, int>, p: int, addr: int, newSize: int)
    requires Safe(h) && h.live == live[addr := newSize] && addr !in live
    ensures p in live ==> p + live[p] <= addr || addr + newSize <= p
  {
    OthersOutside(h, addr);
    assert p in live ==> p in h.live && h.live[p] == live[p] && p != addr;
  }

  lemma NothingTouched(m: Mem, live: map<int, int>)
    ensures BlocksUntouched(m, m, live)
  {
  }

  lemma UntouchedTwice(m: Mem, m1: Mem, m2: Mem, live: map<int, int>, after: map<int, int>, p: int)
    requires |m| == |m1| == |m2| && BlocksUntouched(m, m1, live) && BlocksUntouched(m1, m2, after)
    requires forall b :: b in live && b != p ==> b in after && after[b] == live[b]
    ensures BlocksUntouched(m, m2, live - {p})
  {
    forall a, x | a in live - {p} && a <= x < a + (live - {p})[a] && 0 <= x < |m| ensures m2[x] == m[x] {
      assert a in live && a in after && after[a] == live[a];
      assert m1[x] == m[x];
    }
  }

  /** Freeing the old block leaves the copy alone. */
  lemma FreeKeepsCopy(m: Mem, m1: Mem, m2: Mem, live: map<int, int>, p: int, addr: int, newSize: int, zero: bool)
    requires |m| == |m1| == |m2| && Copied(m, m1, live, p, addr, newSize, zero)
    requires p in live ==> p + live[p] <= addr || addr + newSize <= p
    requires forall x :: 0 <= x < |m| && !(p in live && p <= x < p + live[p]) ==> m2[x] == m1[x]
    ensures Copied(m, m2, live, p, addr, newSize, zero)
  {
  }

  lemma OutsideUntouched(m: Mem, m': Mem, live: map<int, int>, addr: int, size: int)
    requires |m| == |m'| && OthersApart(live, addr, size)
    requires forall x :: 0 <= x < |m| && !(addr <= x < addr + size) ==> m'[x] == m[x]
    ensures BlocksUntouched(m, m', live)
  {
  }

  lemma {:induction false} FirstFitIs(free: seq<Block>, size: int, i: nat)
    requires i <= |free|
    requires forall k :: 0 <= k < i ==> free[k].size < size
    requires i < |free| ==> free[i].size >= size
    ensures FirstFit(free, size) == i
  {
  }

  lemma LiveWithin(h: Heap, a: int)
    requires Safe(h) && a in h.live
    ensures HEAP_BASE <= a && h.live[a] >= 1 && a + h.live[a] <= THREAD_STACK_BASE
  {
    assert InArena(Block(a, h.live[a]), h.next);
    RoundFacts(h.live[a]);
  }

  /** Whatever simple_alloc is about to hand out lies inside the arena. */
  lemma AllocWithin(h: Heap, size: int)
    requires Safe(h) && size >= 0
    ensures var i := FirstFit(h.free, size);
      i < |h.free| ==> HEAP_BASE <= h.free[i].addr && h.free[i].addr + size <= THREAD_STACK_BASE
    ensures h.next + size <= BumpNext(h.next, size)
  {
    var i := FirstFit(h.free, size);
    if i < |h.free| {
      assert InArena(h.free[i], h.next);
      RoundFacts(h.free[i].size);
    }
    RoundFacts(h.next + size);
  }

  lemma AllocApart(h: Heap, size: int)
    requires Safe(h) && size >= 1 && Alloc(h, size).Allocated?
    ensures var a := Alloc(h, size).addr;
      && a !in h.live && HEAP_BASE <= a && a + size <= THREAD_STACK_BASE
      && OthersApart(h.live, a, size)
  {
    AllocSafe(h, size);
    var h', a := Alloc(h, size).heap, Alloc(h, size).addr;
    LiveWithin(h', a);
    OthersOutside(h', a);
    forall b | b in h.live ensures b + h.live[b] <= a || a + size <= b {
      assert b in h'.live && h'.live[b] == h.live[b];
    }
  }

  /** The bytes of every other live block lie outside the block at a. */
  lemma OthersOutside(h: Heap, a: int)
    requires Safe(h) && a in h.live
    ensures forall b :: b in h.live && b != a ==> b + h.live[b] <= a || a + h.live[a] <= b
  {
    RoundFacts(h.live[a]);
    forall b | b in h.live && b != a
      ensures b + h.live[b] <= a || a + h.live[a] <= b
    {
      RoundFacts(h.live[b]);
      assert Apart(Block(b, h.live[b]), Block(a, h.live[a]));
    }
  }

  lemma NullIsNotLive(h: Heap)
    requires Safe(h)
    ensures 0 !in h.live
  {
    if 0 in h.live {
      LiveWithin(h, 0);
    }
  }
}
