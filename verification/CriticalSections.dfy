/** InitializeCriticalSection and DeleteCriticalSection over guest memory, with
    the process-wide list of critical sections as their invariant, and what they
    leave of the client's memory and of the other debug blocks. */
module CriticalSections {
  import opened GuestMemory
  import opened LittleEndian
  import opened GuestHeap
  import opened HeapModel
  import opened Lists
  import opened SectionList
  import opened CsProtocol

  /** The words of the structure at ptr. */
  predicate Fields(m: Mem, ptr: int, debug: int, lockCount: int)
    requires 0 <= ptr && ptr + CS_SIZE <= |m|
  {
    && Read32(m, ptr) == debug && Read32(m, ptr + 4) == lockCount
    && Read32(m, ptr + 8) == 0 && Read32(m, ptr + 0xC) == 0 && Read32(m, ptr + 0x10) == 0 && Read32(m, ptr + 0x14) == 0
  }

  lemma ReadAfterWrite(m: Mem, addr: int, v: int, x: int)
    requires 0 <= addr && addr + 4 <= |m| && 0 <= v < 0x1_0000_0000
    requires 0 <= x && x + 4 <= |m| && (x == addr || x + 4 <= addr || addr + 4 <= x)
    ensures Read32(Written32(m, addr, v), x) == if x == addr then v else Read32(m, x)
  {
    if x == addr { ReadBack(m, addr, v); } else { ReadOther(m, addr, v, x); }
  }

  /** A debug block is zero but for the back pointer at +4 and the links at +8. */
  ghost predicate ZeroBlock(m: Mem, debug: int) {
    forall x :: 0 <= x < |m| && (debug <= x < debug + 4 || debug + 0x10 <= x < debug + CS_DEBUG_SIZE) ==> m[x] == 0
  }

  ghost predicate AllZero(m: Mem, addr: int, size: int) {
    forall x :: 0 <= x < |m| && addr <= x < addr + size ==> m[x] == 0
  }

  /** The six stores of an initialisation, as one function of memory. */
  function Initialised(m: Mem, ptr: int, debug: int): (r: Mem)
    requires 0 <= ptr && ptr + CS_SIZE <= |m| && 0 <= debug < 0x1_0000_0000
    ensures |r| == |m|
  {
    var m1 := Written32(m, ptr, debug);
    var m2 := Written32(m1, ptr + 4, 0xFFFF_FFFF);
    var m3 := Written32(m2, ptr + 8, 0);
    var m4 := Written32(m3, ptr + 0xC, 0);
    var m5 := Written32(m4, ptr + 0x10, 0);
    Written32(m5, ptr + 0x14, 0)
  }

  lemma InitialisedWord(m: Mem, ptr: int, debug: int, k: int)
    requires 0 <= ptr && ptr + CS_SIZE <= |m| && 0 <= debug < 0x1_0000_0000
    requires 0 <= k < 6
    ensures Read32(Initialised(m, ptr, debug), ptr + 4 * k)
      == if k == 0 then debug else if k == 1 then 0xFFFF_FFFF else 0
  {
    hide Read32;
    var x := ptr + 4 * k;
    var m1 := Written32(m, ptr, debug);
    var m2 := Written32(m1, ptr + 4, 0xFFFF_FFFF);
    var m3 := Written32(m2, ptr + 8, 0);
    var m4 := Written32(m3, ptr + 0xC, 0);
    var m5 := Written32(m4, ptr + 0x10, 0);
    ReadAfterWrite(m, ptr, debug, x);
    ReadAfterWrite(m1, ptr + 4, 0xFFFF_FFFF, x);
    ReadAfterWrite(m2, ptr + 8, 0, x);
    ReadAfterWrite(m3, ptr + 0xC, 0, x);
    ReadAfterWrite(m4, ptr + 0x10, 0, x);
    ReadAfterWrite(m5, ptr + 0x14, 0, x);
  }

  lemma InitialisedOutside(m: Mem, ptr: int, debug: int)
    requires 0 <= ptr && ptr + CS_SIZE <= |m| && 0 <= debug < 0x1_0000_0000
    ensures var r := Initialised(m, ptr, debug);
      forall x :: 0 <= x < |m| && !(ptr <= x < ptr + CS_SIZE) ==> r[x] == m[x]
  {
  }

  lemma InitialisedFields(m: Mem, ptr: int, debug: int)
    requires 0 <= ptr && ptr + CS_SIZE <= |m| && 0 <= debug < 0x1_0000_0000
    ensures Fields(Initialised(m, ptr, debug), ptr, debug, 0xFFFF_FFFF)
  {
    InitialisedWord(m, ptr, debug, 0);
    InitialisedWord(m, ptr, debug, 1);
    InitialisedWord(m, ptr, debug, 2);
    InitialisedWord(m, ptr, debug, 3);
    InitialisedWord(m, ptr, debug, 4);
    InitialisedWord(m, ptr, debug, 5);
  }

  lemma AlignedWords(a: int)
    requires a % 16 == 0
    ensures a % 4 == 0 && (a + 8) % 4 == 0
  {
    assert a == 4 * (4 * (a / 16)) && a + 8 == 4 * (4 * (a / 16) + 2);
  }

  /** Every entry's two words lie in the arena, in a block of the list. */
  lemma LinkInArena(live: map<int, int>, head: int, nodes: seq<int>, k: int)
    requires Members(live, head, nodes) && Placed(live) && head != 0
    ensures var a := Link(head, nodes, k); HEAP_BASE <= a && a + 8 <= THREAD_STACK_BASE && a % 4 == 0
    ensures exists b ::
      b in live && OnList(head, nodes, b) && b <= Link(head, nodes, k) && Link(head, nodes, k) + 8 <= b + live[b]
  {
    var b := if 1 <= k <= |nodes| then nodes[k - 1] else head;
    assert b in live && OnList(head, nodes, b);
    AlignedWords(b);
  }

  /** The arena has that many bytes left, rounded up. */
  predicate HasRoom(next: int, size: int) {
    next + Round16(size) <= THREAD_STACK_BASE
  }

  lemma RoomIs(h: Heap, size: int)
    requires Safe(h) && size >= 1
    ensures HasRoom(h.next, size) ==> Alloc(h, size).Allocated? && Alloc(h, size).heap.next <= h.next + Round16(size)
  {
    RoundOfAligned(h.next, size);
  }

  lemma EmptyRing(w: int -> int, w1: int -> int, w2: int -> int, head: int)
    requires WordStored(w, w1, head, head) && WordStored(w1, w2, head + 4, head) && head % 4 == 0
    ensures Ring(w2, head, [])
  {
    assert w2(head) == w1(head) && (head + 4) % 4 == 0;
    assert Linked(w2, head, [], 0);
  }

  /** What one allocation does to the heap, and whether it succeeds. */
  predicate Taken(h: Heap, size: int, h': Heap, addr: int, ok: bool) {
    match Alloc(h, size)
    case Exhausted => !ok && h' == h
    case Allocated(after, a) => ok && h' == after && addr == a
  }

  /** The list's head is there or, on first use, allocated. */
  predicate HeadTaken(h: Heap, head: int, h': Heap, head': int, ok: bool) {
    if head != 0 then ok && h' == h && head' == head
    else if Alloc(h, 8).Allocated? then Taken(h, 8, h', head', ok)
    else !ok && h' == h && head' == head
  }

  /** The two allocations of an initialisation. */
  predicate InitTaken(h: Heap, head: int, h': Heap, head': int, debug: int, ok: bool) {
    match Alloc(h, CS_DEBUG_SIZE)
    case Exhausted => !ok && h' == h && head' == head
    case Allocated(after, d) => debug == d && HeadTaken(after, head, h', head', ok)
  }

  class SectionTable {
    const heap: Guest
    var csListHead: int
    var kernelHandles: map<int, KernelObject>
    ghost var nodes: seq<int>

    ghost predicate Valid()
      reads this, heap
    {
      && heap.Valid() && |heap.mem| <= 0x1_0000_0000
      && ListOk(heap.mem, heap.heapAllocSizes, csListHead, nodes)
    }

    /** The blocks that are the client's own. */
    ghost function Client(): map<int, int>
      reads this, heap
    {
      ClientBlocks(heap.heapAllocSizes, csListHead, nodes)
    }

    constructor (heap: Guest)
      requires heap.Valid() && |heap.mem| <= 0x1_0000_0000
      ensures Valid() && this.heap == heap && nodes == [] && csListHead == 0
    {
      this.heap := heap;
      csListHead, kernelHandles, nodes := 0, map[], [];
    }

    /** memory.write32 at an aligned address, seen on words and bytes. */
    method StoreWord(addr: int, v: int)
      requires 0 <= addr && addr + 4 <= |heap.mem| && addr % 4 == 0 && 0 <= v < 0x1_0000_0000
      modifies heap`mem
      ensures |heap.mem| == |old(heap.mem)|
      ensures WordStored(Words(old(heap.mem)), Words(heap.mem), addr, v)
      ensures OnlyIn(old(heap.mem), heap.mem, addr, 4)
    {
      heap.Write32(addr, v);
      StoredWord(old(heap.mem), heap.mem, addr, v);
    }

    /** An empty list: the head linked to itself. */
    method StoreEmptyHead(head: int)
      requires 0 <= head && head + 8 <= |heap.mem| <= 0x1_0000_0000 && head % 16 == 0
      modifies heap`mem
      ensures |heap.mem| == |old(heap.mem)| && Ring(Words(heap.mem), head, [])
      ensures OnlyIn(old(heap.mem), heap.mem, head, 8)
    {
      AlignedWords(head);
      hide Words;
      StoreWord(head, head);
      ghost var w1 := Words(heap.mem);
      StoreWord(head + 4, head);
      EmptyRing(Words(old(heap.mem)), w1, Words(heap.mem), head);
    }

    /** simple_alloc(size, fill=0), with what the list needs to know of it. */
    method NewBlock(size: int) returns (addr: int, ok: bool)
      requires heap.Valid() && 1 <= size < 0x1000
      modifies heap`mem, heap`nextHeapAlloc, heap`heapAllocSizes, heap`heapFreeList
      ensures heap.Valid() && |heap.mem| == |old(heap.mem)|
      ensures Taken(old(heap.View()), size, heap.View(), addr, ok)
      ensures !ok ==> heap.mem == old(heap.mem) && heap.heapAllocSizes == old(heap.heapAllocSizes)
      ensures HasRoom(old(heap.nextHeapAlloc), size) ==>
        ok && heap.nextHeapAlloc <= old(heap.nextHeapAlloc) + Round16(size)
      ensures ok ==> heap.heapAllocSizes == old(heap.heapAllocSizes)[addr := size]
      ensures ok ==> addr % 16 == 0 && Fresh(old(heap.heapAllocSizes), addr, size)
      ensures ok ==> AllZero(heap.mem, addr, size)
      ensures ok ==> OnlyIn(old(heap.mem), heap.mem, addr, size)
    {
      RoomIs(heap.View(), size);
      addr, ok := heap.AllocBlock(size, 0);
      if ok {
        assert InArena(Block(addr, heap.heapAllocSizes[addr]), heap.nextHeapAlloc);
      }
    }

    /** _cs_list_head: allocates the empty list's head on first use. */
    method ListHead(ghost c: map<int, int>) returns (ok: bool)
      requires Valid() && Within(c, Client())
      modifies this`csListHead, heap`mem, heap`nextHeapAlloc, heap`heapAllocSizes, heap`heapFreeList
      ensures Valid() && Within(c, Client())
      ensures |heap.mem| == |old(heap.mem)|
      ensures Untouched(old(heap.mem), heap.mem, c, 0, 0) && BacksKept(old(heap.mem), heap.mem, nodes)
      ensures ok ==> csListHead != 0
      ensures HeadTaken(old(heap.View()), old(csListHead), heap.View(), csListHead, ok)
      ensures HasRoom(old(heap.nextHeapAlloc), 8) ==> ok
      ensures old(csListHead) != 0 || !ok ==>
        csListHead == old(csListHead) && heap.mem == old(heap.mem) && heap.heapAllocSizes == old(heap.heapAllocSizes)
      ensures ok && old(csListHead) == 0 ==>
        csListHead !in old(heap.heapAllocSizes) && heap.heapAllocSizes == old(heap.heapAllocSizes)[csListHead := 8]
    {
      if csListHead != 0 {
        return true;
      }
      hide Ring, Words;
      ghost var m0, live0 := heap.mem, heap.heapAllocSizes;
      var head, found := NewBlock(8);
      if !found {
        return false;
      }
      StoreEmptyHead(head);
      csListHead := head;
      StillClient(live0, 0, [], c, head, 8, head, []);
      FreshUntouched(m0, heap.mem, live0, 0, [], c, head, 8);
      ok := true;
    }

    /** The four list writes of an initialisation. */
    method StoreTailLinks(head: int, tail: int, debug: int)
      requires 0 <= head && head + 8 <= |heap.mem| <= 0x1_0000_0000 && head % 4 == 0
      requires 0 <= tail && tail + 8 <= |heap.mem| && tail % 4 == 0
      requires 0 <= debug && debug + CS_DEBUG_SIZE <= |heap.mem| && debug % 4 == 0
      modifies heap`mem
      ensures |heap.mem| == |old(heap.mem)|
      ensures forall x :: x % 4 == 0 ==> TailInserted(Words(old(heap.mem)), Words(heap.mem), head, tail, debug, x)
      ensures forall x ::
        0 <= x < |heap.mem| && !(debug + 8 <= x < debug + 0x10) && !(tail <= x < tail + 4) &&
        !(head + 4 <= x < head + 8) ==>
        heap.mem[x] == old(heap.mem)[x]
    {
      hide Words;
      StoreWord(debug + 8, head);
      ghost var w1 := Words(heap.mem);
      StoreWord(debug + 0xC, tail);
      ghost var w2 := Words(heap.mem);
      StoreWord(tail, debug + 8);
      ghost var w3 := Words(heap.mem);
      StoreWord(head + 4, debug + 8);
      FourStores(Words(old(heap.mem)), w1, w2, w3, Words(heap.mem), head, tail, debug);
    }

    /** Links the debug block in between the old tail, read from the head, and the head. */
    method LinkAtTail(debug: int, ghost c: map<int, int>)
      requires Valid() && csListHead != 0 && Within(c, Client()) && debug !in c
      requires debug in heap.heapAllocSizes && heap.heapAllocSizes[debug] == CS_DEBUG_SIZE
      requires !OnList(csListHead, nodes, debug)
      modifies heap`mem, this`nodes
      ensures Valid() && nodes == old(nodes) + [debug] && Within(c, Client())
      ensures |heap.mem| == |old(heap.mem)|
      ensures Untouched(old(heap.mem), heap.mem, c, 0, 0) && BacksKept(old(heap.mem), heap.mem, nodes)
      ensures ZeroBlock(old(heap.mem), debug) ==> ZeroBlock(heap.mem, debug)
    {
      hide Ring, Words, Untouched, BacksKept, Within, Safe, Linked, ZeroBlock;
      ghost var h := heap.View();
      var head := csListHead;
      SafeIsPlaced(h);
      ReadyToInsert(h.live, head, nodes, debug);
      TailIsRead(Words(heap.mem), head, nodes);
      hide ListOk, Link, Members;
      var tail := Read32At(head + 4);
      StoreTailLinks(head, tail, debug);
      InsertedOk(h, old(heap.mem), heap.mem, head, nodes, debug, c);
      TailStoresPlain(h, old(heap.mem), heap.mem, head, nodes, debug, tail);
      nodes := nodes + [debug];
    }

    method Read32At(addr: int) returns (v: int)
      requires 0 <= addr && addr + 4 <= |heap.mem|
      ensures v == Read32(heap.mem, addr) && v == Words(heap.mem)(addr)
    {
      v := Read32(heap.mem, addr);
    }

    /** The six stores into the client's structure. */
    method StoreStructure(ptr: int, debug: int)
      requires 0 <= ptr && ptr + CS_SIZE <= |heap.mem| <= 0x1_0000_0000 && 0 <= debug < 0x1_0000_0000
      modifies heap`mem
      ensures |heap.mem| == |old(heap.mem)| && Fields(heap.mem, ptr, debug, 0xFFFF_FFFF)
      ensures OnlyIn(old(heap.mem), heap.mem, ptr, CS_SIZE)
    {
      heap.Write32(ptr, debug);
      heap.Write32(ptr + 4, 0xFFFF_FFFF);
      heap.Write32(ptr + 8, 0);
      heap.Write32(ptr + 0xC, 0);
      heap.Write32(ptr + 0x10, 0);
      heap.Write32(ptr + 0x14, 0);
      InitialisedFields(old(heap.mem), ptr, debug);
      InitialisedOutside(old(heap.mem), ptr, debug);
    }

    /** A client store leaves the list as it is. */
    method StoreClient(addr: int, data: Bytes)
      requires Valid() && 0 <= addr && addr + |data| <= |heap.mem|
      requires Owned(Client(), addr, |data|)
      modifies heap`mem
      ensures Valid() && heap.mem == Stored(old(heap.mem), addr, data)
      ensures BacksKept(old(heap.mem), heap.mem, nodes)
    {
      heap.StoreBytes(addr, data);
      ClientWriteMissesList(heap.View(), old(heap.mem), heap.mem, csListHead, nodes, addr, |data|);
      SafeIsPlaced(heap.View());
      ListUntouchedOk(old(heap.mem), heap.mem, heap.heapAllocSizes, heap.heapAllocSizes, csListHead, nodes);
      UntouchedBacks(old(heap.mem), heap.mem, heap.heapAllocSizes, csListHead, nodes);
    }

    /** An unrelated allocation leaves the list as it is. */
    method AllocClient(size: int, fill: Byte) returns (addr: int, ok: bool)
      requires Valid() && size >= 1 && heap.nextHeapAlloc + size + 15 < 0x1_0000_0000
      modifies heap`mem, heap`nextHeapAlloc, heap`heapAllocSizes, heap`heapFreeList
      ensures Valid() && |heap.mem| == |old(heap.mem)|
      ensures Taken(old(heap.View()), size, heap.View(), addr, ok)
      ensures !ok ==> heap.mem == old(heap.mem) && heap.heapAllocSizes == old(heap.heapAllocSizes)
      ensures ok ==>
        && Fresh(old(heap.heapAllocSizes), addr, size) && heap.heapAllocSizes == old(heap.heapAllocSizes)[addr := size]
        && forall x :: 0 <= x < |heap.mem| ==> heap.mem[x] == if addr <= x < addr + size then fill else old(heap.mem)[x]
      ensures BacksKept(old(heap.mem), heap.mem, nodes)
    {
      SafeIsPlaced(heap.View());
      addr, ok := heap.AllocBlock(size, fill);
      ListUntouchedOk(old(heap.mem), heap.mem, old(heap.heapAllocSizes), heap.heapAllocSizes, csListHead, nodes);
      UntouchedBacks(old(heap.mem), heap.mem, old(heap.heapAllocSizes), csListHead, nodes);
    }

    /** So does freeing any block that is not part of it. */
    method FreeClient(addr: int) returns (ok: bool)
      requires Valid() && addr != 0 && !OnList(csListHead, nodes, addr)
      modifies heap`mem, heap`heapAllocSizes, heap`heapFreeList, heap`heapAllocOwner
      ensures Valid() && |heap.mem| == |old(heap.mem)|
      ensures ok == (addr in old(heap.heapAllocSizes)) && heap.heapAllocSizes == old(heap.heapAllocSizes) - {addr}
      ensures !ok ==> heap.mem == old(heap.mem)
      ensures ok ==> heap.View() == Free(old(heap.View()), addr)
      ensures ok ==> forall x :: 0 <= x < |heap.mem| ==>
        heap.mem[x] == if addr <= x < addr + old(heap.heapAllocSizes)[addr] then DEAD_FILL else old(heap.mem)[x]
      ensures BacksKept(old(heap.mem), heap.mem, nodes)
    {
      SafeIsPlaced(heap.View());
      ghost var live := old(heap.heapAllocSizes);
      if addr in live { OthersOutside(heap.View(), addr); }
      ok := heap.SimpleFree(addr);
      assert ListUntouched(old(heap.mem), heap.mem, live, csListHead, nodes);
      ListUntouchedOk(old(heap.mem), heap.mem, live, heap.heapAllocSizes, csListHead, nodes);
      UntouchedBacks(old(heap.mem), heap.mem, live, csListHead, nodes);
    }

    /** The back pointer of a debug block. */
    method StoreBack(debug: int, ptr: int)
      requires 0 <= debug && debug + 8 <= |heap.mem| && debug % 16 == 0 && 0 <= ptr < 0x1_0000_0000
      modifies heap`mem
      ensures |heap.mem| == |old(heap.mem)| && Words(heap.mem)(debug + 4) == ptr
      ensures OnlyIn(old(heap.mem), heap.mem, debug + 4, 4)
    {
      heap.Write32(debug + 4, ptr);
      ReadBack(old(heap.mem), debug + 4, ptr);
    }

    /** A zeroed debug block with its back pointer, not yet on the list. */
    method NewDebugBlock(ptr: int, ghost c: map<int, int>) returns (debug: int, ok: bool)
      requires Valid() && 0 <= ptr < 0x1_0000_0000 && Within(c, Client())
      modifies heap`mem, heap`nextHeapAlloc, heap`heapAllocSizes, heap`heapFreeList
      ensures Valid() && Within(c, Client())
      ensures |heap.mem| == |old(heap.mem)|
      ensures Untouched(old(heap.mem), heap.mem, c, 0, 0) && BacksKept(old(heap.mem), heap.mem, nodes)
      ensures HasRoom(old(heap.nextHeapAlloc), 0x20) ==> ok && heap.nextHeapAlloc <= old(heap.nextHeapAlloc) + 0x20
      ensures Taken(old(heap.View()), CS_DEBUG_SIZE, heap.View(), debug, ok)
      ensures !ok ==> heap.mem == old(heap.mem) && heap.heapAllocSizes == old(heap.heapAllocSizes)
      ensures ok ==>
        && debug !in old(heap.heapAllocSizes) && debug !in c && !OnList(csListHead, nodes, debug)
        && 0 <= debug && debug + CS_DEBUG_SIZE <= THREAD_STACK_BASE
        && heap.heapAllocSizes == old(heap.heapAllocSizes)[debug := CS_DEBUG_SIZE] && Words(heap.mem)(debug + 4) == ptr
        && ZeroBlock(heap.mem, debug)
    {
      hide Ring, Words, ZeroBlock, AllZero;
      SafeIsPlaced(heap.View());
      ghost var m0, live0 := heap.mem, heap.heapAllocSizes;
      debug, ok := NewBlock(CS_DEBUG_SIZE);
      if ok {
        ghost var m1 := heap.mem;
        NewZero(m1, debug);
        StoreBack(debug, ptr);
        BackZero(m1, heap.mem, debug);
        FreshBlockOk(m0, heap.mem, live0, csListHead, nodes, c, debug);
      }
    }

    /** Makes room on the list: the head exists, the block is its new tail. */
    method Attach(debug: int, ghost c: map<int, int>) returns (ok: bool)
      requires Valid() && Within(c, Client()) && debug !in c
      requires debug in heap.heapAllocSizes && heap.heapAllocSizes[debug] == CS_DEBUG_SIZE
      requires !OnList(csListHead, nodes, debug)
      modifies this`csListHead, this`nodes, heap`mem, heap`nextHeapAlloc, heap`heapAllocSizes, heap`heapFreeList
      ensures Valid() && Within(c, Client())
      ensures HasRoom(old(heap.nextHeapAlloc), 8) ==> ok
      ensures HeadTaken(old(heap.View()), old(csListHead), heap.View(), csListHead, ok)
      ensures nodes == if ok then old(nodes) + [debug] else old(nodes)
      ensures |heap.mem| == |old(heap.mem)|
      ensures Untouched(old(heap.mem), heap.mem, c, 0, 0) && BacksKept(old(heap.mem), heap.mem, old(nodes) + [debug])
      ensures ZeroBlock(old(heap.mem), debug) ==> ZeroBlock(heap.mem, debug)
    {
      hide Ring, Words, ListOk, Untouched, BacksKept, Within, ZeroBlock;
      ghost var m0, nodes0 := heap.mem, nodes;
      ghost var d := c[debug := CS_DEBUG_SIZE];
      OneMore(c, Client(), debug, CS_DEBUG_SIZE);
      ok := ListHead(d);
      ghost var m1 := heap.mem;
      BlockBack(m0, m1, d, debug);
      BlockZero(m0, m1, d, debug);
      OneMoreBack(m0, m1, nodes0, debug);
      OneLess(c, d, Client(), m0, m1, debug, CS_DEBUG_SIZE);
      if ok {
        LinkAtTail(debug, c);
        BacksOn(m0, m1, heap.mem, nodes0 + [debug], nodes0 + [debug]);
        UntouchedOn(m0, m1, heap.mem, c, 0, 0);
      }
    }

    /** The client's structure is filled in; the list stays as it is. */
    method FillStructure(ptr: int, debug: int)
      requires Valid() && 0 <= ptr && ptr + CS_SIZE <= |heap.mem| && 0 <= debug < 0x1_0000_0000
      requires Owned(Client(), ptr, CS_SIZE)
      modifies heap`mem
      ensures Valid() && |heap.mem| == |old(heap.mem)| && Fields(heap.mem, ptr, debug, 0xFFFF_FFFF)
      ensures OnlyIn(old(heap.mem), heap.mem, ptr, CS_SIZE) && BacksKept(old(heap.mem), heap.mem, nodes)
      ensures debug in nodes && ZeroBlock(old(heap.mem), debug) ==> ZeroBlock(heap.mem, debug)
    {
      hide Ring, Words, ZeroBlock;
      SafeIsPlaced(heap.View());
      StoreStructure(ptr, debug);
      ClientWriteMissesList(heap.View(), old(heap.mem), heap.mem, csListHead, nodes, ptr, CS_SIZE);
      ListUntouchedOk(old(heap.mem), heap.mem, heap.heapAllocSizes, heap.heapAllocSizes, csListHead, nodes);
      UntouchedBacks(old(heap.mem), heap.mem, heap.heapAllocSizes, csListHead, nodes);
      if debug in nodes { ListedZero(old(heap.mem), heap.mem, heap.heapAllocSizes, csListHead, nodes, debug); }
    }

    /** _write_initialized_cs. On success the new debug block is at the tail of the
        list, knows its section, and the section is free. When the heap is exhausted
        the list is as it was. Either way the blocks on the list keep their sections
        and no other memory of the client changes. */
    method WriteInitialized(ptr: int) returns (debug: int, ok: bool)
      requires Valid() && 0 <= ptr && ptr + CS_SIZE <= |heap.mem| && Owned(Client(), ptr, CS_SIZE)
      modifies this`csListHead, this`nodes, heap`mem, heap`nextHeapAlloc, heap`heapAllocSizes, heap`heapFreeList
      ensures Valid() && Within(old(Client()), Client())
      ensures HasRoom(old(heap.nextHeapAlloc), 0x30) ==> ok
      ensures InitTaken(old(heap.View()), old(csListHead), heap.View(), csListHead, debug, ok)
      ensures nodes == if ok then old(nodes) + [debug] else old(nodes)
      ensures ok ==> |heap.mem| == |old(heap.mem)| && debug !in old(heap.heapAllocSizes)
      ensures ok ==> Fields(heap.mem, ptr, debug, 0xFFFF_FFFF) && Words(heap.mem)(debug + 4) == ptr
      ensures ok ==> ZeroBlock(heap.mem, debug)
      ensures BacksKept(old(heap.mem), heap.mem, old(nodes))
      ensures Untouched(old(heap.mem), heap.mem, old(Client()), ptr, if ok then CS_SIZE else 0)
    {
      hide Ring, Words, ListOk, Untouched, BacksKept, Within, Owned, Fields, HeadTaken, ZeroBlock;
      ghost var c, m0, nodes0 := Client(), heap.mem, nodes;
      WithinItself(c);
      debug, ok := NewDebugBlock(ptr, c);
      ghost var m1 := heap.mem;
      if ok {
        ok := Attach(debug, c);
        ghost var m2 := heap.mem;
        UntouchedOn(m0, m1, m2, c, 0, 0);
        BacksOn(m0, m1, m2, nodes0, nodes0 + [debug]);
        LastBack(m1, m2, nodes0, debug);
        if ok {
          OwnedWithin(c, Client(), ptr, CS_SIZE);
          FillStructure(ptr, debug);
          OnlyInUntouched(m2, heap.mem, c, ptr, CS_SIZE);
          UntouchedOn(m0, m2, heap.mem, c, ptr, CS_SIZE);
          BacksOn(m0, m2, heap.mem, nodes0, nodes);
          LastBack(m2, heap.mem, nodes0, debug);
          return;
        }
      }
      UntouchedWider(m0, heap.mem, c, ptr, 0);
    }

    /** The two list writes of a deletion. */
    method StoreUnlink(flink: int, blink: int)
      requires 0 <= flink && flink + 8 <= |heap.mem| <= 0x1_0000_0000 && flink % 4 == 0
      requires 0 <= blink && blink + 8 <= |heap.mem| && blink % 4 == 0
      modifies heap`mem
      ensures |heap.mem| == |old(heap.mem)|
      ensures forall x :: x % 4 == 0 ==> LinkRemoved(Words(old(heap.mem)), Words(heap.mem), flink, blink, x)
      ensures forall x :: 0 <= x < |heap.mem| && !(blink <= x < blink + 4) && !(flink + 4 <= x < flink + 8) ==>
        heap.mem[x] == old(heap.mem)[x]
    {
      hide Words;
      StoreWord(blink, flink);
      ghost var w1 := Words(heap.mem);
      StoreWord(flink + 4, blink);
      TwoStores(Words(old(heap.mem)), w1, Words(heap.mem), flink, blink);
    }

    /** Takes the debug block off the list, reading its neighbours from its links. */
    method Unlink(debug: int, ghost i: nat, ghost c: map<int, int>)
      requires Valid() && i < |nodes| && nodes[i] == debug && Within(c, Client())
      modifies this`nodes, heap`mem
      ensures Valid() && Within(c, Client()) && debug !in c
      ensures nodes == Without(old(nodes), i) && !OnList(csListHead, nodes, debug)
      ensures debug in heap.heapAllocSizes && heap.heapAllocSizes[debug] == CS_DEBUG_SIZE
      ensures HEAP_BASE <= debug && debug + CS_DEBUG_SIZE <= THREAD_STACK_BASE
      ensures |heap.mem| == |old(heap.mem)|
      ensures Untouched(old(heap.mem), heap.mem, c, 0, 0) && BacksKept(old(heap.mem), heap.mem, nodes)
    {
      hide Ring, Words, Untouched, BacksKept, Within, Safe, Linked;
      ghost var h := heap.View();
      SafeIsPlaced(h);
      ReadyToUnlink(h.live, csListHead, nodes, i);
      UnlinkReads(Words(heap.mem), csListHead, nodes, i);
      assert debug in h.live && h.live[debug] == CS_DEBUG_SIZE;
      hide ListOk, Link, Members;
      var flink := Read32At(debug + 8);
      var blink := Read32At(debug + 0xC);
      StoreUnlink(flink, blink);
      UnlinkedOk(h, old(heap.mem), heap.mem, csListHead, nodes, i, c);
      nodes := Without(nodes, i);
    }

    /** Zeroes and frees a debug block that is off the list. */
    method DropDebugBlock(debug: int, ghost c: map<int, int>)
      requires Valid() && !OnList(csListHead, nodes, debug) && Within(c, Client()) && debug !in c
      requires debug in heap.heapAllocSizes && heap.heapAllocSizes[debug] == CS_DEBUG_SIZE
      requires HEAP_BASE <= debug && debug + CS_DEBUG_SIZE <= THREAD_STACK_BASE
      modifies heap`mem, heap`heapAllocSizes, heap`heapFreeList, heap`heapAllocOwner
      ensures Valid() && Within(c, Client()) && heap.View() == Free(old(heap.View()), debug)
      ensures |heap.mem| == |old(heap.mem)|
      ensures Untouched(old(heap.mem), heap.mem, c, 0, 0) && BacksKept(old(heap.mem), heap.mem, nodes)
    {
      hide ListOk, BacksKept, Safe;
      ghost var m0 := heap.mem;
      assert debug in Client() && Client()[debug] == CS_DEBUG_SIZE;
      OthersOutside(heap.View(), debug);
      StoreClient(debug, Repeat(0, CS_DEBUG_SIZE));
      ghost var m1 := heap.mem;
      var _ := FreeClient(debug);
      BacksOn(m0, m1, heap.mem, nodes, nodes);
      BlockDropped(m0, m1, heap.mem, old(heap.heapAllocSizes), c, debug);
    }

    /** The debug-block part of _delete_cs. */
    method RemoveDebugBlock(debug: int, ghost i: nat, ghost c: map<int, int>)
      requires Valid() && i < |nodes| && nodes[i] == debug && Within(c, Client())
      modifies this`nodes, heap`mem, heap`heapAllocSizes, heap`heapFreeList, heap`heapAllocOwner
      ensures Valid() && Within(c, Client())
      ensures nodes == Without(old(nodes), i)
      ensures debug in old(heap.heapAllocSizes) && heap.View() == Free(old(heap.View()), debug)
      ensures |heap.mem| == |old(heap.mem)|
      ensures Untouched(old(heap.mem), heap.mem, c, 0, 0) && BacksKept(old(heap.mem), heap.mem, nodes)
    {
      hide Ring, Words, ListOk, Untouched, BacksKept, Within;
      ghost var m0 := heap.mem;
      Unlink(debug, i, c);
      ghost var m1 := heap.mem;
      DropDebugBlock(debug, c);
      UntouchedOn(m0, m1, heap.mem, c, 0, 0);
      BacksOn(m0, m1, heap.mem, nodes, nodes);
    }

    /** The event part: `ok` is false if LockSemaphore is not an event. */
    method CloseSemaphore(sem: int) returns (ok: bool)
      modifies this`kernelHandles
      ensures ok == (sem == 0 || (sem in old(kernelHandles) && old(kernelHandles)[sem].Event?))
      ensures kernelHandles == if ok && sem != 0 then old(kernelHandles) - {sem} else old(kernelHandles)
    {
      if sem != 0 {
        if !(sem in kernelHandles && kernelHandles[sem].Event?) {
          return false;
        }
        kernelHandles := kernelHandles - {sem};
      }
      ok := true;
    }

    /** _delete_cs, for a structure whose DebugInfo is 0 or the block at place i of
        the list. `ok` is false for the RuntimeError about a LockSemaphore that is no
        event, which changes nothing. Otherwise the event is closed, the debug block
        (if any) leaves the list and the heap, and the structure is zeroed; the other
        blocks keep their sections and no other memory of the client changes. */
    method DeleteStructure(ptr: int, ghost i: nat) returns (ok: bool)
      requires Valid() && 0 <= ptr && ptr + CS_SIZE <= |heap.mem| && Owned(Client(), ptr, CS_SIZE)
      requires Read32(heap.mem, ptr) != 0 ==> i < |nodes| && nodes[i] == Read32(heap.mem, ptr)
      modifies this`nodes, this`kernelHandles, heap`mem, heap`heapAllocSizes, heap`heapFreeList, heap`heapAllocOwner
      ensures Valid() && Within(old(Client()), Client()) && |heap.mem| == |old(heap.mem)|
      ensures ok == Closable(old(heap.mem), old(kernelHandles), ptr)
      ensures kernelHandles ==
        if ok && Read32(old(heap.mem), ptr + 0x10) != 0 then old(kernelHandles) - {Read32(old(heap.mem), ptr + 0x10)}
        else old(kernelHandles)
      ensures !ok ==>
        nodes == old(nodes) && heap.mem == old(heap.mem) && heap.View() == old(heap.View())
      ensures ok ==>
        var debug := Read32(old(heap.mem), ptr);
        && nodes == (if debug == 0 then old(nodes) else Without(old(nodes), i))
        && (debug != 0 ==> debug in old(heap.heapAllocSizes))
        && heap.View() == (if debug == 0 then old(heap.View()) else Free(old(heap.View()), debug))
        && forall x :: ptr <= x < ptr + CS_SIZE ==> heap.mem[x] == 0
      ensures BacksKept(old(heap.mem), heap.mem, nodes)
      ensures Untouched(old(heap.mem), heap.mem, old(Client()), ptr, CS_SIZE)
    {
      hide Ring, Words, ListOk, Untouched, BacksKept, Within, Owned, Safe, Read32, ClientBlocks;
      ghost var c, m0 := Client(), heap.mem;
      WithinItself(c);
      var sem := Read32At(ptr + 0x10);
      ok := CloseSemaphore(sem);
      if !ok {
        NothingUntouched(m0, c, nodes, ptr, CS_SIZE);
        return;
      }
      var debug := Read32At(ptr);
      NothingUntouched(m0, c, nodes, 0, 0);
      if debug != 0 {
        RemoveDebugBlock(debug, i, c);
      }
      ghost var m1 := heap.mem;
      OwnedWithin(c, Client(), ptr, CS_SIZE);
      StoreClient(ptr, Repeat(0, CS_SIZE));
      OnlyInUntouched(m1, heap.mem, c, ptr, CS_SIZE);
      UntouchedOn(m0, m1, heap.mem, c, ptr, CS_SIZE);
      BacksOn(m0, m1, heap.mem, nodes, nodes);
    }
  }

  /** Whether deleting the structure at ptr finds its LockSemaphore in order. */
  predicate Closable(m: Mem, handles: map<int, KernelObject>, ptr: int)
    requires 0 <= ptr && ptr + CS_SIZE <= |m|
  {
    var sem := Read32(m, ptr + 0x10);
    sem == 0 || (sem in handles && handles[sem].Event?)
  }

  /** A block of the client keeps its back pointer. */
  lemma BlockBack(m: Mem, m': Mem, c: map<int, int>, b: int)
    requires Untouched(m, m', c, 0, 0) && b in c && c[b] >= 8
    ensures Words(m')(b + 4) == Words(m)(b + 4)
  {
    if 0 <= b + 4 && b + 8 <= |m| && 0 <= b { ReadSame(m, m', b + 4); }
  }

  /** A fresh debug block leaves the list and the client as they are. */
  lemma FreshBlockOk(m: Mem, m': Mem, live: map<int, int>, head: int, nodes: seq<int>, c: map<int, int>, d: int)
    requires ListOk(m, live, head, nodes) && Placed(live) && THREAD_STACK_BASE <= |m|
    requires Fresh(live, d, CS_DEBUG_SIZE) && OnlyIn(m, m', d, CS_DEBUG_SIZE)
    requires Within(c, ClientBlocks(live, head, nodes))
    ensures ListOk(m', live[d := CS_DEBUG_SIZE], head, nodes)
    ensures Within(c, ClientBlocks(live[d := CS_DEBUG_SIZE], head, nodes)) && d !in c && !OnList(head, nodes, d)
    ensures Untouched(m, m', c, 0, 0) && BacksKept(m, m', nodes)
  {
    hide Ring, Words;
    StillClient(live, head, nodes, c, d, CS_DEBUG_SIZE, head, nodes);
    FreshUntouched(m, m', live, head, nodes, c, d, CS_DEBUG_SIZE);
    ListUntouchedOk(m, m', live, live[d := CS_DEBUG_SIZE], head, nodes);
    UntouchedBacks(m, m', live, head, nodes);
  }

  lemma NewZero(m: Mem, b: int)
    requires AllZero(m, b, CS_DEBUG_SIZE)
    ensures ZeroBlock(m, b)
  {
  }

  lemma BackZero(m: Mem, m': Mem, b: int)
    requires ZeroBlock(m, b) && OnlyIn(m, m', b + 4, 4)
    ensures ZeroBlock(m', b)
  {
  }

  lemma BlockZero(m: Mem, m': Mem, c: map<int, int>, b: int)
    requires Untouched(m, m', c, 0, 0) && b in c && c[b] == CS_DEBUG_SIZE
    ensures ZeroBlock(m, b) ==> ZeroBlock(m', b)
  {
  }

  lemma ListedZero(m: Mem, m': Mem, live: map<int, int>, head: int, nodes: seq<int>, b: int)
    requires ListUntouched(m, m', live, head, nodes) && Members(live, head, nodes) && b in nodes
    ensures ZeroBlock(m, b) ==> ZeroBlock(m', b)
  {
    var k :| 0 <= k < |nodes| && nodes[k] == b;
    assert b in live && live[b] == CS_DEBUG_SIZE && OnList(head, nodes, b);
  }

  /** The list writes of an initialisation change nothing else in the new block. */
  lemma TailStoresPlain(h: Heap, m: Mem, m': Mem, head: int, nodes: seq<int>, d: int, tail: int)
    requires Safe(h) && |m| == |m'| && Members(h.live, head, nodes) && head != 0 && tail == Link(head, nodes, |nodes|)
    requires d in h.live && h.live[d] == CS_DEBUG_SIZE && !OnList(head, nodes, d)
    requires forall x ::
      0 <= x < |m| && !(d + 8 <= x < d + 0x10) && !(tail <= x < tail + 4) && !(head + 4 <= x < head + 8) ==>
      m'[x] == m[x]
    ensures ZeroBlock(m, d) ==> ZeroBlock(m', d)
  {
    var c := map[d := CS_DEBUG_SIZE];
    LinkMissesClient(h, head, nodes, |nodes|, c);
    LinkMissesClient(h, head, nodes, 0, c);
    hide Safe, Members, OnList;
  }

  lemma WithinItself(c: map<int, int>)
    ensures Within(c, c)
  {
  }

  /** A block of the client outside c joins it, and leaves it again. */
  lemma OneMore(c: map<int, int>, client: map<int, int>, d: int, size: int)
    requires Within(c, client) && d in client && client[d] == size
    ensures Within(c[d := size], client)
  {
  }

  lemma OneLess(c: map<int, int>, more: map<int, int>, client: map<int, int>, m: Mem, m': Mem, d: int, size: int)
    requires more == c[d := size] && d !in c && Within(more, client) && Untouched(m, m', more, 0, 0)
    ensures Within(c, client) && Untouched(m, m', c, 0, 0)
  {
    assert forall b :: b in c ==> b in more && more[b] == c[b];
  }

  lemma LastBack(m: Mem, m': Mem, nodes: seq<int>, d: int)
    requires BacksKept(m, m', nodes + [d])
    ensures Words(m')(d + 4) == Words(m)(d + 4)
  {
    assert (nodes + [d])[|nodes|] == d;
  }

  lemma UntouchedWider(m: Mem, m': Mem, c: map<int, int>, addr: int, len: int)
    requires Untouched(m, m', c, 0, 0)
    ensures Untouched(m, m', c, addr, len)
  {
  }

  lemma NothingUntouched(m: Mem, c: map<int, int>, nodes: seq<int>, addr: int, len: int)
    ensures Untouched(m, m, c, addr, len) && BacksKept(m, m, nodes)
  {
  }

  lemma BlockDropped(m: Mem, m1: Mem, m2: Mem, live: map<int, int>, c: map<int, int>, d: int)
    requires OnlyIn(m, m1, d, CS_DEBUG_SIZE) && OnlyIn(m1, m2, d, CS_DEBUG_SIZE)
    requires Within(c, live) && d in live && d !in c
    requires forall b :: b in live && b != d ==> b + live[b] <= d || d + CS_DEBUG_SIZE <= b
    requires HEAP_BASE <= d && d + CS_DEBUG_SIZE <= THREAD_STACK_BASE
    ensures Untouched(m, m2, c, 0, 0)
  {
  }

  lemma UnlinkReads(w: int -> int, head: int, nodes: seq<int>, i: nat)
    requires Ring(w, head, nodes) && i < |nodes|
    ensures w(nodes[i] + 8) == Link(head, nodes, i + 2) && w(nodes[i] + 0xC) == Link(head, nodes, i)
  {
    assert Linked(w, head, nodes, i) && Linked(w, head, nodes, i + 1);
  }

  lemma ReadyToUnlink(live: map<int, int>, head: int, nodes: seq<int>, i: nat)
    requires Placed(live) && Members(live, head, nodes) && i < |nodes|
    ensures var flink, blink := Link(head, nodes, i + 2), Link(head, nodes, i);
      && HEAP_BASE <= flink && flink + 8 <= THREAD_STACK_BASE && flink % 4 == 0
      && HEAP_BASE <= blink && blink + 8 <= THREAD_STACK_BASE && blink % 4 == 0
    ensures HEAP_BASE <= nodes[i] && nodes[i] + CS_DEBUG_SIZE <= THREAD_STACK_BASE
  {
    LinkInArena(live, head, nodes, i);
    LinkInArena(live, head, nodes, i + 2);
  }

  lemma UnlinkedOk(h: Heap, m: Mem, m': Mem, head: int, nodes: seq<int>, i: nat, c: map<int, int>)
    requires Safe(h) && |m| == |m'| && ListOk(m, h.live, head, nodes) && i < |nodes|
    requires Within(c, ClientBlocks(h.live, head, nodes))
    requires forall x :: x % 4 == 0 ==>
      LinkRemoved(Words(m), Words(m'), Link(head, nodes, i + 2), Link(head, nodes, i), x)
    requires var flink, blink := Link(head, nodes, i + 2), Link(head, nodes, i);
      forall x :: 0 <= x < |m| && !(blink <= x < blink + 4) && !(flink + 4 <= x < flink + 8) ==> m'[x] == m[x]
    ensures ListOk(m', h.live, head, Without(nodes, i)) && !OnList(head, Without(nodes, i), nodes[i])
    ensures Untouched(m, m', c, 0, 0) && BacksKept(m, m', Without(nodes, i))
    ensures Within(c, ClientBlocks(h.live, head, Without(nodes, i))) && nodes[i] !in c
  {
    hide Words;
    UnlinkKeepsRing(Words(m), Words(m'), head, nodes, i);
    WithoutMembers(h.live, head, nodes, i);
    forall k | 0 <= k < |nodes| - 1
      ensures Words(m')(Without(nodes, i)[k] + 4) == Words(m)(Without(nodes, i)[k] + 4)
    {
      UnlinkKeepsBacks(Words(m), Words(m'), head, nodes, i, if k < i then k else k + 1);
    }
    hide Ring, Safe, Distinct;
    UnlinkLocal(h, m, m', head, nodes, i, c);
  }

  /** The two stores stay outside the client's blocks. */
  lemma UnlinkLocal(h: Heap, m: Mem, m': Mem, head: int, nodes: seq<int>, i: nat, c: map<int, int>)
    requires Safe(h) && |m| == |m'| && Members(h.live, head, nodes) && i < |nodes|
    requires Within(c, ClientBlocks(h.live, head, nodes))
    requires var flink, blink := Link(head, nodes, i + 2), Link(head, nodes, i);
      forall x :: 0 <= x < |m| && !(blink <= x < blink + 4) && !(flink + 4 <= x < flink + 8) ==> m'[x] == m[x]
    ensures Untouched(m, m', c, 0, 0)
  {
    LinkMissesClient(h, head, nodes, i, c);
    LinkMissesClient(h, head, nodes, i + 2, c);
    hide Link, Safe, Members;
  }

  /** The entries of the list lie apart from the client's blocks. */
  lemma LinkMissesClient(h: Heap, head: int, nodes: seq<int>, k: int, c: map<int, int>)
    requires Safe(h) && Members(h.live, head, nodes) && head != 0 && Within(c, ClientBlocks(h.live, head, nodes))
    ensures var a := Link(head, nodes, k);
      && HEAP_BASE <= a && a + 8 <= THREAD_STACK_BASE
      && forall b :: b in c ==> b + c[b] <= a || a + 8 <= b
  {
    SafeIsPlaced(h);
    var t := if 1 <= k <= |nodes| then nodes[k - 1] else head;
    LinkInArena(h.live, head, nodes, k);
    assert t in h.live && OnList(head, nodes, t);
    OthersOutside(h, t);
  }

  lemma WithoutMembers(live: map<int, int>, head: int, nodes: seq<int>, i: nat)
    requires Members(live, head, nodes) && i < |nodes|
    ensures Members(live, head, Without(nodes, i)) && !OnList(head, Without(nodes, i), nodes[i])
    ensures forall b :: b in Without(nodes, i) ==> b in nodes
  {
  }

  lemma TailIsRead(w: int -> int, head: int, nodes: seq<int>)
    requires Ring(w, head, nodes)
    ensures w(head + 4) == Link(head, nodes, |nodes|)
  {
    assert Linked(w, head, nodes, |nodes|);
  }

  lemma AppendMembers(live: map<int, int>, head: int, nodes: seq<int>, d: int)
    requires Members(live, head, nodes) && Placed(live) && head != 0
    requires d in live && live[d] == CS_DEBUG_SIZE && !OnList(head, nodes, d)
    ensures Members(live, head, nodes + [d]) && Distinct(head, nodes + [d])
  {
    var nodes' := nodes + [d];
    assert forall k :: 0 <= k < |nodes'| ==> nodes'[k] == if k < |nodes| then nodes[k] else d;
  }

  lemma ReadyToInsert(live: map<int, int>, head: int, nodes: seq<int>, d: int)
    requires Placed(live) && Members(live, head, nodes) && head != 0
    requires d in live && live[d] == CS_DEBUG_SIZE
    ensures HEAP_BASE <= head && head + 8 <= THREAD_STACK_BASE && head % 4 == 0
    ensures HEAP_BASE <= d && d + CS_DEBUG_SIZE <= THREAD_STACK_BASE && d % 4 == 0
    ensures var tail := Link(head, nodes, |nodes|);
      HEAP_BASE <= tail && tail + 8 <= THREAD_STACK_BASE && tail % 4 == 0
  {
    LinkInArena(live, head, nodes, |nodes|);
    AlignedWords(head);
    AlignedWords(d);
  }

  lemma InsertedOk(h: Heap, m: Mem, m': Mem, head: int, nodes: seq<int>, d: int, c: map<int, int>)
    requires Safe(h) && |m| == |m'| && |m| >= THREAD_STACK_BASE && ListOk(m, h.live, head, nodes) && head != 0
    requires d in h.live && h.live[d] == CS_DEBUG_SIZE && !OnList(head, nodes, d)
    requires Within(c, ClientBlocks(h.live, head, nodes)) && d !in c
    requires forall x :: x % 4 == 0 ==> TailInserted(Words(m), Words(m'), head, Link(head, nodes, |nodes|), d, x)
    requires var tail := Link(head, nodes, |nodes|);
      forall x :: 0 <= x < |m| && !(d + 8 <= x < d + 0x10) && !(tail <= x < tail + 4) && !(head + 4 <= x < head + 8) ==>
        m'[x] == m[x]
    ensures ListOk(m', h.live, head, nodes + [d]) && Within(c, ClientBlocks(h.live, head, nodes + [d]))
    ensures Untouched(m, m', c, 0, 0) && BacksKept(m, m', nodes + [d])
  {
    hide Words;
    SafeIsPlaced(h);
    AppendMembers(h.live, head, nodes, d);
    InsertKeepsRing(Words(m), Words(m'), head, nodes, d);
    forall k | 0 <= k < |nodes + [d]| ensures Words(m')((nodes + [d])[k] + 4) == Words(m)((nodes + [d])[k] + 4) {
      InsertKeepsBacks(Words(m), Words(m'), head, nodes, d, k);
    }
    TailStoresLocal(h, m, m', head, nodes, d, Link(head, nodes, |nodes|), c);
  }

  /** Stores at d + 8, d + 0xC, the tail's Flink and the head's Blink stay outside
      the client's blocks. */
  lemma TailStoresLocal(h: Heap, m: Mem, m': Mem, head: int, nodes: seq<int>, d: int, tail: int, c: map<int, int>)
    requires Safe(h) && |m| == |m'| && Members(h.live, head, nodes) && head != 0 && tail == Link(head, nodes, |nodes|)
    requires d in h.live && h.live[d] == CS_DEBUG_SIZE && Within(c, ClientBlocks(h.live, head, nodes)) && d !in c
    requires forall x ::
      0 <= x < |m| && !(d + 8 <= x < d + 0x10) && !(tail <= x < tail + 4) && !(head + 4 <= x < head + 8) ==>
      m'[x] == m[x]
    ensures Untouched(m, m', c, 0, 0)
  {
    SafeIsPlaced(h);
    LinkMissesClient(h, head, nodes, |nodes|, c);
    LinkMissesClient(h, head, nodes, 0, c);
    OthersOutside(h, d);
  }
}
