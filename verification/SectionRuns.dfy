/** The critical sections of a process: initialising, deleting, and everything else
    the program does to its memory in between. */
module SectionRuns {
  import opened GuestMemory
  import opened LittleEndian
  import opened GuestHeap
  import opened HeapModel
  import opened Lists
  import opened SectionList
  import opened SectionRecords
  import opened CriticalSections
  import opened CsProtocol

  /** What a program may do. Stores stand for anything it writes, the entering and
      leaving of sections included; HandleOp for a kernel object made elsewhere. */
  datatype Op = InitOp(ptr: int) | DeleteOp(ptr: int) | AllocOp(size: int, fill: Byte) | FreeOp(addr: int)
              | StoreOp(addr: int, data: Bytes) | HandleOp(handle: int, kind: KernelObject)

  /** DebugInfo is null, as in zeroed memory, or a block on the list. */
  predicate Deletable(m: Mem, nodes: seq<int>, ptr: int)
    requires 0 <= ptr && ptr + CS_SIZE <= |m|
  {
    Read32(m, ptr) == 0 || Read32(m, ptr) in nodes
  }

  /** The state between two operations. */
  datatype Moment = Moment(mem: Mem, heap: Heap, head: int, handles: map<int, KernelObject>, records: seq<Record>)

  /** The heap blocks that are the program's own. */
  function Blocks(m: Moment): map<int, int> {
    ClientBlocks(m.heap.live, m.head, Debugs(m.records))
  }

  /** The program keeps to its own memory. */
  predicate Permitted(op: Op, m: Moment) {
    match op
    case InitOp(ptr) => InMemory(m.mem, Blocks(m), ptr)
    case DeleteOp(ptr) => InMemory(m.mem, Blocks(m), ptr) && Deletable(m.mem, Debugs(m.records), ptr)
    case AllocOp(size, _) => size >= 1 && m.heap.next + size + 15 < 0x1_0000_0000
    case FreeOp(addr) => addr in Blocks(m)
    case StoreOp(addr, data) => 0 <= addr && addr + |data| <= |m.mem| && Owned(Blocks(m), addr, |data|)
    case HandleOp(_, _) => true
  }

  // ---- What each operation does ----

  /** The address the next allocation of that size gets. */
  function NextBlock(h: Heap, size: int): int {
    match Alloc(h, size) case Exhausted => 0 case Allocated(_, addr) => addr
  }

  /** Initialising: it fails exactly if one of its allocations does, so not while
      there is room; the debug block is new. */
  ghost predicate Initialises(m: Moment, ptr: int, e: Event, m': Moment)
    requires InMemory(m.mem, Blocks(m), ptr)
  {
    var d := NextBlock(m.heap, CS_DEBUG_SIZE);
    && (e == Nothing || e == Initialised(ptr, d))
    && InitTaken(m.heap, m.head, m'.heap, m'.head, d, e != Nothing)
    && (HasRoom(m.heap.next, 0x30) ==> e != Nothing) && (e != Nothing ==> d !in m.heap.live)
    && m'.handles == m.handles
    && m'.records == (if e == Nothing then m.records else Lose(m.records, ptr, CS_SIZE) + [Record(ptr, d, true)])
    && Untouched(m.mem, m'.mem, Blocks(m), ptr, if e == Nothing then 0 else CS_SIZE)
    && (e != Nothing ==> Fields(m'.mem, ptr, d, 0xFFFF_FFFF))
  }

  /** Deleting: it fails exactly if LockSemaphore is not an event, and takes out
      exactly the block that DebugInfo names, if any. */
  ghost predicate Deletes(m: Moment, ptr: int, e: Event, m': Moment)
    requires InMemory(m.mem, Blocks(m), ptr)
  {
    var d, sem := Read32(m.mem, ptr), Read32(m.mem, ptr + 0x10);
    if !Closable(m.mem, m.handles, ptr) then e == Nothing && m' == m
    else
      && e == (if d == 0 then Nothing else Deleted(d))
      && (if d == 0 then m'.heap == m.heap else d in m.heap.live && m'.heap == Free(m.heap, d))
      && m'.head == m.head
      && m'.handles == (if sem == 0 then m.handles else m.handles - {sem})
      && m'.records == Lose(Kept(m.records, d), ptr, CS_SIZE)
      && Untouched(m.mem, m'.mem, Blocks(m), ptr, CS_SIZE)
      && forall x :: ptr <= x < ptr + CS_SIZE ==> m'.mem[x] == 0
  }

  /** Bytes from addr on filled, the others as they were. */
  predicate Filled(m: Mem, m': Mem, addr: int, size: int, fill: Byte) {
    |m'| == |m| && forall x :: 0 <= x < |m| ==> m'[x] == if addr <= x < addr + size then fill else m[x]
  }

  predicate Allocates(m: Moment, size: int, fill: Byte, m': Moment) {
    match Alloc(m.heap, size)
    case Exhausted => m' == m
    case Allocated(heap, addr) => m' == m.(mem := m'.mem, heap := heap) && Filled(m.mem, m'.mem, addr, size, fill)
  }

  predicate Frees(m: Moment, addr: int, m': Moment)
    requires addr in Blocks(m)
  {
    var size := m.heap.live[addr];
    && m' == m.(mem := m'.mem, heap := Free(m.heap, addr), records := Lose(m.records, addr, size))
    && Filled(m.mem, m'.mem, addr, size, DEAD_FILL)
  }

  /** One operation; what is not permitted is not done. */
  ghost predicate Steps(m: Moment, op: Op, e: Event, m': Moment) {
    if !Permitted(op, m) then e == Nothing && m' == m
    else
      match op
      case InitOp(ptr) => Initialises(m, ptr, e, m')
      case DeleteOp(ptr) => Deletes(m, ptr, e, m')
      case AllocOp(size, fill) => e == Nothing && Allocates(m, size, fill, m')
      case FreeOp(addr) => e == Nothing && Frees(m, addr, m')
      case StoreOp(addr, data) =>
        e == Nothing && m' == m.(mem := Stored(m.mem, addr, data), records := Lose(m.records, addr, |data|))
      case HandleOp(handle, kind) => e == Nothing && m' == m.(handles := m.handles[handle := kind])
  }

  /** Deleting a live section takes out its own block. */
  predicate TakesOwn(m: Moment, op: Op, e: Event) {
    op.DeleteOp? ==> forall k :: 0 <= k < |m.records| && m.records[k].live && m.records[k].ptr == op.ptr ==>
      && InMemory(m.mem, Blocks(m), op.ptr)
      && (Closable(m.mem, m.handles, op.ptr) ==> e == Deleted(m.records[k].debug))
  }

  /** Every live section can be deleted, its DebugInfo being its own block. */
  predicate LiveCanGo(m: Moment, op: Op) {
    op.DeleteOp? ==> forall k :: 0 <= k < |m.records| && m.records[k].live && m.records[k].ptr == op.ptr ==>
      && InMemory(m.mem, Blocks(m), op.ptr) && Deletable(m.mem, Debugs(m.records), op.ptr)
      && Read32(m.mem, op.ptr) == m.records[k].debug != 0
  }

  lemma OwnIsTaken(m: Moment, op: Op, e: Event, m': Moment)
    requires LiveCanGo(m, op) && Steps(m, op, e, m')
    ensures TakesOwn(m, op, e)
  {
    hide Closable, Untouched, Fields, InitTaken;
  }

  class Process {
    const table: SectionTable
    var records: seq<Record>

    /** The list holds exactly the debug blocks of the recorded sections, in order;
        each points back to its structure, which if live points to it. */
    ghost predicate Valid()
      reads this, table, table.heap
    {
      && table.Valid() && table.nodes == Debugs(records)
      && RecordsOk(table.heap.mem, table.Client(), records)
    }

    ghost function Now(): Moment
      reads this, table, table.heap
    {
      Moment(table.heap.mem, table.heap.View(), table.csListHead, table.kernelHandles, records)
    }

    constructor (heap: Guest)
      requires heap.Valid() && |heap.mem| <= 0x1_0000_0000
      ensures Valid() && table.heap == heap && records == [] && table.csListHead == 0
    {
      table := new SectionTable(heap);
      records := [];
    }

    /** InitializeCriticalSection. */
    method InitSection(ptr: int) returns (e: Event)
      requires Valid() && InMemory(table.heap.mem, table.Client(), ptr)
      modifies this`records, table, table.heap
      ensures Valid() && Initialises(old(Now()), ptr, e, Now()) && table.nodes == After(old(table.nodes), e)
    {
      hide Initialises, InitTaken, Fields, Untouched;
      ghost var m := Now();
      var debug, ok := table.WriteInitialized(ptr);
      if ok {
        records := Lose(records, ptr, CS_SIZE) + [Record(ptr, debug, true)];
        InitDone(m, Now(), ptr, debug, table.Client());
        e := Initialised(ptr, debug);
      } else {
        InitFailed(m, Now(), ptr, debug, table.Client());
        e := Nothing;
      }
    }

    /** A structure that can be deleted holds the place of its block on the list. */
    lemma ReadyToDelete(ptr: int)
      requires Valid() && InMemory(table.heap.mem, table.Client(), ptr)
      requires Deletable(table.heap.mem, table.nodes, ptr)
      ensures var d, i := Read32(table.heap.mem, ptr), PlaceOf(table.nodes, Read32(table.heap.mem, ptr));
        && (d == 0 <==> i == |table.nodes|)
        && (i < |table.nodes| ==> Forget(table.nodes, d) == Without(table.nodes, i))
    {
      SafeIsPlaced(table.heap.View());
      ListedIsDistinct(table.heap.heapAllocSizes, table.csListHead, table.nodes);
      var d := Read32(table.heap.mem, ptr);
      PlaceOfListed(table.nodes, d);
      if PlaceOf(table.nodes, d) < |table.nodes| { ForgetOne(table.nodes, PlaceOf(table.nodes, d)); }
    }

    /** A live section can be deleted. */
    lemma LiveIsDeletable(k: nat)
      requires Valid() && k < |records| && records[k].live
      ensures InMemory(table.heap.mem, table.Client(), records[k].ptr)
      ensures Read32(table.heap.mem, records[k].ptr) == table.nodes[k]
      ensures Deletable(table.heap.mem, table.nodes, records[k].ptr)
    {
      assert Known(table.heap.mem, table.Client(), records[k]);
    }

    lemma LiveIsOwn(op: Op)
      requires Valid()
      ensures LiveCanGo(Now(), op)
    {
    }

    /** DeleteCriticalSection. It fails if LockSemaphore is not an event; otherwise
        the block that DebugInfo names, if any, is taken out of the list, and the
        structure zeroed. */
    method DeleteSection(ptr: int) returns (e: Event)
      requires Valid() && InMemory(table.heap.mem, table.Client(), ptr)
      requires Deletable(table.heap.mem, table.nodes, ptr)
      modifies this`records, table, table.heap
      ensures Valid() && Deletes(old(Now()), ptr, e, Now()) && table.nodes == After(old(table.nodes), e)
    {
      ghost var m, c := table.heap.mem, table.Client();
      var d := Read32(table.heap.mem, ptr);
      ReadyToDelete(ptr);
      var ok := table.DeleteStructure(ptr, PlaceOf(table.nodes, d));
      e := Nothing;
      if ok {
        RecordDeleted(m, table.heap.mem, c, table.Client(), records, d, ptr);
        records := Lose(Kept(records, d), ptr, CS_SIZE);
        if d != 0 { e := Deleted(d); }
      }
    }

    /** Any store into the program's own memory. */
    method Store(addr: int, data: Bytes)
      requires Valid() && 0 <= addr && addr + |data| <= |table.heap.mem| && Owned(table.Client(), addr, |data|)
      modifies this`records, table.heap
      ensures Valid()
      ensures Now() ==
        old(Now()).(mem := Stored(old(table.heap.mem), addr, data), records := Lose(old(records), addr, |data|))
    {
      ghost var m, c := table.heap.mem, table.Client();
      table.StoreClient(addr, data);
      OnlyInUntouched(m, table.heap.mem, c, addr, |data|);
      WithinItself(c);
      RecordsStay(m, table.heap.mem, c, c, addr, |data|, records);
      records := Lose(records, addr, |data|);
    }

    method Alloc(size: int, fill: Byte) returns (addr: int, ok: bool)
      requires Valid() && size >= 1 && table.heap.nextHeapAlloc + size + 15 < 0x1_0000_0000
      modifies table.heap
      ensures Valid() && Allocates(old(Now()), size, fill, Now())
      ensures ok ==> addr !in old(table.heap.heapAllocSizes) && addr in table.heap.heapAllocSizes
    {
      ghost var m, c, live := table.heap.mem, table.Client(), table.heap.heapAllocSizes;
      WithinItself(c);
      addr, ok := table.AllocClient(size, fill);
      if ok {
        StillClient(live, table.csListHead, table.nodes, c, addr, size, table.csListHead, table.nodes);
        FreshUntouched(m, table.heap.mem, live, table.csListHead, table.nodes, c, addr, size);
      }
      RecordsStay(m, table.heap.mem, c, table.Client(), 0, 0, records);
      NothingLost(m, c, records, 0);
    }

    /** Freeing a block of the program's. */
    method Free(addr: int)
      requires Valid() && addr in table.Client()
      modifies this`records, table.heap
      ensures Valid() && Frees(old(Now()), addr, Now())
    {
      ghost var m, c := table.heap.mem, table.Client();
      var after := Lose(records, addr, table.heap.heapAllocSizes[addr]);
      BlockReleased(m, c, records, addr);
      ApartFromFreed(table.heap.View(), table.csListHead, table.nodes, addr);
      var _ := table.FreeClient(addr);
      RecordsStay(m, table.heap.mem, c - {addr}, table.Client(), 0, 0, after);
      NothingLost(m, c - {addr}, after, 0);
      records := after;
    }

    /** One operation, with what the list makes of it. */
    method Perform(op: Op) returns (e: Event)
      requires Valid()
      modifies this`records, table, table.heap
      ensures Valid() && Steps(old(Now()), op, e, Now()) && TakesOwn(old(Now()), op, e)
      ensures table.nodes == After(old(table.nodes), e)
    {
      LiveIsOwn(op);
      e := Act(op);
      OwnIsTaken(old(Now()), op, e, Now());
    }

    /** The call of the handler; what is not permitted is not done. */
    method Act(op: Op) returns (e: Event)
      requires Valid()
      modifies this`records, table, table.heap
      ensures Valid() && Steps(old(Now()), op, e, Now()) && table.nodes == After(old(table.nodes), e)
    {
      e := Nothing;
      var m := Moment(table.heap.mem, table.heap.View(), table.csListHead, table.kernelHandles, records);
      if !Permitted(op, m) {
        return;
      }
      match op {
        case InitOp(ptr) =>
          e := InitSection(ptr);
        case DeleteOp(ptr) =>
          e := DeleteSection(ptr);
        case AllocOp(size, fill) =>
          var _, _ := Alloc(size, fill);
        case FreeOp(addr) =>
          Free(addr);
        case StoreOp(addr, data) =>
          Store(addr, data);
        case HandleOp(handle, kind) =>
          table.kernelHandles := table.kernelHandles[handle := kind];
      }
    }

    /** After any run the list holds exactly the debug blocks of the sections
        initialised and not deleted, in the order of their initialisation. The moments
        between the operations, from the first to the last, say what each did. */
    method Run(ops: seq<Op>) returns (events: seq<Event>, ghost moments: seq<Moment>)
      requires Valid() && records == []
      modifies this`records, table, table.heap
      ensures Valid() && table.nodes == Undeleted(events)
      ensures |events| == |ops| && Trace(ops, events, moments)
      ensures moments[0] == old(Now()) && moments[|ops|] == Now()
    {
      events, moments := [], [Now()];
      NoEvents(ops, Now());
      for k := 0 to |ops|
        invariant Valid() && |events| == k && Trace(ops, events, moments)
        invariant moments[0] == old(Now()) && moments[k] == Now()
      {
        var e := Perform(ops[k]);
        TraceMore(ops, events, moments, e, Now());
        events, moments := events + [e], moments + [Now()];
      }
      TraceLists(ops, events, moments);
    }
  }

  /** The moments before and after each operation performed so far, and what it did;
      at each of them the list is that of the undeleted sections. */
  ghost predicate Trace(ops: seq<Op>, events: seq<Event>, moments: seq<Moment>) {
    && |events| <= |ops| && |moments| == |events| + 1
    && (forall k :: 0 <= k < |events| ==>
          Steps(moments[k], ops[k], events[k], moments[k + 1]) && TakesOwn(moments[k], ops[k], events[k]))
    && (forall k :: 0 <= k <= |events| ==> Debugs(moments[k].records) == Undeleted(events[..k]))
  }

  lemma NoEvents(ops: seq<Op>, m: Moment)
    requires m.records == []
    ensures Trace(ops, [], [m])
  {
  }

  lemma TraceMore(ops: seq<Op>, events: seq<Event>, moments: seq<Moment>, e: Event, m: Moment)
    requires Trace(ops, events, moments) && |events| < |ops|
    requires Steps(moments[|events|], ops[|events|], e, m) && TakesOwn(moments[|events|], ops[|events|], e)
    requires Debugs(m.records) == After(Debugs(moments[|events|].records), e)
    ensures Trace(ops, events + [e], moments + [m])
  {
    OneMoreEvent(events, e);
    TraceLists(ops, events, moments);
    hide Steps, TakesOwn, Debugs, Undeleted, After;
    var more, ms := events + [e], moments + [m];
    forall k | 0 <= k < |more| ensures Steps(ms[k], ops[k], more[k], ms[k + 1]) && TakesOwn(ms[k], ops[k], more[k]) {
      if k < |events| { assert ms[k] == moments[k] && ms[k + 1] == moments[k + 1] && more[k] == events[k]; }
    }
    forall k | 0 <= k <= |more| ensures Debugs(ms[k].records) == Undeleted(more[..k]) {
      Prefix(events, e, k);
    }
  }

  lemma Prefix(events: seq<Event>, e: Event, k: nat)
    requires k <= |events| + 1
    ensures (events + [e])[..k] == if k <= |events| then events[..k] else events + [e]
  {
  }

  lemma TraceLists(ops: seq<Op>, events: seq<Event>, moments: seq<Moment>)
    requires Trace(ops, events, moments)
    ensures Debugs(moments[|events|].records) == Undeleted(events)
  {
    hide Steps, TakesOwn, Debugs, Undeleted;
    assert events[..|events|] == events;
  }

  /** The records without the one of debug block d, if there is one. */
  function Kept(rs: seq<Record>, d: int): seq<Record> {
    var i := PlaceOf(Debugs(rs), d);
    if i < |rs| then Without(rs, i) else rs
  }

  lemma RecordDeleted(m: Mem, m': Mem, c: map<int, int>, c': map<int, int>, rs: seq<Record>, d: int, ptr: int)
    requires RecordsOk(m, c, rs) && Untouched(m, m', c, ptr, CS_SIZE) && Within(c, c')
    requires BacksKept(m, m', Listed(Debugs(rs), PlaceOf(Debugs(rs), d)))
    ensures RecordsOk(m', c', Lose(Kept(rs, d), ptr, CS_SIZE))
    ensures Debugs(Kept(rs, d)) == Listed(Debugs(rs), PlaceOf(Debugs(rs), d))
  {
    var i := PlaceOf(Debugs(rs), d);
    if i < |rs| { RecordRemoved(m, c, rs, i); }
    RecordsStay(m, m', c, c', ptr, CS_SIZE, Kept(rs, d));
  }

  /** The blocks without the one at place i, if there is one. */
  function Listed(nodes: seq<int>, i: nat): seq<int> {
    if i < |nodes| then Without(nodes, i) else nodes
  }

  /** Nothing is lost where nothing is written. */
  lemma NothingLost(m: Mem, c: map<int, int>, rs: seq<Record>, addr: int)
    requires RecordsOk(m, c, rs)
    ensures Lose(rs, addr, 0) == rs
  {
  }

  lemma InitTakenAt(h: Heap, head: int, h': Heap, head': int, debug: int, ok: bool)
    requires InitTaken(h, head, h', head', debug, ok)
    ensures InitTaken(h, head, h', head', NextBlock(h, CS_DEBUG_SIZE), ok)
    ensures ok ==> debug == NextBlock(h, CS_DEBUG_SIZE)
  {
    hide HeadTaken, Alloc;
  }

  /** An initialisation, from what the handler leaves of memory, heap and list. */
  lemma InitDone(m: Moment, m': Moment, ptr: int, d: int, c: map<int, int>)
    requires InMemory(m.mem, Blocks(m), ptr) && RecordsOk(m.mem, Blocks(m), m.records)
    requires Untouched(m.mem, m'.mem, Blocks(m), ptr, CS_SIZE) && Within(Blocks(m), c)
    requires BacksKept(m.mem, m'.mem, Debugs(m.records))
    requires InitTaken(m.heap, m.head, m'.heap, m'.head, d, true) && m'.handles == m.handles && d !in m.heap.live
    requires Fields(m'.mem, ptr, d, 0xFFFF_FFFF) && Words(m'.mem)(d + 4) == ptr
    requires m'.records == Lose(m.records, ptr, CS_SIZE) + [Record(ptr, d, true)]
    ensures Initialises(m, ptr, Initialised(ptr, d), m')
    ensures RecordsOk(m'.mem, c, m'.records) && Debugs(m'.records) == Debugs(m.records) + [d]
  {
    InitTakenAt(m.heap, m.head, m'.heap, m'.head, d, true);
    hide InitTaken, NextBlock, Untouched, BacksKept, Within, Fields, RecordsOk, Lose, Owned, Blocks;
    RecordsStay(m.mem, m'.mem, Blocks(m), c, ptr, CS_SIZE, m.records);
    NewRecord(m'.mem, Blocks(m), c, ptr, d);
    RecordAdded(m'.mem, c, Lose(m.records, ptr, CS_SIZE), Record(ptr, d, true));
  }

  lemma InitFailed(m: Moment, m': Moment, ptr: int, d: int, c: map<int, int>)
    requires InMemory(m.mem, Blocks(m), ptr) && RecordsOk(m.mem, Blocks(m), m.records)
    requires Untouched(m.mem, m'.mem, Blocks(m), ptr, 0) && Within(Blocks(m), c)
    requires BacksKept(m.mem, m'.mem, Debugs(m.records))
    requires InitTaken(m.heap, m.head, m'.heap, m'.head, d, false) && m'.handles == m.handles
    requires m'.records == m.records && !HasRoom(m.heap.next, 0x30)
    ensures Initialises(m, ptr, Nothing, m') && RecordsOk(m'.mem, c, m'.records)
  {
    InitTakenAt(m.heap, m.head, m'.heap, m'.head, d, false);
    hide InitTaken, NextBlock, Untouched, BacksKept, Within, Fields, RecordsOk, Lose, Owned, Blocks;
    RecordsStay(m.mem, m'.mem, Blocks(m), c, ptr, 0, m.records);
    NothingLost(m.mem, Blocks(m), m.records, ptr);
  }

  lemma NewRecord(m: Mem, c: map<int, int>, c': map<int, int>, ptr: int, debug: int)
    requires InMemory(m, c, ptr) && Within(c, c')
    requires Fields(m, ptr, debug, 0xFFFF_FFFF) && Words(m)(debug + 4) == ptr
    ensures Known(m, c', Record(ptr, debug, true))
  {
    OwnedWithin(c, c', ptr, CS_SIZE);
  }

  /** The blocks on the list are distinct, and none is null. */
  lemma ListedIsDistinct(live: map<int, int>, head: int, nodes: seq<int>)
    requires Members(live, head, nodes) && Placed(live)
    ensures 0 !in nodes && forall j, k :: 0 <= j < k < |nodes| ==> nodes[j] != nodes[k]
  {
  }

  /** Filling a freed block touches no other block of the client. */
  lemma ApartFromFreed(h: Heap, head: int, nodes: seq<int>, addr: int)
    requires Safe(h) && addr in ClientBlocks(h.live, head, nodes)
    ensures HEAP_BASE <= addr && addr + h.live[addr] <= THREAD_STACK_BASE
    ensures forall b :: b in h.live && b != addr ==> b + h.live[b] <= addr || addr + h.live[addr] <= b
    ensures ClientBlocks(h.live, head, nodes) - {addr} == ClientBlocks(h.live - {addr}, head, nodes)
  {
    SafeIsPlaced(h);
    OthersOutside(h, addr);
  }
}
