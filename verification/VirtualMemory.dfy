/** VirtualAlloc and VirtualFree: the next-fit search over the reservations, and
    the reservation table through any run of calls. */
module VirtualMemory {
  import opened Options

  const PAGE_SIZE := 4096
  const MEM_COMMIT := 0x1000
  const MEM_RESERVE := 0x2000
  const MEM_DECOMMIT := 0x4000
  const MEM_RELEASE := 0x8000
  const USER_VA_START := 0x0001_0000
  const USER_VA_END := 0x7FFF_0000
  const ERROR_NOT_ENOUGH_MEMORY := 8
  const ERROR_INVALID_ADDRESS := 487

  datatype Range = Range(base: int, size: int)

  /** How a handler ends; a failure returns 0 and sets the thread's last error. */
  datatype Outcome = Returned(eax: int) | Failed(error: int) | Halted

  /** (n + 4095) & ~4095 */
  function RoundUp(n: int): int {
    (n + PAGE_SIZE - 1) / PAGE_SIZE * PAGE_SIZE
  }

  /** Only MEM_COMMIT and MEM_RESERVE are known allocation types. */
  predicate KnownType(flType: nat) {
    flType == 0 || flType == MEM_COMMIT || flType == MEM_RESERVE || flType == MEM_COMMIT + MEM_RESERVE
  }

  predicate Commits(flType: nat)
    requires KnownType(flType)
  {
    flType == MEM_COMMIT || flType == MEM_COMMIT + MEM_RESERVE
  }

  predicate Reserves(flType: nat)
    requires KnownType(flType)
  {
    flType == MEM_RESERVE || flType == MEM_COMMIT + MEM_RESERVE
  }

  /** No bit outside PAGE_NOACCESS | PAGE_READWRITE | PAGE_EXECUTE_READWRITE. */
  predicate KnownProtect(flProtect: nat) {
    flProtect % 2 + flProtect / 4 % 2 * 4 + flProtect / 0x40 % 2 * 0x40 == flProtect
  }

  /** The rounded request, truncated to 32 bits. */
  function PageSize(bytes: int): int {
    RoundUp(bytes) % 0x1_0000_0000
  }

  /** The overlap test of _overlaps_reserved. An empty range overlaps another one
      only from strictly inside it. */
  predicate Overlap(addr: int, size: int, base: int, sz: int) {
    addr < base + sz && base < addr + size
  }

  predicate OverlapsReserved(reserved: map<int, int>, addr: int, size: int) {
    exists b :: b in reserved && Overlap(addr, size, b, reserved[b])
  }

  predicate InReserved(reserved: map<int, int>, addr: int) {
    exists b :: b in reserved && b <= addr < b + reserved[b]
  }

  /** An address the search may return. */
  predicate Admissible(reserved: map<int, int>, floor: int, end: int, size: int, c: int) {
    c % PAGE_SIZE == 0 && floor <= c && c + size <= end && !OverlapsReserved(reserved, c, size)
  }

  /** The order in which the search tries addresses: from the cursor up, then from
      the floor. */
  predicate Before(cursor: int, a: int, b: int) {
    if a >= cursor then b < cursor || a < b else b < cursor && a < b
  }

  /** Where the search ends: the first admissible address from the cursor on. */
  ghost predicate Lands(reserved: map<int, int>, floor: int, cursor: int, end: int, size: int, c: int) {
    && Admissible(reserved, floor, end, size, c)
    && forall b :: Admissible(reserved, floor, end, size, b) ==> b == c || Before(cursor, c, b)
  }

  /** A request cannot be placed: no admissible address exists, or the requested
      one is outside user space or (for a reservation) already reserved. */
  ghost predicate Refused(reserved: map<int, int>, floor: int, end: int, addr: int, size: int, reserve: bool) {
    if addr == 0 then forall c :: !Admissible(reserved, floor, end, size, c)
    else addr < USER_VA_START || addr + size > end || (reserve && OverlapsReserved(reserved, addr, size))
  }

  /** The cursor after a range up to `end` is given out: at its end if the search
      found it, else only ever further on. */
  function CursorAfter(cursor: int, addr: int, end: int): int {
    if addr == 0 then end else if RoundUp(end) > cursor then RoundUp(end) else cursor
  }

  predicate Disjoint(reserved: map<int, int>) {
    forall a, b :: a in reserved && b in reserved && a != b ==> !Overlap(a, reserved[a], b, reserved[b])
  }

  // ---- The scan ----

  /** `ranges` lists the reservations in ascending order of address. */
  ghost predicate Sorted(reserved: map<int, int>, ranges: seq<Range>) {
    && (forall k :: 0 <= k < |ranges| ==> ranges[k].base in reserved && reserved[ranges[k].base] == ranges[k].size)
    && (forall j, k :: 0 <= j < k < |ranges| ==> ranges[j].base < ranges[k].base)
    && (forall b :: b in reserved ==> exists k :: 0 <= k < |ranges| && ranges[k].base == b)
  }

  /** Every aligned candidate in [start, cand) is blocked. */
  ghost predicate Blocked(reserved: map<int, int>, size: int, start: int, cand: int) {
    forall c :: start <= c < cand && c % PAGE_SIZE == 0 ==> OverlapsReserved(reserved, c, size)
  }

  lemma RoundUpFacts(n: int)
    ensures RoundUp(n) % PAGE_SIZE == 0 && n <= RoundUp(n) < n + PAGE_SIZE
  {
  }

  lemma AlignedBelow(c: int, n: int)
    requires c % PAGE_SIZE == 0 && c < RoundUp(n)
    ensures c < n
  {
  }

  /** Skipping past a range that the candidate meets loses no candidate. */
  lemma SkipBlocked(reserved: map<int, int>, size: int, start: int, cand: int, r: Range)
    requires Blocked(reserved, size, start, cand)
    requires r.base in reserved && reserved[r.base] == r.size && r.base < cand + size
    ensures Blocked(reserved, size, start, RoundUp(r.base + r.size))
  {
    forall c | start <= c < RoundUp(r.base + r.size) && c % PAGE_SIZE == 0
      ensures OverlapsReserved(reserved, c, size)
    {
      if c >= cand {
        AlignedBelow(c, r.base + r.size);
        assert Overlap(c, size, r.base, reserved[r.base]);
      }
    }
  }

  /** The ranges seen so far end before a candidate placed after a later one. */
  lemma EarlierEndBefore(reserved: map<int, int>, ranges: seq<Range>, j: nat, cand: int, size: int)
    requires Disjoint(reserved) && Sorted(reserved, ranges) && j < |ranges| && cand >= ranges[j].base + ranges[j].size
    requires ranges[j].size >= 0
    ensures forall k :: 0 <= k <= j ==> !Overlap(cand, size, ranges[k].base, ranges[k].size)
  {
    forall k | 0 <= k < j ensures ranges[k].base + ranges[k].size <= ranges[j].base || ranges[j].size < 0 {
      assert !Overlap(ranges[k].base, reserved[ranges[k].base], ranges[j].base, reserved[ranges[j].base]);
    }
  }

  lemma NoneOverlap(reserved: map<int, int>, ranges: seq<Range>, cand: int, size: int)
    requires Sorted(reserved, ranges)
    requires forall k :: 0 <= k < |ranges| ==> !Overlap(cand, size, ranges[k].base, ranges[k].size)
    ensures !OverlapsReserved(reserved, cand, size)
  {
    forall b | b in reserved ensures !Overlap(cand, size, b, reserved[b]) {
      var k :| 0 <= k < |ranges| && ranges[k].base == b;
    }
  }

  /** One pass of the search: the least aligned address at or after `start` where
      the request meets no reservation. */
  method Scan(reserved: map<int, int>, ranges: seq<Range>, start: int, size: int) returns (cand: int)
    requires Disjoint(reserved) && Sorted(reserved, ranges) && start % PAGE_SIZE == 0
    requires forall b :: b in reserved ==> reserved[b] >= 0
    ensures cand % PAGE_SIZE == 0 && cand >= start && !OverlapsReserved(reserved, cand, size)
    ensures Blocked(reserved, size, start, cand)
  {
    cand := start;
    var j := 0;
    while j < |ranges|
      invariant j <= |ranges|
      invariant cand % PAGE_SIZE == 0 && cand >= start && Blocked(reserved, size, start, cand)
      invariant forall k :: 0 <= k < j ==> !Overlap(cand, size, ranges[k].base, ranges[k].size)
    {
      var r := ranges[j];
      if r.base + r.size <= cand {
        j := j + 1;
        continue;
      }
      if cand + size <= r.base {
        break;
      }
      SkipBlocked(reserved, size, start, cand, r);
      RoundUpFacts(r.base + r.size);
      cand := RoundUp(r.base + r.size);
      EarlierEndBefore(reserved, ranges, j, cand, size);
      j := j + 1;
    }
    NoneOverlap(reserved, ranges, cand, size);
  }

  lemma {:induction false} LeastKey(keys: set<int>) returns (m: int)
    requires exists k :: k in keys
    ensures m in keys && forall k :: k in keys ==> m <= k
    decreases |keys|
  {
    var a :| a in keys;
    m := a;
    var rest := keys - {a};
    assert forall k :: k in keys ==> k == a || k in rest;
    if exists k :: k in rest {
      var n := LeastKey(rest);
      if n < m { m := n; }
    }
  }

  /** sorted(virtual_reserved.items()) */
  method SortedItems(reserved: map<int, int>) returns (ranges: seq<Range>)
    ensures Sorted(reserved, ranges)
  {
    ranges := [];
    var rest := reserved.Keys;
    while exists b :: b in rest
      invariant rest <= reserved.Keys
      invariant forall k :: 0 <= k < |ranges| ==>
        ranges[k].base in reserved && reserved[ranges[k].base] == ranges[k].size
      invariant forall j, k :: 0 <= j < k < |ranges| ==> ranges[j].base < ranges[k].base
      invariant forall k, b :: 0 <= k < |ranges| && b in rest ==> ranges[k].base < b
      invariant forall b :: b in reserved ==> b in rest || exists k :: 0 <= k < |ranges| && ranges[k].base == b
      decreases |rest|
    {
      ghost var _ := LeastKey(rest);
      var b :| b in rest && forall k :: k in rest ==> b <= k;
      ghost var before := ranges;
      ranges := ranges + [Range(b, reserved[b])];
      assert ranges[|before|].base == b;
      assert forall k :: 0 <= k < |before| ==> ranges[k] == before[k];
      rest := rest - {b};
    }
  }

  // ---- Size zero ----

  predicate NonEmpty(reserved: map<int, int>) {
    forall b :: b in reserved ==> reserved[b] > 0
  }

  /** Every earlier reservation is still there, with its size. */
  predicate Kept(reserved: map<int, int>, after: map<int, int>) {
    forall b :: b in reserved ==> b in after && after[b] == reserved[b]
  }

  /** A non-empty range that overlaps no non-empty one is at a new address. */
  lemma NonEmptyReserveIsNew(reserved: map<int, int>, addr: int, size: int)
    requires size > 0 && !OverlapsReserved(reserved, addr, size) && NonEmpty(reserved)
    ensures addr !in reserved
  {
    if addr in reserved {
      assert Overlap(addr, size, addr, reserved[addr]);
    }
  }

  /** Entering a range that overlaps no reservation. */
  lemma EnteredKeepsIff(reserved: map<int, int>, addr: int, size: int)
    requires NonEmpty(reserved) && size >= 0 && !OverlapsReserved(reserved, addr, size)
    ensures Kept(reserved, reserved[addr := size]) <==> size > 0 || addr !in reserved
    ensures size > 0 ==> NonEmpty(reserved[addr := size])
  {
    if size > 0 {
      NonEmptyReserveIsNew(reserved, addr, size);
    } else if addr in reserved {
      assert reserved[addr := size][addr] == 0;
    }
  }

  /** An empty range at the base of a reservation overlaps none. */
  lemma EmptyRangeFits(reserved: map<int, int>, addr: int)
    requires Disjoint(reserved) && NonEmpty(reserved) && addr in reserved
    ensures !OverlapsReserved(reserved, addr, 0)
  {
    forall b | b in reserved ensures !Overlap(addr, 0, b, reserved[b]) {
      if b != addr { assert !Overlap(addr, reserved[addr], b, reserved[b]); }
    }
  }

  /** A size rounds to 0 if it is 0 or rounds up past 32 bits. */
  lemma RoundsToZeroIff(bytes: int)
    requires 0 <= bytes < 0x1_0000_0000
    ensures PageSize(bytes) == 0 <==> bytes == 0 || bytes > 0xFFFF_F000
  {
    RoundUpFacts(bytes);
  }

  lemma ReadWriteIsKnown()
    ensures KnownProtect(4)
  {
    assert 4 % 2 == 0 && 4 / 4 % 2 == 1 && 4 / 0x40 == 0;
  }

  lemma FirstPage()
    ensures PageSize(0x1000) == 0x1000 && !OverlapsReserved(map[], 0x4000_0000, 0x1000)
    ensures NonEmpty(map[0x4000_0000 := 0x1000])
  {
    RoundUpFacts(0x1000);
  }

  lemma RestOfUserSpace()
    ensures PageSize(0x3FFE_F000) == 0x3FFE_F000 && RoundUp(USER_VA_END) == USER_VA_END
    ensures !OverlapsReserved(map[], 0x4000_1000, 0x3FFE_F000)
    ensures NonEmpty(map[0x4000_1000 := 0x3FFE_F000, 0x4000_0000 := 0x1000])
  {
    RoundUpFacts(0x3FFE_F000);
    RoundUpFacts(USER_VA_END);
  }

  /** With all of user space reserved but for the first page, a search for a page
      ends there. */
  lemma OnlyTheFirstPage()
    ensures Lands(map[0x4000_1000 := 0x3FFE_F000], 0x4000_0000, USER_VA_END, USER_VA_END, 0x1000, 0x4000_0000)
  {
    var reserved := map[0x4000_1000 := 0x3FFE_F000];
    forall c | Admissible(reserved, 0x4000_0000, USER_VA_END, 0x1000, c) ensures c == 0x4000_0000 {
      assert !Overlap(c, 0x1000, 0x4000_1000, reserved[0x4000_1000]);
    }
  }

  /** The calls that enter a reservation; committing at no given address does. */
  predicate Enters(addr: nat, flType: nat)
    requires KnownType(flType)
  {
    Reserves(flType) || (Commits(flType) && addr == 0)
  }

  /** A call that loses an earlier reservation: it enters a size that rounds to 0, at
      the address of one or, if given none, with the search ending at one. */
  ghost predicate Loses(reserved: map<int, int>, floor: int, cursor: int, end: int,
                        addr: nat, bytes: int, flType: nat, flProtect: nat)
  {
    && KnownType(flType) && KnownProtect(flProtect) && Enters(addr, flType) && PageSize(bytes) == 0
    && if addr != 0 then addr in reserved else exists b :: b in reserved && Lands(reserved, floor, cursor, end, 0, b)
  }

  lemma LandsOnce(reserved: map<int, int>, floor: int, cursor: int, end: int, size: int, a: int, b: int)
    requires Lands(reserved, floor, cursor, end, size, a) && Lands(reserved, floor, cursor, end, size, b)
    ensures a == b
  {
    hide Admissible;
  }

  /** The same condition, once it is known where the call allocates. */
  lemma LosesIff(reserved: map<int, int>, floor: int, cursor: int, end: int,
                 addr: nat, bytes: int, flType: nat, flProtect: nat, place: Option<int>)
    requires Disjoint(reserved) && NonEmpty(reserved)
    requires forall b :: b in reserved ==> USER_VA_START <= b && b + reserved[b] <= end
    requires KnownType(flType) && KnownProtect(flProtect) && !(flType == MEM_COMMIT && addr != 0)
    requires place.None? <==> Refused(reserved, floor, end, addr, PageSize(bytes), Reserves(flType))
    requires place.Some? && addr != 0 ==> place.value == addr
    requires place.Some? && addr == 0 ==> Lands(reserved, floor, cursor, end, PageSize(bytes), place.value)
    ensures Loses(reserved, floor, cursor, end, addr, bytes, flType, flProtect)
      <==> place.Some? && Enters(addr, flType) && PageSize(bytes) == 0 && place.value in reserved
  {
    if addr != 0 && addr in reserved {
      EmptyRangeFits(reserved, addr);
    }
    if addr == 0 && place.Some? && PageSize(bytes) == 0 {
      forall b | Lands(reserved, floor, cursor, end, 0, b) ensures b == place.value {
        LandsOnce(reserved, floor, cursor, end, 0, b, place.value);
      }
    }
  }

  /** With an empty request the search ends where it starts if that is a reservation. */
  lemma CursorLands(reserved: map<int, int>, floor: int, cursor: int, end: int)
    requires Disjoint(reserved) && NonEmpty(reserved) && cursor in reserved
    requires cursor % PAGE_SIZE == 0 && floor <= cursor && cursor + reserved[cursor] <= end
    ensures Lands(reserved, floor, cursor, end, 0, cursor)
  {
    EmptyRangeFits(reserved, cursor);
  }

  class AddressSpace {
    const memorySize: int
    const virtualAllocFloor: int
    var nextVirtualAlloc: int
    var virtualReserved: map<int, int>
    var virtualCommitted: map<int, int>
    var virtualProtect: map<int, int>
    var lastError: int

    function End(): int {
      if USER_VA_END < memorySize then USER_VA_END else memorySize
    }

    /** The reservations are pairwise disjoint and inside user space; the floor and
        the cursor are page-aligned. */
    ghost predicate Valid()
      reads this
    {
      && virtualAllocFloor % PAGE_SIZE == 0 && USER_VA_START <= virtualAllocFloor
      && nextVirtualAlloc % PAGE_SIZE == 0
      && Disjoint(virtualReserved)
      && forall b :: b in virtualReserved ==>
        0 <= virtualReserved[b] && USER_VA_START <= b && b + virtualReserved[b] <= End()
    }

    constructor (memorySize: int, floor: int)
      requires floor % PAGE_SIZE == 0 && USER_VA_START <= floor
      ensures Valid() && virtualReserved == map[] && this.memorySize == memorySize && virtualAllocFloor == floor
    {
      this.memorySize := memorySize;
      virtualAllocFloor, nextVirtualAlloc := floor, floor;
      virtualReserved, virtualCommitted, virtualProtect := map[], map[], map[];
      lastError := 0;
    }

    /** _find_free_range, sound and complete: the first admissible address in the
        order of the search, None exactly if there is none. */
    method FindFreeRange(size: int) returns (r: Option<int>)
      requires Valid() && size >= 0
      ensures r.Some? ==> Lands(virtualReserved, virtualAllocFloor, nextVirtualAlloc, End(), size, r.value)
      ensures r.None? <==> forall c :: !Admissible(virtualReserved, virtualAllocFloor, End(), size, c)
    {
      var end := End();
      var ranges := SortedItems(virtualReserved);
      var start := if nextVirtualAlloc < virtualAllocFloor then virtualAllocFloor else nextVirtualAlloc;
      var cand := Scan(virtualReserved, ranges, start, size);
      if cand + size <= end {
        assert Admissible(virtualReserved, virtualAllocFloor, end, size, cand);
        return Some(cand);
      }
      var cand2 := Scan(virtualReserved, ranges, virtualAllocFloor, size);
      if cand2 + size <= end {
        assert Admissible(virtualReserved, virtualAllocFloor, end, size, cand2);
        return Some(cand2);
      }
      r := None;
    }

    /** _fail */
    method Fail(error: int) returns (r: Outcome)
      modifies this`lastError
      ensures r == Failed(error) && lastError == error
    {
      lastError := error;
      r := Failed(error);
    }

    /** _take_free_range: the found range, with the cursor moved past it. */
    method TakeFreeRange(size: int) returns (r: Option<int>)
      requires Valid() && 0 <= size && size % PAGE_SIZE == 0
      modifies this`nextVirtualAlloc, this`lastError
      ensures Valid()
      ensures r.Some? ==>
        && Lands(virtualReserved, virtualAllocFloor, old(nextVirtualAlloc), End(), size, r.value)
        && nextVirtualAlloc == r.value + size && lastError == old(lastError)
      ensures r.None? <==> forall c :: !Admissible(virtualReserved, virtualAllocFloor, End(), size, c)
      ensures r.None? ==> nextVirtualAlloc == old(nextVirtualAlloc) && lastError == ERROR_NOT_ENOUGH_MEMORY
    {
      r := FindFreeRange(size);
      if r.None? {
        var _ := Fail(ERROR_NOT_ENOUGH_MEMORY);
        return;
      }
      nextVirtualAlloc := (r.value + size) % 0x1_0000_0000;
    }

    /** Enters a range that overlaps no reservation. */
    method Reserve(addr: int, size: int)
      requires Valid() && 0 <= size && USER_VA_START <= addr && addr + size <= End()
      requires !OverlapsReserved(virtualReserved, addr, size)
      modifies this`virtualReserved
      ensures Valid() && virtualReserved == old(virtualReserved)[addr := size]
    {
      virtualReserved := virtualReserved[addr := size];
    }

    /** MEM_COMMIT alone at an address: only the start has to be reserved. */
    method CommitAt(addr: int, size: int, protect: int) returns (r: Outcome)
      requires Valid()
      modifies this`virtualCommitted, this`virtualProtect
      ensures r == if InReserved(virtualReserved, addr) then Returned(addr) else Halted
      ensures virtualCommitted == if r.Returned? then old(virtualCommitted)[addr := size] else old(virtualCommitted)
      ensures virtualProtect == if r.Returned? then old(virtualProtect)[addr := protect] else old(virtualProtect)
    {
      if !InReserved(virtualReserved, addr) {
        return Halted;
      }
      virtualCommitted := virtualCommitted[addr := size];
      virtualProtect := virtualProtect[addr := protect];
      r := Returned(addr);
    }

    /** The checks on a requested address, and the cursor moved past it. */
    method TakeRequested(addr: int, size: int, reserve: bool) returns (ok: bool)
      requires Valid() && size >= 0
      modifies this`nextVirtualAlloc, this`lastError
      ensures Valid()
      ensures ok == (USER_VA_START <= addr && addr + size <= End()
        && !(reserve && OverlapsReserved(virtualReserved, addr, size)))
      ensures !ok ==> nextVirtualAlloc == old(nextVirtualAlloc) && lastError == ERROR_INVALID_ADDRESS
      ensures ok && addr != 0 ==> nextVirtualAlloc == CursorAfter(old(nextVirtualAlloc), addr, addr + size)
    {
      if addr < USER_VA_START || addr + size > End() || (reserve && OverlapsReserved(virtualReserved, addr, size)) {
        var _ := Fail(ERROR_INVALID_ADDRESS);
        return false;
      }
      var end := RoundUp(addr + size);
      RoundUpFacts(addr + size);
      if end > nextVirtualAlloc {
        nextVirtualAlloc := end % 0x1_0000_0000;
      }
      ok := true;
    }

    /** Where a call allocates: the requested address if it passes the checks, or
        what the search finds. */
    method Place(addr: nat, size: int, reserve: bool) returns (r: Option<int>)
      requires Valid() && 0 <= size && size % PAGE_SIZE == 0
      modifies this`nextVirtualAlloc, this`lastError
      ensures Valid()
      ensures r.None? <==> Refused(virtualReserved, virtualAllocFloor, End(), addr, size, reserve)
      ensures r.None? ==> nextVirtualAlloc == old(nextVirtualAlloc)
      ensures r.None? ==> lastError == if addr == 0 then ERROR_NOT_ENOUGH_MEMORY else ERROR_INVALID_ADDRESS
      ensures r.Some? ==>
        && (addr != 0 ==> r.value == addr)
        && (addr == 0 ==> Lands(virtualReserved, virtualAllocFloor, old(nextVirtualAlloc), End(), size, r.value))
        && nextVirtualAlloc == CursorAfter(old(nextVirtualAlloc), addr, r.value + size)
        && USER_VA_START <= r.value && r.value + size <= End()
        && (reserve || addr == 0 ==> !OverlapsReserved(virtualReserved, r.value, size))
    {
      if addr == 0 {
        r := TakeFreeRange(size);
      } else {
        var ok := TakeRequested(addr, size, reserve);
        r := if ok then Some(addr) else None;
      }
    }

    /** VirtualAlloc. Unknown type or protection bits halt; what succeeds is at the
        requested address or at one the search found; every reservation entered is
        disjoint from all others, in user space. */
    method VirtualAlloc(addr: nat, bytes: nat, flType: nat, flProtect: nat) returns (r: Outcome)
      requires Valid() && bytes < 0x1_0000_0000
      modifies this
      ensures Valid()
      ensures r.Halted? <==>
        || !KnownType(flType) || !KnownProtect(flProtect)
        || (flType == MEM_COMMIT && addr != 0 && !InReserved(old(virtualReserved), addr))
      ensures r.Failed? <==>
        && KnownType(flType) && KnownProtect(flProtect) && !(flType == MEM_COMMIT && addr != 0)
        && Refused(old(virtualReserved), virtualAllocFloor, End(), addr, PageSize(bytes), Reserves(flType))
      ensures r.Failed? ==> lastError == (if addr == 0 then ERROR_NOT_ENOUGH_MEMORY else ERROR_INVALID_ADDRESS)
      ensures !r.Returned? ==>
        virtualReserved == old(virtualReserved) && virtualCommitted == old(virtualCommitted)
        && nextVirtualAlloc == old(nextVirtualAlloc)
      ensures r.Returned? ==>
        && (addr != 0 ==> r.eax == addr)
        && (addr == 0 ==>
              Lands(old(virtualReserved), virtualAllocFloor, old(nextVirtualAlloc), End(), PageSize(bytes), r.eax))
        && nextVirtualAlloc == (
             if flType == MEM_COMMIT && addr != 0 then old(nextVirtualAlloc)
             else CursorAfter(old(nextVirtualAlloc), addr, r.eax + PageSize(bytes)))
        && virtualReserved ==
            (if Enters(addr, flType) then old(virtualReserved)[r.eax := PageSize(bytes)] else old(virtualReserved))
        && virtualCommitted ==
            (if Commits(flType) then old(virtualCommitted)[r.eax := PageSize(bytes)] else old(virtualCommitted))
        && virtualProtect == (if flType != 0 then old(virtualProtect)[r.eax := flProtect] else old(virtualProtect))
      // Exactly which calls lose a reservation.
      ensures NonEmpty(old(virtualReserved)) ==>
        (!Kept(old(virtualReserved), virtualReserved) <==>
           Loses(old(virtualReserved), virtualAllocFloor, old(nextVirtualAlloc), End(), addr, bytes, flType, flProtect))
      ensures NonEmpty(old(virtualReserved)) && PageSize(bytes) > 0 ==> NonEmpty(virtualReserved)
    {
      hide Admissible, Refused, KnownProtect, OverlapsReserved;
      if !KnownType(flType) || !KnownProtect(flProtect) {
        return Halted;
      }
      RoundUpFacts(bytes);
      var size := PageSize(bytes);
      if flType == MEM_COMMIT && addr != 0 {
        r := CommitAt(addr, size, flProtect);
        return;
      }
      hide Lands, Loses, Disjoint, CursorAfter;
      var place := Place(addr, size, Reserves(flType));
      if NonEmpty(virtualReserved) {
        LosesIff(virtualReserved, virtualAllocFloor, old(nextVirtualAlloc), End(), addr, bytes, flType, flProtect,
                 place);
      }
      if place.None? {
        return Failed(if addr == 0 then ERROR_NOT_ENOUGH_MEMORY else ERROR_INVALID_ADDRESS);
      }
      var at := place.value;
      // Committing at no given address reserves as well.
      if Reserves(flType) || flType == MEM_COMMIT {
        if NonEmpty(virtualReserved) { EnteredKeepsIff(virtualReserved, at, size); }
        Reserve(at, size);
      }
      if Commits(flType) {
        virtualCommitted := virtualCommitted[at := size];
      }
      if flType != 0 {
        virtualProtect := virtualProtect[at := flProtect];
      }
      r := Returned(at);
    }

    /** VirtualFree. Releasing removes exactly the reservation at that address;
        decommitting touches only the commit keyed there. */
    method VirtualFree(addr: int, bytes: int, kind: int) returns (r: Outcome)
      requires Valid()
      modifies this`virtualReserved, this`virtualCommitted
      ensures Valid()
      ensures r ==
        if (kind == MEM_RELEASE && bytes == 0 && addr in old(virtualReserved)) || kind == MEM_DECOMMIT then Returned(1)
        else Halted
      ensures virtualReserved
        == if r == Returned(1) && kind == MEM_RELEASE then old(virtualReserved) - {addr} else old(virtualReserved)
      ensures virtualCommitted == if r == Returned(1) then old(virtualCommitted) - {addr} else old(virtualCommitted)
    {
      if kind == MEM_RELEASE {
        if bytes != 0 || addr !in virtualReserved {
          return Halted;
        }
        virtualReserved := virtualReserved - {addr};
        virtualCommitted := virtualCommitted - {addr};
      } else if kind == MEM_DECOMMIT {
        virtualCommitted := virtualCommitted - {addr};
      } else {
        return Halted;
      }
      r := Returned(1);
    }

    /** Reserving a size that rounds to 0 at the address of a reservation succeeds,
        and the size of that reservation is lost. */
    method ReserveNothingAt(addr: nat, bytes: nat, flProtect: nat) returns (r: Outcome)
      requires Valid() && NonEmpty(virtualReserved) && addr in virtualReserved
      requires bytes < 0x1_0000_0000 && PageSize(bytes) == 0 && KnownProtect(flProtect)
      modifies this
      ensures Valid() && r == Returned(addr) && virtualReserved == old(virtualReserved)[addr := 0]
      ensures !Kept(old(virtualReserved), virtualReserved)
    {
      EmptyRangeFits(virtualReserved, addr);
      r := VirtualAlloc(addr, bytes, MEM_RESERVE, flProtect);
    }

    /** Without an address it is the same if the cursor is at a reservation: the search
        ends there. */
    method ReserveNothing(bytes: nat, flProtect: nat) returns (r: Outcome)
      requires Valid() && NonEmpty(virtualReserved)
      requires nextVirtualAlloc in virtualReserved && virtualAllocFloor <= nextVirtualAlloc
      requires bytes < 0x1_0000_0000 && PageSize(bytes) == 0 && KnownProtect(flProtect)
      modifies this
      ensures Valid() && r == Returned(old(nextVirtualAlloc))
      ensures virtualReserved == old(virtualReserved)[old(nextVirtualAlloc) := 0]
      ensures !Kept(old(virtualReserved), virtualReserved)
    {
      ghost var at := nextVirtualAlloc;
      CursorLands(virtualReserved, virtualAllocFloor, at, End());
      r := VirtualAlloc(0, bytes, MEM_RESERVE, flProtect);
      assert r.Returned?;
      LandsOnce(old(virtualReserved), virtualAllocFloor, at, End(), 0, r.eax, at);
    }

    /** Reserving a given range of user space that overlaps no reservation succeeds. */
    method ReserveAt(addr: nat, bytes: nat, flProtect: nat) returns (r: Outcome)
      requires Valid() && bytes < 0x1_0000_0000 && KnownProtect(flProtect)
      requires USER_VA_START <= addr && addr + PageSize(bytes) <= End()
      requires !OverlapsReserved(virtualReserved, addr, PageSize(bytes))
      modifies this
      ensures Valid() && r == Returned(addr) && virtualReserved == old(virtualReserved)[addr := PageSize(bytes)]
      ensures nextVirtualAlloc == CursorAfter(old(nextVirtualAlloc), addr, addr + PageSize(bytes))
    {
      r := VirtualAlloc(addr, bytes, MEM_RESERVE, flProtect);
    }

    /** Two calls in a new process: the second discards what the first reserved. */
    method ReserveThenDiscard() returns (first: Outcome, second: Outcome)
      requires Valid() && virtualReserved == map[] && memorySize >= USER_VA_END
      modifies this
      ensures Valid() && first == Returned(0x4000_0000) && second == Returned(0x4000_0000)
      ensures virtualReserved == map[0x4000_0000 := 0]
    {
      ReadWriteIsKnown();
      FirstPage();
      RoundsToZeroIff(0);
      hide PageSize, KnownProtect, OverlapsReserved, NonEmpty;
      assert End() == USER_VA_END;
      first := ReserveAt(0x4000_0000, 0x1000, 4);
      second := ReserveNothingAt(0x4000_0000, 0, 4);
    }

    /** Three calls in a new process, with the address left to the program: the first
        fills user space but for one page at the floor, the second gets that page and
        leaves the cursor at the first, the third discards the first. */
    method WrapThenDiscard() returns (first: Outcome, second: Outcome, third: Outcome)
      requires Valid() && virtualReserved == map[] && memorySize >= USER_VA_END
      requires virtualAllocFloor == nextVirtualAlloc == 0x4000_0000
      modifies this
      ensures Valid() && first == Returned(0x4000_1000) && second == Returned(0x4000_0000) && third == first
      ensures virtualReserved == map[0x4000_1000 := 0, 0x4000_0000 := 0x1000]
    {
      ReadWriteIsKnown();
      FirstPage();
      RestOfUserSpace();
      RoundsToZeroIff(0);
      OnlyTheFirstPage();
      hide PageSize, KnownProtect, OverlapsReserved, NonEmpty, Lands, Admissible, RoundUp;
      assert End() == USER_VA_END;
      first := ReserveAt(0x4000_1000, 0x3FFE_F000, 4);
      second := VirtualAlloc(0, 0x1000, MEM_RESERVE, 4);
      LandsOnce(map[0x4000_1000 := 0x3FFE_F000], 0x4000_0000, USER_VA_END, USER_VA_END, 0x1000, second.eax,
                0x4000_0000);
      third := ReserveNothing(0, 4);
    }

    /** Any run of VirtualAlloc and VirtualFree calls. If no size rounds to 0, a
        reservation is lost only by its release. */
    method Run(calls: seq<Call>)
      requires Valid() && forall k :: 0 <= k < |calls| && calls[k].AllocCall? ==> calls[k].bytes < 0x1_0000_0000
      modifies this
      ensures Valid()
      ensures NonEmpty(old(virtualReserved)) && AllNonZero(calls) ==>
        && NonEmpty(virtualReserved)
        && forall b :: b in old(virtualReserved) && FreeCall(b, 0, MEM_RELEASE) !in calls ==>
          b in virtualReserved && virtualReserved[b] == old(virtualReserved)[b]
    {
      ghost var start := virtualReserved;
      for k := 0 to |calls|
        invariant Valid()
        invariant NonEmpty(start) && AllNonZero(calls) ==> NonEmpty(virtualReserved)
        invariant NonEmpty(start) && AllNonZero(calls) ==>
          forall b :: b in start && FreeCall(b, 0, MEM_RELEASE) !in calls ==>
          b in virtualReserved && virtualReserved[b] == start[b]
      {
        assert calls[k] in calls;
        match calls[k]
        case AllocCall(addr, bytes, flType, flProtect) => var _ := VirtualAlloc(addr, bytes, flType, flProtect);
        case FreeCall(addr, bytes, kind) => var _ := VirtualFree(addr, bytes, kind);
      }
    }
  }

  /** No call asks for a size that rounds to 0. */
  predicate AllNonZero(calls: seq<Call>) {
    forall k :: 0 <= k < |calls| && calls[k].AllocCall? ==> PageSize(calls[k].bytes) > 0
  }

  datatype Call =
    | AllocCall(addr: nat, bytes: nat, flType: nat, flProtect: nat)
    | FreeCall(addr: nat, bytes: nat, kind: int)
}
