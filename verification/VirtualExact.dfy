/** What the terms of VirtualAlloc mean, byte by byte and bit by bit. */
module VirtualExact {
  import opened VirtualMemory

  /** Protections may combine bits 0, 2 and 6, and nothing else. */
  lemma KnownProtectIff(protect: nat)
    ensures KnownProtect(protect) <==> protect in {0, 1, 4, 5, 0x40, 0x41, 0x44, 0x45}
  {
    var a, b, c := protect % 2, protect / 4 % 2, protect / 0x40 % 2;
    assert 0 <= a < 2 && 0 <= b < 2 && 0 <= c < 2;
    if KnownProtect(protect) {
      assert protect == a + b * 4 + c * 0x40;
    }
  }

  /** The type may combine bits 12 and 13, which commit and reserve. */
  lemma KnownTypeIff(flType: nat)
    ensures KnownType(flType) <==> flType % 0x1000 == 0 && flType < 0x4000
    ensures KnownType(flType) ==>
      (Commits(flType) <==> flType / 0x1000 % 2 == 1) && (Reserves(flType) <==> flType / 0x2000 % 2 == 1)
  {
  }

  /** The size is the least number of whole pages that hold the request, if that is
      below 2^32. */
  lemma PageSizeIs(bytes: int, n: int)
    requires 0 <= bytes <= 0xFFFF_F000
    ensures PageSize(bytes) % 0x1000 == 0 && PageSize(bytes) >= bytes
    ensures n % 0x1000 == 0 && n >= bytes ==> n >= PageSize(bytes)
  {
    RoundUpFacts(bytes);
    if n % 0x1000 == 0 && n >= bytes && n < RoundUp(bytes) {
      AlignedBelow(n, bytes);
    }
  }

  predicate Holds(a: int, size: int, x: int) {
    a <= x < a + size
  }

  ghost predicate ShareByte(a: int, size: int, b: int, sz: int) {
    exists x :: Holds(a, size, x) && Holds(b, sz, x)
  }

  /** Ranges overlap exactly if they have a byte in common, or if one is empty and
      strictly inside the other. */
  lemma OverlapIff(a: int, size: int, b: int, sz: int)
    requires size >= 0 && sz >= 0
    ensures Overlap(a, size, b, sz) <==>
      || ShareByte(a, size, b, sz)
      || (size == 0 && b < a < b + sz)
      || (sz == 0 && a < b < a + size)
  {
    if Overlap(a, size, b, sz) && size > 0 && sz > 0 {
      var x := if a < b then b else a;
      assert Holds(a, size, x) && Holds(b, sz, x);
    }
  }

  /** A table is disjoint exactly if no byte is in two reservations. */
  lemma DisjointIff(reserved: map<int, int>)
    requires forall b :: b in reserved ==> reserved[b] > 0
    ensures Disjoint(reserved) <==>
      forall a, b, x ::
        a in reserved && b in reserved && Holds(a, reserved[a], x) && Holds(b, reserved[b], x) ==> a == b
  {
    if Disjoint(reserved) {
      forall a, b, x | a in reserved && b in reserved && Holds(a, reserved[a], x) && Holds(b, reserved[b], x)
        ensures a == b
      {
        assert Overlap(a, reserved[a], b, reserved[b]);
      }
    } else {
      var a, b :| a in reserved && b in reserved && a != b && Overlap(a, reserved[a], b, reserved[b]);
      OverlapIff(a, reserved[a], b, reserved[b]);
    }
  }

  /** Committing asks for the first byte to be reserved. */
  lemma InReservedIff(reserved: map<int, int>, addr: int)
    requires forall b :: b in reserved ==> reserved[b] >= 0
    ensures InReserved(reserved, addr) <==> exists b :: b in reserved && ShareByte(addr, 1, b, reserved[b])
  {
    if InReserved(reserved, addr) {
      var b :| b in reserved && b <= addr < b + reserved[b];
      assert Holds(addr, 1, addr) && Holds(b, reserved[b], addr);
      assert ShareByte(addr, 1, b, reserved[b]);
    }
  }

  /** An address the search may give: whole pages, between the floor and the end, all
      bytes free. */
  lemma AdmissibleIff(reserved: map<int, int>, floor: int, end: int, size: int, c: int)
    requires size > 0 && forall b :: b in reserved ==> reserved[b] > 0
    ensures Admissible(reserved, floor, end, size, c) <==>
      && c % 0x1000 == 0 && floor <= c && c + size <= end
      && forall b :: b in reserved ==> !ShareByte(c, size, b, reserved[b])
  {
    forall b | b in reserved ensures Overlap(c, size, b, reserved[b]) <==> ShareByte(c, size, b, reserved[b]) {
      OverlapIff(c, size, b, reserved[b]);
    }
    assert OverlapsReserved(reserved, c, size) <==>
      exists b :: b in reserved && Overlap(c, size, b, reserved[b]);
    hide Overlap, ShareByte;
  }

  /** The search gives the lowest such address from the cursor up and, only if there is
      none, the lowest of all. */
  lemma LandsIff(reserved: map<int, int>, floor: int, cursor: int, end: int, size: int, c: int)
    ensures Lands(reserved, floor, cursor, end, size, c) <==>
      && Admissible(reserved, floor, end, size, c)
      && forall b :: Admissible(reserved, floor, end, size, b) ==> if c >= cursor then b >= c || b < cursor
                                                                  else c <= b < cursor
  {
    hide Admissible;
  }

  /** A range the search found leaves the cursor at its end; one asked for moves it to
      the next whole page after its end, never down. */
  lemma CursorAfterIs(cursor: int, addr: int, end: int, page: int)
    requires page % 0x1000 == 0 && end <= page < end + 0x1000
    ensures CursorAfter(cursor, addr, end) == if addr == 0 then end else if page > cursor then page else cursor
  {
    RoundUpFacts(end);
    var p, q := page / 0x1000, RoundUp(end) / 0x1000;
    assert page == p * 0x1000 && RoundUp(end) == q * 0x1000;
  }

  /** A non-empty reservation fails exactly if some byte asked for is outside user space
      or already reserved or, without an address, if there is no room at all. */
  lemma RefusedIff(reserved: map<int, int>, floor: int, end: int, addr: int, size: int)
    requires size > 0 && forall b :: b in reserved ==> reserved[b] > 0
    ensures addr != 0 ==>
      (Refused(reserved, floor, end, addr, size, true) <==>
         || addr < 0x1_0000 || addr + size > end
         || exists b :: b in reserved && ShareByte(addr, size, b, reserved[b]))
    ensures Refused(reserved, floor, end, 0, size, true) <==>
      forall c :: !Admissible(reserved, floor, end, size, c)
  {
    forall b | b in reserved ensures Overlap(addr, size, b, reserved[b]) <==> ShareByte(addr, size, b, reserved[b]) {
      OverlapIff(addr, size, b, reserved[b]);
    }
    assert OverlapsReserved(reserved, addr, size) <==>
      exists b :: b in reserved && Overlap(addr, size, b, reserved[b]);
    hide Overlap, ShareByte, Admissible;
  }
}
