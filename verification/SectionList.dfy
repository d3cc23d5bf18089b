/** The process-wide list of critical sections: a circular doubly linked list
    threaded through debug blocks of the guest heap, in guest memory. First the
    ring on the aligned words of memory, then the list in memory, then what a
    client of the heap may write. */
module SectionList {
  import opened GuestMemory
  import opened LittleEndian
  import opened GuestHeap
  import opened HeapModel
  import opened Lists
  import opened CsProtocol

  const CS_SIZE := 0x18
  const CS_DEBUG_SIZE := 0x20

  // ---- The ring, over the aligned words of memory ----

  /** The list entries in order: the head, each debug block's links at +8, and the
      head again after the last. */
  function Link(head: int, nodes: seq<int>, k: int): int {
    if 1 <= k <= |nodes| then nodes[k - 1] + 8 else head
  }

  /** Flink (at +0) of entry k is entry k + 1, whose Blink (at +4) is entry k. */
  predicate Linked(w: int -> int, head: int, nodes: seq<int>, k: int) {
    var a, b := Link(head, nodes, k), Link(head, nodes, k + 1);
    w(a) == b && w(b + 4) == a
  }

  ghost predicate Ring(w: int -> int, head: int, nodes: seq<int>) {
    forall k :: 0 <= k <= |nodes| ==> Linked(w, head, nodes, k)
  }

  /** The head and the blocks are aligned and distinct. */
  predicate Distinct(head: int, nodes: seq<int>) {
    && head % 16 == 0
    && (forall k :: 0 <= k < |nodes| ==> nodes[k] % 16 == 0 && nodes[k] != head)
    && (forall j, k :: 0 <= j < k < |nodes| ==> nodes[j] != nodes[k])
  }

  /** One aligned store, seen on the words. */
  ghost predicate WordStored(w: int -> int, w': int -> int, a: int, v: int) {
    forall x :: x % 4 == 0 ==> w'(x) == if x == a then v else w(x)
  }

  lemma FourStores(w: int -> int, w1: int -> int, w2: int -> int, w3: int -> int, w4: int -> int, head: int, tail: int,
                   d: int)
    requires WordStored(w, w1, d + 8, head) && WordStored(w1, w2, d + 0xC, tail)
    requires WordStored(w2, w3, tail, d + 8) && WordStored(w3, w4, head + 4, d + 8)
    ensures forall x :: x % 4 == 0 ==> TailInserted(w, w4, head, tail, d, x)
  {
  }

  lemma TwoStores(w: int -> int, w1: int -> int, w2: int -> int, flink: int, blink: int)
    requires WordStored(w, w1, blink, flink) && WordStored(w1, w2, flink + 4, blink)
    ensures forall x :: x % 4 == 0 ==> LinkRemoved(w, w2, flink, blink, x)
  {
  }

  /** The words after the four list writes of an initialisation. */
  predicate TailInserted(w: int -> int, w': int -> int, head: int, tail: int, d: int, x: int) {
    w'(x) == if x == head + 4 || x == tail then d + 8 else if x == d + 0xC then tail else if x == d + 8 then head
      else w(x)
  }

  /** Entries are word-aligned, distinct, and no Flink is at a Blink's address. */
  lemma Links(head: int, nodes: seq<int>, j: int, k: int)
    requires Distinct(head, nodes)
    ensures var a, b := Link(head, nodes, j), Link(head, nodes, k);
      && a % 4 == 0 && (a + 4) % 4 == 0 && a != b + 4
      && (0 <= j <= |nodes| && 0 <= k <= |nodes| && a == b ==> j == k)
  {
    var x, y := if 1 <= j <= |nodes| then nodes[j - 1] else head, if 1 <= k <= |nodes| then nodes[k - 1] else head;
    assert x % 16 == 0 && y % 16 == 0;
    Sixteens(x, y);
  }

  lemma Sixteens(x: int, y: int)
    requires x % 16 == 0 && y % 16 == 0
    ensures x % 4 == 0 && (x + 8) % 4 == 0 && (x + 4) % 4 == 0 && (x + 12) % 4 == 0
    ensures x != y + 4 && x + 8 != y + 4 && x != y + 12 && x + 8 != y + 12 && x + 8 != y
  {
    Offset16(x, 4);
    Offset16(x, 8);
    Offset16(x, 12);
    Offset16(y, 4);
    Offset16(y, 8);
    Offset16(y, 12);
  }

  lemma InsertedEntry(w: int -> int, w': int -> int, head: int, nodes: seq<int>, d: int, k: int)
    requires Ring(w, head, nodes) && Distinct(head, nodes + [d]) && 0 <= k <= |nodes| + 1
    requires forall x :: x % 4 == 0 ==> TailInserted(w, w', head, Link(head, nodes, |nodes|), d, x)
    ensures Linked(w', head, nodes + [d], k)
  {
    var n, nodes' := |nodes|, nodes + [d];
    var next := if k <= n then k + 1 else 0;
    var a, b := Link(head, nodes', k), Link(head, nodes', next);
    assert b == Link(head, nodes', k + 1);
    assert Link(head, nodes', n) == Link(head, nodes, n) && Link(head, nodes', n + 1) == d + 8;
    Links(head, nodes', k, next);
    Links(head, nodes', next, k);
    Links(head, nodes', k, n);
    Links(head, nodes', n, next);
    Links(head, nodes', k, n + 1);
    Links(head, nodes', n + 1, next);
    Links(head, nodes', k, 0);
    Links(head, nodes', 0, next);
    assert TailInserted(w, w', head, Link(head, nodes, n), d, a);
    assert TailInserted(w, w', head, Link(head, nodes, n), d, b + 4);
    if k < n {
      assert Linked(w, head, nodes, k);
      assert a == Link(head, nodes, k) && b == Link(head, nodes, k + 1);
    }
  }

  /** They put the block d at the tail. */
  lemma InsertKeepsRing(w: int -> int, w': int -> int, head: int, nodes: seq<int>, d: int)
    requires Ring(w, head, nodes) && Distinct(head, nodes + [d])
    requires forall x :: x % 4 == 0 ==> TailInserted(w, w', head, Link(head, nodes, |nodes|), d, x)
    ensures w(head + 4) == Link(head, nodes, |nodes|)
    ensures Ring(w', head, nodes + [d])
  {
    assert Linked(w, head, nodes, |nodes|);
    forall k | 0 <= k <= |nodes| + 1 ensures Linked(w', head, nodes + [d], k) {
      InsertedEntry(w, w', head, nodes, d, k);
    }
  }

  /** The words after the two list writes of a deletion. */
  predicate LinkRemoved(w: int -> int, w': int -> int, flink: int, blink: int, x: int) {
    w'(x) == if x == flink + 4 then blink else if x == blink then flink else w(x)
  }

  /** Entry k of the list without block i is entry k or k + 1 of the list. */
  lemma LinkShift(head: int, nodes: seq<int>, i: nat, k: nat)
    requires i < |nodes| && k <= |nodes|
    ensures Link(head, Without(nodes, i), k) == Link(head, nodes, if k <= i then k else k + 1)
  {
  }

  /** The entry before the removed block. */
  lemma RemovedAt(w: int -> int, w': int -> int, head: int, nodes: seq<int>, i: nat)
    requires Distinct(head, nodes) && i < |nodes|
    requires forall x :: x % 4 == 0 ==> LinkRemoved(w, w', Link(head, nodes, i + 2), Link(head, nodes, i), x)
    ensures Linked(w', head, Without(nodes, i), i)
  {
    var flink, blink := Link(head, nodes, i + 2), Link(head, nodes, i);
    LinkShift(head, nodes, i, i);
    LinkShift(head, nodes, i, i + 1);
    Links(head, nodes, i, i + 2);
    Links(head, nodes, i + 2, i);
    hide Link, Without, Distinct;
    assert LinkRemoved(w, w', flink, blink, blink);
    assert LinkRemoved(w, w', flink, blink, flink + 4);
  }

  /** Every other entry: neither of its two links is written. */
  lemma RemovedElsewhere(w: int -> int, w': int -> int, head: int, nodes: seq<int>, i: nat, p: nat, q: nat)
    requires Distinct(head, nodes) && i < |nodes| && Linked(w, head, nodes, p)
    requires p <= |nodes| && q <= |nodes| && p != i && q != (if i + 2 <= |nodes| then i + 2 else 0)
    requires Link(head, nodes, p + 1) == Link(head, nodes, q)
    requires forall x :: x % 4 == 0 ==> LinkRemoved(w, w', Link(head, nodes, i + 2), Link(head, nodes, i), x)
    ensures w'(Link(head, nodes, p)) == Link(head, nodes, q) && w'(Link(head, nodes, q) + 4) == Link(head, nodes, p)
  {
    var after := if i + 2 <= |nodes| then i + 2 else 0;
    var flink, blink := Link(head, nodes, i + 2), Link(head, nodes, i);
    var a, b := Link(head, nodes, p), Link(head, nodes, q);
    assert Link(head, nodes, after) == flink;
    Links(head, nodes, p, after);
    Links(head, nodes, p, i);
    Links(head, nodes, q, after);
    Links(head, nodes, i, q);
    hide Link, Distinct;
    assert LinkRemoved(w, w', flink, blink, a);
    assert LinkRemoved(w, w', flink, blink, b + 4);
  }

  lemma RemovedEntry(w: int -> int, w': int -> int, head: int, nodes: seq<int>, i: nat, k: nat)
    requires Ring(w, head, nodes) && Distinct(head, nodes) && i < |nodes| && k < |nodes|
    requires forall x :: x % 4 == 0 ==> LinkRemoved(w, w', Link(head, nodes, i + 2), Link(head, nodes, i), x)
    ensures Linked(w', head, Without(nodes, i), k)
  {
    if k == i {
      RemovedAt(w, w', head, nodes, i);
    } else {
      // Entry k of the new list and its successor, as positions in the old one.
      var p := if k < i then k else k + 1;
      var q := if k < i then k + 1 else if k + 2 <= |nodes| then k + 2 else 0;
      LinkShift(head, nodes, i, k);
      LinkShift(head, nodes, i, k + 1);
      assert Linked(w, head, nodes, p);
      assert Link(head, nodes, q) == Link(head, nodes, p + 1);
      RemovedElsewhere(w, w', head, nodes, i, p, q);
    }
  }

  /** They take block i out of the list. */
  lemma UnlinkKeepsRing(w: int -> int, w': int -> int, head: int, nodes: seq<int>, i: nat)
    requires Ring(w, head, nodes) && Distinct(head, nodes) && i < |nodes|
    requires forall x :: x % 4 == 0 ==> LinkRemoved(w, w', Link(head, nodes, i + 2), Link(head, nodes, i), x)
    ensures w(nodes[i] + 8) == Link(head, nodes, i + 2) && w(nodes[i] + 0xC) == Link(head, nodes, i)
    ensures Ring(w', head, Without(nodes, i))
  {
    assert Linked(w, head, nodes, i) && Linked(w, head, nodes, i + 1);
    forall k | 0 <= k < |nodes| ensures Linked(w', head, Without(nodes, i), k) {
      RemovedEntry(w, w', head, nodes, i, k);
    }
  }

  /** Neither kind of list write touches a debug block's back pointer, at +4. */
  lemma InsertKeepsBacks(w: int -> int, w': int -> int, head: int, nodes: seq<int>, d: int, k: nat)
    requires Distinct(head, nodes + [d]) && k <= |nodes|
    requires forall x :: x % 4 == 0 ==> TailInserted(w, w', head, Link(head, nodes, |nodes|), d, x)
    ensures var b := (nodes + [d])[k]; w'(b + 4) == w(b + 4)
  {
    var b := (nodes + [d])[k];
    var tail := Link(head, nodes, |nodes|);
    assert nodes != [] ==> (nodes + [d])[|nodes| - 1] == nodes[|nodes| - 1];
    assert d == (nodes + [d])[|nodes|];
    BackApart(b, head, tail, d);
    assert TailInserted(w, w', head, tail, d, b + 4);
  }

  lemma Offset16(x: int, k: int)
    requires x % 16 == 0 && 0 <= k < 16
    ensures (x + k) % 16 == k && (k % 4 == 0 ==> (x + k) % 4 == 0)
  {
    assert x + k == 16 * (x / 16) + k;
  }

  lemma BackApart(b: int, head: int, tail: int, d: int)
    requires b % 16 == 0 && head % 16 == 0 && d % 16 == 0 && b != head && (tail % 16 == 0 || tail % 16 == 8)
    ensures (b + 4) % 4 == 0 && b + 4 != head + 4 && b + 4 != tail && b + 4 != d + 8 && b + 4 != d + 0xC
  {
    Offset16(b, 4);
    Offset16(d, 8);
    Offset16(d, 0xC);
  }

  lemma UnlinkKeepsBacks(w: int -> int, w': int -> int, head: int, nodes: seq<int>, i: nat, k: nat)
    requires Distinct(head, nodes) && i < |nodes| && k < |nodes|
    requires forall x :: x % 4 == 0 ==> LinkRemoved(w, w', Link(head, nodes, i + 2), Link(head, nodes, i), x)
    ensures w'(nodes[k] + 4) == w(nodes[k] + 4)
  {
    var flink, blink := Link(head, nodes, i + 2), Link(head, nodes, i);
    UnlinkApart(nodes[k], head, flink, blink);
    assert LinkRemoved(w, w', flink, blink, nodes[k] + 4);
  }

  lemma UnlinkApart(b: int, head: int, flink: int, blink: int)
    requires b % 16 == 0 && head % 16 == 0 && b != head && (flink == head || flink % 16 == 8)
    requires blink == head || blink % 16 == 8
    ensures (b + 4) % 4 == 0 && b + 4 != flink + 4 && b + 4 != blink
  {
    Offset16(b, 4);
  }

  // ---- The list in guest memory ----

  /** The 32-bit words of a memory. */
  function Words(m: Mem): int -> int {
    x => if 0 <= x && x + 4 <= |m| then Read32(m, x) else 0
  }

  lemma WordsWritten(m: Mem, a: int, v: int, x: int)
    requires 0 <= a && a + 4 <= |m| && 0 <= v < 0x1_0000_0000 && a % 4 == 0 && x % 4 == 0
    ensures Words(Written32(m, a, v))(x) == if x == a then v else Words(m)(x)
  {
    if 0 <= x && x + 4 <= |m| {
      if x == a { ReadBack(m, a, v); } else { ReadOther(m, a, v, x); }
    }
  }

  lemma StoredWord(m: Mem, m': Mem, a: int, v: int)
    requires 0 <= a && a + 4 <= |m| && 0 <= v < 0x1_0000_0000 && a % 4 == 0 && m' == Written32(m, a, v)
    ensures WordStored(Words(m), Words(m'), a, v)
  {
    forall x | x % 4 == 0 ensures Words(m')(x) == if x == a then v else Words(m)(x) {
      WordsWritten(m, a, v, x);
    }
  }

  /** The head and the debug blocks are distinct live blocks of their sizes. */
  predicate Members(live: map<int, int>, head: int, nodes: seq<int>) {
    && (head == 0 ==> nodes == [])
    && (head != 0 ==> head in live && live[head] == 8 && Distinct(head, nodes))
    && (forall k :: 0 <= k < |nodes| ==> nodes[k] in live && live[nodes[k]] == CS_DEBUG_SIZE)
  }

  /** The list is well formed and holds exactly the blocks `nodes`, in order. */
  ghost predicate ListOk(m: Mem, live: map<int, int>, head: int, nodes: seq<int>) {
    Members(live, head, nodes) && (head != 0 ==> Ring(Words(m), head, nodes))
  }

  predicate OnList(head: int, nodes: seq<int>, b: int) {
    b == head || b in nodes
  }

  /** No byte of the list's blocks differs. */
  ghost predicate ListUntouched(m: Mem, m': Mem, live: map<int, int>, head: int, nodes: seq<int>) {
    && |m| == |m'|
    && forall b, x :: b in live && OnList(head, nodes, b) && b <= x < b + live[b] && 0 <= x < |m| ==> m'[x] == m[x]
  }

  /** Blocks lie inside the arena. */
  predicate Placed(live: map<int, int>) {
    forall a :: a in live ==> a % 16 == 0 && HEAP_BASE <= a && a + live[a] <= THREAD_STACK_BASE
  }

  lemma SafeIsPlaced(h: Heap)
    requires Safe(h)
    ensures Placed(h.live)
  {
    forall a | a in h.live ensures a % 16 == 0 && HEAP_BASE <= a && a + h.live[a] <= THREAD_STACK_BASE {
      assert InArena(Block(a, h.live[a]), h.next);
      LiveWithin(h, a);
    }
  }

  /** The debug blocks still know their sections. */
  ghost predicate BacksKept(m: Mem, m': Mem, nodes: seq<int>) {
    forall k :: 0 <= k < |nodes| ==> Words(m')(nodes[k] + 4) == Words(m)(nodes[k] + 4)
  }

  lemma BacksOn(m: Mem, m1: Mem, m2: Mem, nodes: seq<int>, more: seq<int>)
    requires BacksKept(m, m1, nodes) && BacksKept(m1, m2, more)
    requires forall k :: 0 <= k < |nodes| ==> nodes[k] in more
    ensures BacksKept(m, m2, nodes)
  {
    forall k | 0 <= k < |nodes| ensures Words(m2)(nodes[k] + 4) == Words(m)(nodes[k] + 4) {
      var j :| 0 <= j < |more| && more[j] == nodes[k];
      assert Words(m2)(more[j] + 4) == Words(m1)(more[j] + 4);
    }
  }

  /** A debug block that belongs to the client's own blocks, not yet on the list. */
  lemma OneMoreBack(m: Mem, m': Mem, nodes: seq<int>, d: int)
    requires BacksKept(m, m', nodes) && Words(m')(d + 4) == Words(m)(d + 4)
    ensures BacksKept(m, m', nodes + [d])
  {
  }

  lemma UntouchedBacks(m: Mem, m': Mem, live: map<int, int>, head: int, nodes: seq<int>)
    requires Members(live, head, nodes) && Placed(live) && THREAD_STACK_BASE <= |m|
    requires ListUntouched(m, m', live, head, nodes)
    ensures BacksKept(m, m', nodes)
  {
    forall k | 0 <= k < |nodes| ensures Words(m')(nodes[k] + 4) == Words(m)(nodes[k] + 4) {
      assert OnList(head, nodes, nodes[k]);
      ReadSame(m, m', nodes[k] + 4);
    }
  }

  lemma LinkWordsSame(m: Mem, m': Mem, live: map<int, int>, head: int, nodes: seq<int>, k: int)
    requires Members(live, head, nodes) && head != 0 && Placed(live) && THREAD_STACK_BASE <= |m|
    requires ListUntouched(m, m', live, head, nodes)
    ensures var a := Link(head, nodes, k); Words(m')(a) == Words(m)(a) && Words(m')(a + 4) == Words(m)(a + 4)
  {
    var a := Link(head, nodes, k);
    var b := if 1 <= k <= |nodes| then nodes[k - 1] else head;
    assert OnList(head, nodes, b) && b in live && b <= a && a + 8 <= b + live[b];
    ReadSame(m, m', a);
    ReadSame(m, m', a + 4);
  }

  lemma ListUntouchedOk(m: Mem, m': Mem, live: map<int, int>, live': map<int, int>, head: int, nodes: seq<int>)
    requires ListOk(m, live, head, nodes) && Placed(live) && THREAD_STACK_BASE <= |m|
    requires ListUntouched(m, m', live, head, nodes)
    requires forall b :: b in live && OnList(head, nodes, b) ==> b in live' && live'[b] == live[b]
    ensures ListOk(m', live', head, nodes)
  {
    if head != 0 {
      forall k | 0 <= k <= |nodes| ensures Linked(Words(m'), head, nodes, k) {
        assert Linked(Words(m), head, nodes, k);
        LinkWordsSame(m, m', live, head, nodes, k);
        LinkWordsSame(m, m', live, head, nodes, k + 1);
      }
    }
  }

  // ---- The client's memory ----

  /** The live blocks that are not part of the list. */
  function ClientBlocks(live: map<int, int>, head: int, nodes: seq<int>): map<int, int> {
    map b | b in live && !OnList(head, nodes, b) :: live[b]
  }

  /** The blocks of c are among those of d. */
  predicate Within(c: map<int, int>, d: map<int, int>) {
    forall b :: b in c ==> b in d && d[b] == c[b]
  }

  /** Memory the owner of the blocks c may write: outside the arena, or in a block. */
  predicate Owned(c: map<int, int>, addr: int, len: int) {
    || addr + len <= HEAP_BASE || addr >= THREAD_STACK_BASE
    || exists b :: b in c && b <= addr && addr + len <= b + c[b]
  }

  /** Nothing outside the arena and no byte of the blocks c differs, except possibly
      inside [addr, addr + len). */
  ghost predicate Untouched(m: Mem, m': Mem, c: map<int, int>, addr: int, len: int) {
    && |m| == |m'|
    && (forall x :: 0 <= x < |m| && (x < HEAP_BASE || x >= THREAD_STACK_BASE) && !(addr <= x < addr + len) ==>
        m'[x] == m[x])
    && (forall b, x :: b in c && b <= x < b + c[b] && 0 <= x < |m| && !(addr <= x < addr + len) ==> m'[x] == m[x])
  }

  /** Only bytes of [addr, addr + len) differ. */
  ghost predicate OnlyIn(m: Mem, m': Mem, addr: int, len: int) {
    |m| == |m'| && forall x :: 0 <= x < |m| && !(addr <= x < addr + len) ==> m'[x] == m[x]
  }

  /** A block of the arena that meets no live block. */
  ghost predicate Fresh(live: map<int, int>, addr: int, size: int) {
    addr !in live && HEAP_BASE <= addr && addr + size <= THREAD_STACK_BASE && OthersApart(live, addr, size)
  }

  lemma OwnedWithin(c: map<int, int>, d: map<int, int>, addr: int, len: int)
    requires Within(c, d) && Owned(c, addr, len)
    ensures Owned(d, addr, len)
  {
  }

  lemma UntouchedOn(m: Mem, m1: Mem, m2: Mem, c: map<int, int>, addr: int, len: int)
    requires Untouched(m, m1, c, 0, 0) && Untouched(m1, m2, c, addr, len)
    ensures Untouched(m, m2, c, addr, len)
  {
  }

  lemma OnlyInUntouched(m: Mem, m': Mem, c: map<int, int>, addr: int, len: int)
    requires OnlyIn(m, m', addr, len)
    ensures Untouched(m, m', c, addr, len)
  {
  }

  /** Writing a fresh block touches neither the client nor the list. */
  lemma FreshUntouched(m: Mem, m': Mem, live: map<int, int>, head: int, nodes: seq<int>, c: map<int, int>, addr: int,
                       size: int)
    requires Fresh(live, addr, size) && OnlyIn(m, m', addr, size) && Within(c, live)
    ensures Untouched(m, m', c, 0, 0) && ListUntouched(m, m', live, head, nodes)
  {
  }

  /** A new block, even on the list, takes nothing from the client. */
  lemma StillClient(live: map<int, int>, head: int, nodes: seq<int>, c: map<int, int>,
                    addr: int, size: int, head': int, nodes': seq<int>)
    requires Within(c, ClientBlocks(live, head, nodes)) && addr !in live
    requires forall b :: OnList(head', nodes', b) ==> OnList(head, nodes, b) || b == addr
    ensures Within(c, ClientBlocks(live[addr := size], head', nodes')) && addr !in c && Within(c, live)
  {
  }

  lemma ClientWriteMissesList(h: Heap, m: Mem, m': Mem, head: int, nodes: seq<int>, addr: int, len: int)
    requires Safe(h) && Owned(ClientBlocks(h.live, head, nodes), addr, len)
    requires OnlyIn(m, m', addr, len)
    ensures ListUntouched(m, m', h.live, head, nodes)
  {
    SafeIsPlaced(h);
    var c := ClientBlocks(h.live, head, nodes);
    if !(addr + len <= HEAP_BASE || addr >= THREAD_STACK_BASE) {
      var b :| b in c && b <= addr && addr + len <= b + c[b];
      OthersOutside(h, b);
    }
  }
}
