/** The sections a program has initialised and not deleted: what memory and
    the list say of each, what a write or a deletion leaves of them, and the
    list after any events. */
module SectionRecords {
  import opened GuestMemory
  import opened LittleEndian
  import opened HeapModel
  import opened Lists
  import opened SectionList

  /** An initialised section: its structure and its debug block. It is live as long
      as its DebugInfo word has not been written or its memory freed. */
  datatype Record = Record(ptr: int, debug: int, live: bool)

  function Debugs(rs: seq<Record>): (ns: seq<int>)
    ensures |ns| == |rs| && forall k :: 0 <= k < |rs| ==> ns[k] == rs[k].debug
  {
    seq(|rs|, k requires 0 <= k < |rs| => rs[k].debug)
  }

  /** Where d is listed, |nodes| if it is not. */
  function PlaceOf(nodes: seq<int>, d: int): (i: nat)
    ensures i <= |nodes| && (i < |nodes| ==> nodes[i] == d)
  {
    if nodes == [] || nodes[0] == d then 0 else 1 + PlaceOf(nodes[1..], d)
  }

  lemma {:induction false} PlaceOfListed(nodes: seq<int>, d: int)
    ensures PlaceOf(nodes, d) < |nodes| <==> d in nodes
    decreases |nodes|
  {
    if nodes != [] && nodes[0] != d {
      PlaceOfListed(nodes[1..], d);
      assert nodes == [nodes[0]] + nodes[1..];
    }
  }

  /** [addr, addr + len) meets the record's DebugInfo word. */
  predicate Hits(r: Record, addr: int, len: int) {
    len > 0 && addr < r.ptr + 4 && r.ptr < addr + len
  }

  /** The records after [addr, addr + len) is written or freed. */
  function Lose(rs: seq<Record>, addr: int, len: int): (after: seq<Record>)
    ensures |after| == |rs| && Debugs(after) == Debugs(rs)
    ensures forall k :: 0 <= k < |rs| ==>
      after[k].ptr == rs[k].ptr && (after[k].live <==> rs[k].live && !Hits(rs[k], addr, len))
  {
    seq(|rs|, k requires 0 <= k < |rs| => if Hits(rs[k], addr, len) then rs[k].(live := false) else rs[k])
  }

  /** A live structure lies in the client's memory. */
  predicate InMemory(m: Mem, c: map<int, int>, ptr: int) {
    0 <= ptr && ptr + CS_SIZE <= |m| && Owned(c, ptr, CS_SIZE)
  }

  /** The debug block points back to its structure, which if live points to it. */
  ghost predicate Known(m: Mem, c: map<int, int>, r: Record) {
    Words(m)(r.debug + 4) == r.ptr && (r.live ==> InMemory(m, c, r.ptr) && Words(m)(r.ptr) == r.debug)
  }

  ghost predicate RecordsOk(m: Mem, c: map<int, int>, rs: seq<Record>) {
    forall k :: 0 <= k < |rs| ==> Known(m, c, rs[k])
  }

  /** A word of the client's memory that is not written stays. */
  lemma ClientWord(m: Mem, m': Mem, c: map<int, int>, addr: int, len: int, p: int)
    requires Untouched(m, m', c, addr, len) && InMemory(m, c, p) && (len <= 0 || addr + len <= p || p + 4 <= addr)
    ensures Words(m')(p) == Words(m)(p)
  {
    ReadSame(m, m', p);
  }

  lemma KnownStays(m: Mem, m': Mem, c: map<int, int>, c': map<int, int>, addr: int, len: int, r: Record, r': Record)
    requires Known(m, c, r) && Untouched(m, m', c, addr, len) && Within(c, c')
    requires r'.ptr == r.ptr && r'.debug == r.debug && (r'.live ==> r.live && !Hits(r, addr, len))
    requires Words(m')(r.debug + 4) == Words(m)(r.debug + 4)
    ensures Known(m', c', r')
  {
    if r'.live {
      ClientWord(m, m', c, addr, len, r.ptr);
      OwnedWithin(c, c', r.ptr, CS_SIZE);
    }
  }

  /** The records after a change confined to [addr, addr + len) and to what is not
      the client's. */
  lemma RecordsStay(m: Mem, m': Mem, c: map<int, int>, c': map<int, int>, addr: int, len: int, rs: seq<Record>)
    requires RecordsOk(m, c, rs) && Untouched(m, m', c, addr, len) && Within(c, c')
    requires BacksKept(m, m', Debugs(rs))
    ensures RecordsOk(m', c', Lose(rs, addr, len))
  {
    var after := Lose(rs, addr, len);
    forall k | 0 <= k < |rs| ensures Known(m', c', after[k]) {
      assert Words(m')(Debugs(rs)[k] + 4) == Words(m)(Debugs(rs)[k] + 4);
      assert after[k].debug == Debugs(after)[k];
      KnownStays(m, m', c, c', addr, len, rs[k], after[k]);
    }
  }

  lemma RecordAdded(m: Mem, c: map<int, int>, rs: seq<Record>, r: Record)
    requires RecordsOk(m, c, rs) && Known(m, c, r)
    ensures RecordsOk(m, c, rs + [r]) && Debugs(rs + [r]) == Debugs(rs) + [r.debug]
  {
    hide Known;
  }

  lemma RecordRemoved(m: Mem, c: map<int, int>, rs: seq<Record>, i: nat)
    requires RecordsOk(m, c, rs) && i < |rs|
    ensures RecordsOk(m, c, Without(rs, i)) && Debugs(Without(rs, i)) == Without(Debugs(rs), i)
  {
    hide Known;
  }

  /** A block leaves the client's memory, with the structures in it. */
  lemma BlockReleased(m: Mem, c: map<int, int>, rs: seq<Record>, addr: int)
    requires RecordsOk(m, c, rs) && addr in c
    ensures RecordsOk(m, c - {addr}, Lose(rs, addr, c[addr]))
  {
    var after := Lose(rs, addr, c[addr]);
    forall k | 0 <= k < |rs| ensures Known(m, c - {addr}, after[k]) {
      assert Known(m, c, rs[k]) && after[k].debug == Debugs(after)[k];
      if after[k].live { StillOwned(c, addr, rs[k].ptr); }
    }
  }

  lemma StillOwned(c: map<int, int>, addr: int, p: int)
    requires addr in c && Owned(c, p, CS_SIZE) && (c[addr] <= 0 || addr + c[addr] <= p || p + 4 <= addr)
    ensures Owned(c - {addr}, p, CS_SIZE)
  {
    if !(p + CS_SIZE <= HEAP_BASE || p >= THREAD_STACK_BASE) {
      var b :| b in c && b <= p && p + CS_SIZE <= b + c[b];
      assert b in c - {addr} && (c - {addr})[b] == c[b];
    }
  }

  // ---- What is left after a run ----

  datatype Event = Initialised(ptr: int, debug: int) | Deleted(debug: int) | Nothing

  function Forget(nodes: seq<int>, d: int): seq<int> {
    if nodes == [] then [] else (if nodes[0] == d then [] else [nodes[0]]) + Forget(nodes[1..], d)
  }

  predicate DeletedIn(events: seq<Event>, d: int) {
    exists k :: 0 <= k < |events| && events[k] == Deleted(d)
  }

  /** The debug blocks of the sections initialised and not deleted afterwards, in
      order of initialisation. */
  function Undeleted(events: seq<Event>): seq<int> {
    if events == [] then []
    else
      (if events[0].Initialised? && !DeletedIn(events[1..], events[0].debug) then [events[0].debug] else [])
      + Undeleted(events[1..])
  }

  lemma DeletedInMore(events: seq<Event>, e: Event, d: int)
    ensures DeletedIn(events + [e], d) <==> DeletedIn(events, d) || e == Deleted(d)
  {
    var more := events + [e];
    assert more[|events|] == e;
    if DeletedIn(events, d) {
      var k :| 0 <= k < |events| && events[k] == Deleted(d);
      assert more[k] == Deleted(d);
    }
    if DeletedIn(more, d) {
      var k :| 0 <= k < |more| && more[k] == Deleted(d);
      assert k < |events| ==> events[k] == Deleted(d);
    }
  }

  lemma {:induction false} ForgetJoin(a: seq<int>, b: seq<int>, d: int)
    ensures Forget(a + b, d) == Forget(a, d) + Forget(b, d)
    decreases |a|
  {
    if a == [] {
      assert a + b == b;
    } else {
      assert (a + b)[1..] == a[1..] + b;
      ForgetJoin(a[1..], b, d);
    }
  }

  /** What an event does to the listed blocks. */
  function After(nodes: seq<int>, e: Event): seq<int> {
    match e
    case Initialised(_, d) => nodes + [d]
    case Deleted(d) => Forget(nodes, d)
    case Nothing => nodes
  }

  /** What one more event does to the undeleted sections. */
  lemma {:induction false} OneMoreEvent(events: seq<Event>, e: Event)
    ensures Undeleted(events + [e]) == After(Undeleted(events), e)
    decreases |events|
  {
    if events == [] {
      assert events + [e] == [e] && [e][1..] == [];
    } else {
      var kept := events[0].Initialised? && !DeletedIn(events[1..], events[0].debug);
      var first := if kept then [events[0].debug] else [];
      assert (events + [e])[1..] == events[1..] + [e];
      OneMoreEvent(events[1..], e);
      if events[0].Initialised? { DeletedInMore(events[1..], e, events[0].debug); }
      if e.Deleted? { ForgetJoin(first, Undeleted(events[1..]), e.debug); }
    }
  }

  /** Blocks are distinct, so forgetting one takes out exactly its place. */
  lemma {:induction false} ForgetOne(nodes: seq<int>, i: nat)
    requires i < |nodes| && forall j, k :: 0 <= j < k < |nodes| ==> nodes[j] != nodes[k]
    ensures Forget(nodes, nodes[i]) == Without(nodes, i)
    decreases |nodes|
  {
    if i == 0 {
      ForgetNone(nodes[1..], nodes[0]);
    } else {
      ForgetOne(nodes[1..], i - 1);
    }
  }

  lemma {:induction false} ForgetNone(nodes: seq<int>, d: int)
    requires forall k :: 0 <= k < |nodes| ==> nodes[k] != d
    ensures Forget(nodes, d) == nodes
    decreases |nodes|
  {
    if nodes != [] { ForgetNone(nodes[1..], d); }
  }
}
