/** Byte-range file locks: LockFile, UnlockFile and CloseHandle. */
module FileLocks {
  import opened Lists

  /** Bytes start to end, locked through a handle. */
  datatype Lock = Lock(start: nat, end: nat, handle: nat)

  /** The open file handles with their paths, the locks on each path in the order
      they were taken, and the next handle number. */
  datatype Table = Table(paths: map<nat, string>, locks: map<string, seq<Lock>>, next: nat)

  datatype Outcome = Done | InvalidHandle | LockViolation | NotLocked

  function LocksOn(t: Table, path: string): seq<Lock> {
    if path in t.locks then t.locks[path] else []
  }

  /** The test of LockFile against one recorded range. */
  predicate Conflicts(a: Lock, b: Lock) {
    a.handle != b.handle && a.start < b.end && b.start < a.end
  }

  predicate Free(locks: seq<Lock>, l: Lock) {
    forall k :: 0 <= k < |locks| ==> !Conflicts(locks[k], l)
  }

  /** Where l is first recorded. */
  function FirstOf(locks: seq<Lock>, l: Lock): (i: nat)
    ensures i <= |locks| && (forall k :: 0 <= k < i ==> locks[k] != l) && (i < |locks| ==> locks[i] == l)
  {
    if locks == [] || locks[0] == l then 0 else 1 + FirstOf(locks[1..], l)
  }

  /** The locks not held through h. */
  function NotThrough(locks: seq<Lock>, h: nat): seq<Lock> {
    if locks == [] then []
    else if locks[0].handle == h then NotThrough(locks[1..], h)
    else [locks[0]] + NotThrough(locks[1..], h)
  }

  datatype Action = Open(path: string) | Duplicate(handle: nat) | LockRange(handle: nat, start: nat, length: nat)
                  | UnlockRange(handle: nat, start: nat, length: nat) | Close(handle: nat)

  function Locked(t: Table, h: nat, start: nat, length: nat): (Table, Outcome) {
    if h !in t.paths then (t, InvalidHandle)
    else
      var l := Lock(start, start + length, h);
      var locks := LocksOn(t, t.paths[h]);
      if Free(locks, l) then (t.(locks := t.locks[t.paths[h] := locks + [l]]), Done)
      else (t.(locks := t.locks[t.paths[h] := locks]), LockViolation)
  }

  function Unlocked(t: Table, h: nat, start: nat, length: nat): (Table, Outcome) {
    if h !in t.paths then (t, InvalidHandle)
    else
      var locks := LocksOn(t, t.paths[h]);
      var i := FirstOf(locks, Lock(start, start + length, h));
      if i < |locks| then (t.(locks := t.locks[t.paths[h] := Without(locks, i)]), Done) else (t, NotLocked)
  }

  function Closed(t: Table, h: nat): Table {
    if h !in t.paths then t
    else
      t.(paths := map k | k in t.paths && k != h :: t.paths[k],
         locks := if t.paths[h] in t.locks then t.locks[t.paths[h] := NotThrough(t.locks[t.paths[h]], h)] else t.locks)
  }

  function Step(t: Table, a: Action): Table {
    match a
    case Open(path) => t.(paths := t.paths[t.next := path], next := t.next + 1)
    case Duplicate(h) => if h in t.paths then t.(paths := t.paths[t.next := t.paths[h]], next := t.next + 1) else t
    case LockRange(h, start, length) => Locked(t, h, start, length).0
    case UnlockRange(h, start, length) => Unlocked(t, h, start, length).0
    case Close(h) => Closed(t, h)
  }

  function Run(t: Table, actions: seq<Action>): Table
    decreases |actions|
  {
    if actions == [] then t else Run(Step(t, actions[0]), actions[1..])
  }

  const START := Table(map[], map[], 1)

  // ---- What runs keep ----

  /** No two ranges of different handles conflict. */
  predicate Compatible(locks: seq<Lock>) {
    forall j, k :: 0 <= j < k < |locks| ==> !Conflicts(locks[j], locks[k])
  }

  /** Every range belongs to an open handle on that path. */
  predicate Owned(t: Table, path: string) {
    forall k :: 0 <= k < |LocksOn(t, path)| ==>
      var h := LocksOn(t, path)[k].handle; h in t.paths && t.paths[h] == path
  }

  ghost predicate Inv(t: Table) {
    && (forall h :: h in t.paths ==> h < t.next)
    && forall path :: Compatible(LocksOn(t, path)) && Owned(t, path)
  }

  lemma {:induction false} AllAndOnly(locks: seq<Lock>, h: nat, l: Lock)
    ensures multiset(NotThrough(locks, h))[l] == if l.handle == h then 0 else multiset(locks)[l]
    decreases |locks|
  {
    if locks != [] {
      AllAndOnly(locks[1..], h, l);
      assert locks == [locks[0]] + locks[1..];
    }
  }

  lemma {:induction false} NotThroughIs(locks: seq<Lock>, h: nat)
    ensures forall k :: 0 <= k < |NotThrough(locks, h)| ==>
      NotThrough(locks, h)[k].handle != h && NotThrough(locks, h)[k] in locks
    ensures forall l :: l in locks && l.handle != h ==> l in NotThrough(locks, h)
    ensures Compatible(locks) ==> Compatible(NotThrough(locks, h))
    decreases |locks|
  {
    if locks != [] {
      var rest := locks[1..];
      NotThroughIs(rest, h);
      var kept := NotThrough(rest, h);
      if Compatible(locks) {
        assert Compatible(rest);
        forall k | 0 <= k < |kept| ensures !Conflicts(locks[0], kept[k]) {
          var j :| 0 <= j < |rest| && rest[j] == kept[k];
          assert rest[j] == locks[j + 1];
        }
      }
    }
  }

  /** A table that differs from t only in the locks of one path. */
  lemma OnePathKeeps(t: Table, after: Table, path: string)
    requires Inv(t) && after.paths == t.paths && after.next == t.next
    requires forall p :: p != path ==> LocksOn(after, p) == LocksOn(t, p)
    requires Compatible(LocksOn(after, path)) && Owned(after, path)
    ensures Inv(after)
  {
    forall p ensures Compatible(LocksOn(after, p)) && Owned(after, p) {
      if p != path { assert Compatible(LocksOn(t, p)) && Owned(t, p); }
    }
  }

  lemma LockKeeps(t: Table, h: nat, start: nat, length: nat)
    requires Inv(t)
    ensures Inv(Locked(t, h, start, length).0)
  {
    if h in t.paths {
      var path, l := t.paths[h], Lock(start, start + length, h);
      var locks := LocksOn(t, path);
      var after := Locked(t, h, start, length).0;
      assert Compatible(locks) && Owned(t, path);
      if Free(locks, l) {
        assert LocksOn(after, path) == locks + [l];
        forall j, k | 0 <= j < k < |locks + [l]| ensures !Conflicts((locks + [l])[j], (locks + [l])[k]) {
          if k < |locks| { assert !Conflicts(locks[j], locks[k]); }
        }
      }
      OnePathKeeps(t, after, path);
    }
  }

  lemma UnlockKeeps(t: Table, h: nat, start: nat, length: nat)
    requires Inv(t)
    ensures Inv(Unlocked(t, h, start, length).0)
  {
    if h in t.paths {
      var path := t.paths[h];
      var locks := LocksOn(t, path);
      var i := FirstOf(locks, Lock(start, start + length, h));
      assert Compatible(locks) && Owned(t, path);
      if i < |locks| {
        var after := Unlocked(t, h, start, length).0;
        var rest := Without(locks, i);
        assert LocksOn(after, path) == rest;
        forall j, k | 0 <= j < k < |rest| ensures !Conflicts(rest[j], rest[k]) {
          assert !Conflicts(locks[if j < i then j else j + 1], locks[if k < i then k else k + 1]);
        }
        forall k | 0 <= k < |rest| ensures rest[k].handle in t.paths && t.paths[rest[k].handle] == path {
          assert rest[k] == locks[if k < i then k else k + 1];
        }
        OnePathKeeps(t, after, path);
      }
    }
  }

  lemma CloseKeeps(t: Table, h: nat)
    requires Inv(t)
    ensures Inv(Closed(t, h))
  {
    if h in t.paths {
      var after := Closed(t, h);
      forall path ensures Compatible(LocksOn(after, path)) && Owned(after, path) {
        var locks := LocksOn(t, path);
        assert Compatible(locks) && Owned(t, path);
        if path == t.paths[h] {
          NotThroughIs(locks, h);
          assert LocksOn(after, path) == NotThrough(locks, h);
        }
      }
    }
  }

  /** CloseHandle takes out all ranges of that handle, on whatever path, and no others. */
  lemma CloseTakesAllAndOnly(t: Table, h: nat, path: string, l: Lock)
    requires Inv(t)
    ensures multiset(LocksOn(Closed(t, h), path))[l] == if l.handle == h then 0 else multiset(LocksOn(t, path))[l]
  {
    assert Owned(t, path);
    if h in t.paths && path == t.paths[h] {
      AllAndOnly(LocksOn(t, path), h, l);
    }
  }

  lemma HandlesKeep(t: Table, a: Action)
    requires Inv(t) && (a.Open? || a.Duplicate?)
    ensures Inv(Step(t, a))
  {
    var after := Step(t, a);
    forall path ensures Compatible(LocksOn(after, path)) && Owned(after, path) {
      assert Compatible(LocksOn(t, path)) && Owned(t, path);
    }
  }

  lemma StepKeeps(t: Table, a: Action)
    requires Inv(t)
    ensures Inv(Step(t, a))
  {
    hide Inv, Locked, Unlocked, Closed;
    match a
    case Open(_) => HandlesKeep(t, a);
    case Duplicate(_) => HandlesKeep(t, a);
    case LockRange(h, start, length) => LockKeeps(t, h, start, length);
    case UnlockRange(h, start, length) => UnlockKeeps(t, h, start, length);
    case Close(h) => CloseKeeps(t, h);
  }

  lemma {:induction false} RunKeeps(t: Table, actions: seq<Action>)
    requires Inv(t)
    ensures Inv(Run(t, actions))
    decreases |actions|
  {
    hide Inv, Step;
    if actions != [] {
      StepKeeps(t, actions[0]);
      RunKeeps(Step(t, actions[0]), actions[1..]);
    }
  }

  /** In every run no two recorded ranges of different handles conflict, and every
      range belongs to a handle that is open on that path. */
  lemma LocksNeverConflict(actions: seq<Action>, path: string)
    ensures var t := Run(START, actions);
      Compatible(LocksOn(t, path)) && Owned(t, path)
  {
    RunKeeps(START, actions);
  }

  /** An unlock takes out exactly one matching range. */
  lemma UnlockTakesOne(t: Table, h: nat, start: nat, length: nat)
    requires h in t.paths
    ensures var before := LocksOn(t, t.paths[h]); var l := Lock(start, start + length, h);
      var (after, outcome) := Unlocked(t, h, start, length);
      && (outcome == Done <==> l in before)
      && multiset(LocksOn(after, t.paths[h]))
          == (if outcome == Done then multiset(before) - multiset{l} else multiset(before))
      && forall path :: path != t.paths[h] ==> LocksOn(after, path) == LocksOn(t, path)
  {
    var before, l := LocksOn(t, t.paths[h]), Lock(start, start + length, h);
    var i := FirstOf(before, l);
    if i < |before| { WithoutOne(before, i); }
  }

  lemma {:induction false} WithoutOne(locks: seq<Lock>, i: nat)
    requires i < |locks|
    ensures multiset(Without(locks, i)) == multiset(locks) - multiset{locks[i]}
    decreases i
  {
    assert locks == [locks[0]] + locks[1..];
    if i > 0 {
      WithoutOne(locks[1..], i - 1);
    }
  }

  // ---- The handlers ----

  class FileTable {
    var paths: map<nat, string>
    var locks: map<string, seq<Lock>>
    var next: nat

    function State(): Table
      reads this
    {
      Table(paths, locks, next)
    }

    constructor ()
      ensures State() == START
    {
      paths, locks, next := map[], map[], 1;
    }

    method LockFile(h: nat, start: nat, length: nat) returns (outcome: Outcome)
      modifies this
      ensures (State(), outcome) == Locked(old(State()), h, start, length)
    {
      if h !in paths { return InvalidHandle; }
      var path, end := paths[h], start + length;
      if path !in locks {
        locks := locks[path := []];
      }
      var held := locks[path];
      ghost var l := Lock(start, end, h);
      for i := 0 to |held|
        invariant forall k :: 0 <= k < i ==> !Conflicts(held[k], l)
      {
        if held[i].handle != h && start < held[i].end && held[i].start < end {
          assert Conflicts(held[i], l);
          assert locks == old(locks)[path := held];
          return LockViolation;
        }
      }
      locks := locks[path := held + [Lock(start, end, h)]];
      assert locks == old(locks)[path := held + [l]];
      outcome := Done;
    }

    method UnlockFile(h: nat, start: nat, length: nat) returns (outcome: Outcome)
      modifies this
      ensures (State(), outcome) == Unlocked(old(State()), h, start, length)
    {
      if h !in paths { return InvalidHandle; }
      var path, end := paths[h], start + length;
      var held := LocksOn(State(), path);
      for i := 0 to |held|
        invariant forall k :: 0 <= k < i ==> held[k] != Lock(start, end, h)
      {
        if held[i].handle == h && held[i].start == start && held[i].end == end {
          assert FirstOf(held, Lock(start, end, h)) == i;
          locks := locks[path := Without(held, i)];
          return Done;
        }
      }
      outcome := NotLocked;
    }

    method CloseHandle(h: nat)
      modifies this
      ensures State() == Closed(old(State()), h)
    {
      if h in paths && paths[h] in locks {
        var held := locks[paths[h]];
        var remaining: seq<Lock> := [];
        assert held[0..] == held;
        for i := 0 to |held|
          invariant remaining + NotThrough(held[i..], h) == NotThrough(held, h)
        {
          assert held[i..][0] == held[i] && held[i..][1..] == held[i + 1..];
          if held[i].handle != h {
            remaining := remaining + [held[i]];
          }
        }
        assert remaining == NotThrough(held, h);
        if |remaining| != |held| {
          locks := locks[paths[h] := remaining];
        } else {
          NothingDropped(held, h);
        }
      }
      paths := map k | k in paths && k != h :: paths[k];
    }
  }

  lemma {:induction false} NothingDropped(locks: seq<Lock>, h: nat)
    ensures |NotThrough(locks, h)| <= |locks|
    ensures |NotThrough(locks, h)| == |locks| ==> NotThrough(locks, h) == locks
    decreases |locks|
  {
    if locks != [] { NothingDropped(locks[1..], h); }
  }
}
