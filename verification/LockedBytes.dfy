/** File locks byte by byte: who holds which byte of which file. */
module LockedBytes {
  import opened FileLocks

  predicate Covers(l: Lock, x: nat) {
    l.start <= x < l.end
  }

  /** Byte x of a file is locked through handle h. */
  ghost predicate HoldsByte(t: Table, path: string, h: nat, x: nat) {
    exists l :: l in LocksOn(t, path) && l.handle == h && Covers(l, x)
  }

  /** In every run no byte of a file is locked through two handles, and only through
      handles that are open on that file. */
  lemma OneHolder(actions: seq<Action>, path: string, g: nat, h: nat, x: nat)
    ensures var t := Run(START, actions);
      && (HoldsByte(t, path, g, x) && HoldsByte(t, path, h, x) ==> g == h)
      && (HoldsByte(t, path, h, x) ==> h in t.paths && t.paths[h] == path)
  {
    var t := Run(START, actions);
    LocksNeverConflict(actions, path);
    var locks := LocksOn(t, path);
    hide Run;
    if HoldsByte(t, path, g, x) && HoldsByte(t, path, h, x) {
      var a :| a in locks && a.handle == g && Covers(a, x);
      var b :| b in locks && b.handle == h && Covers(b, x);
      var j :| 0 <= j < |locks| && locks[j] == a;
      var k :| 0 <= k < |locks| && locks[k] == b;
      assert g != h ==> Conflicts(locks[j], locks[k]) && Conflicts(locks[k], locks[j]);
    }
  }

  /** Two ranges have a byte in common, or one is empty and inside the other. */
  ghost predicate Meets(a: Lock, start: nat, length: nat) {
    || (exists x: nat :: Covers(a, x) && start <= x < start + length)
    || (length == 0 && a.start < start < a.end)
    || (a.start == a.end && start < a.start < start + length)
  }

  lemma ConflictsIff(a: Lock, h: nat, start: nat, length: nat)
    requires a.start <= a.end
    ensures Conflicts(a, Lock(start, start + length, h)) <==> a.handle != h && Meets(a, start, length)
  {
    if Conflicts(a, Lock(start, start + length, h)) && length > 0 && a.start < a.end {
      var x := if a.start < start then start else a.start;
      assert Covers(a, x) && start <= x < start + length;
    }
  }

  /** Every range ends where it starts or after. */
  predicate Ordered(locks: seq<Lock>) {
    forall k :: 0 <= k < |locks| ==> locks[k].start <= locks[k].end
  }

  ghost predicate AllOrdered(t: Table) {
    forall path :: Ordered(LocksOn(t, path))
  }

  lemma StepOrdered(t: Table, a: Action)
    requires AllOrdered(t)
    ensures AllOrdered(Step(t, a))
  {
    var after := Step(t, a);
    forall path ensures Ordered(LocksOn(after, path)) {
      assert Ordered(LocksOn(t, path));
      if a.Close? { NotThroughIs(LocksOn(t, path), a.handle); }
    }
  }

  lemma {:induction false} RunOrdered(t: Table, actions: seq<Action>)
    requires AllOrdered(t)
    ensures AllOrdered(Run(t, actions))
    decreases |actions|
  {
    hide Step;
    if actions != [] {
      StepOrdered(t, actions[0]);
      RunOrdered(Step(t, actions[0]), actions[1..]);
    }
  }

  /** After any run, a lock through an open handle is granted exactly if its range
      meets none of another handle on that file. Then the handle holds the bytes of the
      range as well; otherwise nobody holds more or less than before. */
  lemma GrantedIff(actions: seq<Action>, h: nat, start: nat, length: nat)
    ensures var t := Run(START, actions);
      var (after, outcome) := Locked(t, h, start, length);
      && (outcome == InvalidHandle <==> h !in t.paths)
      && (outcome == Done <==>
            h in t.paths && forall l :: l in LocksOn(t, t.paths[h]) && l.handle != h ==> !Meets(l, start, length))
      && forall path, g, x: nat ::
           HoldsByte(after, path, g, x) <==>
             || HoldsByte(t, path, g, x)
             || (outcome == Done && g == h && path == t.paths[h] && start <= x < start + length)
  {
    var t := Run(START, actions);
    RunOrdered(START, actions);
    hide Run;
    if h in t.paths {
      var locks, l := LocksOn(t, t.paths[h]), Lock(start, start + length, h);
      assert Ordered(locks);
      forall k | 0 <= k < |locks|
        ensures Conflicts(locks[k], l) <==> locks[k].handle != h && Meets(locks[k], start, length)
      {
        ConflictsIff(locks[k], h, start, length);
      }
      hide Conflicts, Meets;
      HeldAfterLock(t, h, start, length);
    }
  }

  lemma HeldAfterLock(t: Table, h: nat, start: nat, length: nat)
    requires h in t.paths
    ensures var (after, outcome) := Locked(t, h, start, length);
      forall path, g, x: nat ::
        HoldsByte(after, path, g, x) <==>
          || HoldsByte(t, path, g, x)
          || (outcome == Done && g == h && path == t.paths[h] && start <= x < start + length)
  {
    var (after, outcome) := Locked(t, h, start, length);
    var locks, l := LocksOn(t, t.paths[h]), Lock(start, start + length, h);
    hide Free;
    forall path, g, x: nat
      ensures HoldsByte(after, path, g, x) <==>
        || HoldsByte(t, path, g, x)
        || (outcome == Done && g == h && path == t.paths[h] && start <= x < start + length)
    {
      if path == t.paths[h] && outcome == Done {
        var more := LocksOn(after, path);
        assert more == locks + [l];
        assert forall m :: m in more <==> m in locks || m == l;
      } else {
        assert LocksOn(after, path) == LocksOn(t, path);
      }
    }
  }

  /** After any run, closing a handle frees every byte locked through it and no
      other. */
  lemma CloseFrees(actions: seq<Action>, h: nat, path: string, g: nat, x: nat)
    ensures var t := Run(START, actions);
      HoldsByte(Closed(t, h), path, g, x) <==> g != h && HoldsByte(t, path, g, x)
  {
    var t := Run(START, actions);
    LocksNeverConflict(actions, path);
    hide Run;
    var locks, left := LocksOn(t, path), LocksOn(Closed(t, h), path);
    NotThroughIs(locks, h);
    if h in t.paths && path == t.paths[h] {
      assert left == NotThrough(locks, h);
    } else {
      assert left == locks;
    }
    assert forall l :: l in left <==> l in locks && l.handle != h;
    hide Closed, LocksOn;
  }
}
