/** The handlers of kernel32_io.py for waits, mutexes and events: the handle and
    thread tables they update in place, each handler proved to be a step of Waits. */
module WaitHandlers {
  import opened Waits
  import opened Options

  lemma TakeTwice(o: Object, tid: nat)
    ensures Take(Take(o, tid), tid) == Take(o, tid)
  {
  }

  /** The handle and thread tables. The two counts are bookkeeping for the proof. */
  class Kernel {
    var handles: map<nat, nat>
    var objects: map<nat, Object>
    var next: nat
    var parked: map<nat, Parked>
    var expired: set<nat>
    ghost var signals: map<nat, nat>
    ghost var consumed: map<nat, nat>

    ghost function Snapshot(): State
      reads this
    {
      State(handles, objects, next, parked, expired, signals, consumed)
    }

    constructor ()
      ensures Snapshot() == START
    {
      handles, objects, next, parked, expired, signals, consumed := map[], map[], 1, map[], {}, map[], map[];
    }

    /** Times out if the deadline passed, else blocks on these handles. */
    method NotReady(tid: nat, w: Wait, on: set<nat>) returns (r: Result)
      requires WellFormed(Snapshot()) && tid !in parked && on == HandleSet(w) && !Possible(Snapshot(), tid, w)
      modifies this
      ensures WaitStep(old(Snapshot()), Snapshot(), tid, w, r)
    {
      if tid in expired {
        expired := expired - {tid};
        return TimedOut;
      }
      parked := parked[tid := Parked(w, on)];
      r := Blocked;
    }

    method WaitForSingle(tid: nat, h: nat) returns (r: Result)
      requires WellFormed(Snapshot()) && tid !in parked
      modifies this
      ensures WaitStep(old(Snapshot()), Snapshot(), tid, Single(h), r)
    {
      ghost var s := Snapshot();
      if h !in handles {
        assert Acquire(s, tid, Ids(s, {h})) == s;
        return Satisfied(0);
      }
      var id := handles[h];
      var obj := objects[id];
      if obj.Mutex? && obj.owner == Some(tid) {
        objects := objects[id := obj.(recursion := obj.recursion + 1)];
        return Satisfied(0);
      }
      if Ready(obj) {
        TakeOne(tid, id);
        return Satisfied(0);
      }
      r := NotReady(tid, Single(h), {h});
    }

    /** Takes one ready object: a mutex for tid, an auto-reset event for good. */
    method TakeOne(tid: nat, id: nat)
      requires WellFormed(Snapshot()) && id in objects
      modifies this
      ensures Snapshot() == Acquire(old(Snapshot()), tid, {id})
    {
      ghost var s := Snapshot();
      var obj := objects[id];
      if obj.Event? && !obj.manual {
        objects := objects[id := Event(false, false)];
      }
      if obj.Mutex? {
        objects := objects[id := Mutex(true, Some(tid), 1, obj.name)];
      }
      consumed := Acquire(s, tid, {id}).consumed;
      assert objects == Acquire(s, tid, {id}).objects;
      assert Snapshot() == s.(objects := objects, consumed := consumed);
    }

    /** The wait for any: the first available handle decides. */
    method WaitForAny(tid: nat, hs: seq<nat>) returns (r: Result)
      requires WellFormed(Snapshot()) && tid !in parked
      modifies this
      ensures WaitStep(old(Snapshot()), Snapshot(), tid, Any(hs), r)
    {
      ghost var s := Snapshot();
      for i := 0 to |hs|
        invariant Snapshot() == s
        invariant forall j :: 0 <= j < i ==> !Available(s, hs[j])
      {
        var h := hs[i];
        if h !in handles {
          assert Acquire(s, tid, Ids(s, {h})) == s;
          return Satisfied(i);
        }
        if Ready(objects[handles[h]]) {
          TakeOne(tid, handles[h]);
          assert Ids(s, {h}) == {s.handles[h]};
          return Satisfied(i);
        }
      }
      var on := CollectHandles(hs);
      r := NotReady(tid, Any(hs), on);
    }

    method CollectHandles(hs: seq<nat>) returns (on: set<nat>)
      ensures on == Elements(hs)
    {
      on := {};
      for i := 0 to |hs|
        invariant on == Elements(hs[..i])
      {
        ElementsMore(hs, i);
        on := on + {hs[i]};
      }
      assert hs[..|hs|] == hs;
    }

    /** The wait for all: a first pass that looks, a second that takes. */
    method WaitForAll(tid: nat, hs: seq<nat>) returns (r: Result)
      requires WellFormed(Snapshot()) && tid !in parked
      modifies this
      ensures WaitStep(old(Snapshot()), Snapshot(), tid, All(hs), r)
    {
      ghost var s := Snapshot();
      var allReady := true;
      for i := 0 to |hs|
        invariant Snapshot() == s
        invariant allReady && forall j :: 0 <= j < i ==> Available(s, hs[j])
      {
        if hs[i] in handles && !Ready(objects[handles[hs[i]]]) {
          allReady := false;
          assert !Available(s, hs[i]);
          break;
        }
      }
      if allReady {
        TakeAll(tid, hs);
        return Satisfied(0);
      }
      var on := CollectHandles(hs);
      r := NotReady(tid, All(hs), on);
    }

    method TakeAll(tid: nat, hs: seq<nat>)
      requires WellFormed(Snapshot())
      modifies this
      ensures Snapshot() == Acquire(old(Snapshot()), tid, Ids(old(Snapshot()), HandleSet(All(hs))))
    {
      ghost var s := Snapshot();
      for i := 0 to |hs|
        invariant Snapshot() == s.(objects := objects)
        invariant objects.Keys == s.objects.Keys
        invariant forall id :: id in s.objects ==>
          objects[id] == if id in Ids(s, Elements(hs[..i])) then Take(s.objects[id], tid) else s.objects[id]
      {
        ghost var done := Elements(hs[..i]);
        ElementsMore(hs, i);
        var h := hs[i];
        if h in handles {
          var id := handles[h];
          TakeTwice(s.objects[id], tid);
          assert Ids(s, done + {h}) == Ids(s, done) + {id};
          var obj := objects[id];
          if obj.Event? && !obj.manual {
            objects := objects[id := Event(false, false)];
          }
          if obj.Mutex? {
            objects := objects[id := Mutex(true, Some(tid), 1, obj.name)];
          }
        } else {
          assert Ids(s, done + {h}) == Ids(s, done);
        }
      }
      assert hs[..|hs|] == hs;
      ghost var ids := Ids(s, HandleSet(All(hs)));
      assert objects == Acquire(s, tid, ids).objects;
      consumed := Acquire(s, tid, ids).consumed;
    }

    /** The first handle in the table to a mutex of that name; the table lists
        handles in the order they were given out. */
    method FindNamed(name: string) returns (found: Option<nat>)
      requires WellFormed(Snapshot()) && name != ""
      ensures found.Some? ==> Opens(Snapshot(), name, found.value)
      ensures found.None? ==> forall k :: k in handles ==> !Named(Snapshot(), name, k)
    {
      for h := 0 to next
        invariant forall k: nat :: k < h ==> !Named(Snapshot(), name, k)
      {
        if h in handles && objects[handles[h]].Mutex? && objects[handles[h]].name == name {
          return Some(h);
        }
      }
      found := None;
    }

    /** CreateMutexA. A name that exists already opens that mutex, which this call does
        not own, and `existed` stands for ERROR_ALREADY_EXISTS. */
    method CreateMutex(tid: nat, owned: bool, name: string) returns (h: nat, existed: bool)
      requires WellFormed(Snapshot())
      modifies this
      ensures Step(old(Snapshot()), NewMutex(tid, owned, name, h), Snapshot())
      ensures existed <==> Opens(old(Snapshot()), name, h)
    {
      if name != "" {
        var found := FindNamed(name);
        if found.Some? {
          return found.value, true;
        }
      }
      h := Create(NewMutexObject(tid, owned, name));
      existed := false;
    }

    /** OpenMutexA; None stands for ERROR_FILE_NOT_FOUND. */
    method OpenMutex(name: string) returns (found: Option<nat>)
      requires WellFormed(Snapshot())
      ensures found.Some? ==> Opens(Snapshot(), name, found.value)
      ensures found.None? <==> forall k :: k in handles ==> !Opens(Snapshot(), name, k)
    {
      if name == "" {
        return None;
      }
      found := FindNamed(name);
    }

    method CreateEvent(manual: bool, signaled: bool) returns (h: nat)
      requires WellFormed(Snapshot())
      modifies this
      ensures Step(old(Snapshot()), NewEvent(manual, signaled), Snapshot()) && h == old(next)
    {
      h := Create(Event(signaled, manual));
    }

    method Create(o: Object) returns (h: nat)
      modifies this
      ensures Snapshot() == Created(old(Snapshot()), o) && h == old(next)
    {
      h := next;
      next := next + 1;
      handles := handles[h := h];
      objects := objects[h := o];
      signals := signals[h := if o.Event? && o.signaled then 1 else 0];
      consumed := consumed[h := 0];
    }

    method ReleaseMutex(tid: nat, h: nat)
      requires WellFormed(Snapshot())
      modifies this
      ensures Step(old(Snapshot()), Release(tid, h), Snapshot())
    {
      if h in handles && objects[handles[h]].Mutex? {
        var id := handles[h];
        var left := objects[id].recursion - 1;
        objects := objects[id := objects[id].(recursion := left)];
        if left <= 0 {
          objects := objects[id := Freed(objects[id])];
          UnblockHandle(h);
        }
      }
    }

    /** unblock_handle, as the scheduler is assumed to do it. */
    method UnblockHandle(h: nat)
      modifies this
      ensures Snapshot() == old(Snapshot()).(parked := Unblock(old(parked), h))
    {
      parked := map t | t in parked && h !in parked[t].on :: parked[t];
    }

    method SetEvent(h: nat)
      requires WellFormed(Snapshot())
      modifies this
      ensures Step(old(Snapshot()), Set(h), Snapshot())
    {
      if h in handles && objects[handles[h]].Event? {
        var id := handles[h];
        objects := objects[id := objects[id].(signaled := true)];
        signals := signals[id := signals[id] + 1];
        UnblockHandle(h);
      }
    }

    method ResetEvent(h: nat)
      requires WellFormed(Snapshot())
      modifies this
      ensures Step(old(Snapshot()), Reset(h), Snapshot())
    {
      if h in handles && objects[handles[h]].Event? {
        objects := objects[handles[h] := objects[handles[h]].(signaled := false)];
      }
    }

    /** DuplicateHandle; with DUPLICATE_CLOSE_SOURCE it closes the source as well. */
    method DuplicateHandle(h: nat, closeSource: bool) returns (copy: nat)
      requires WellFormed(Snapshot())
      modifies this
      ensures copy == old(next)
      ensures Step(old(Snapshot()), Duplicate(h), Duplicated(old(Snapshot()), h))
      ensures if closeSource then Step(Duplicated(old(Snapshot()), h), Close(h), Snapshot())
        else Snapshot() == Duplicated(old(Snapshot()), h)
    {
      if h in handles {
        copy := next;
        next := next + 1;
        handles := handles[copy := handles[h]];
      } else {
        copy := Create(Event(true, true));
      }
      if closeSource {
        CloseHandle(h);
      }
    }

    method CloseHandle(h: nat)
      requires WellFormed(Snapshot())
      modifies this
      ensures Step(old(Snapshot()), Close(h), Snapshot())
    {
      handles := map k | k in handles && k != h :: handles[k];
    }
  }
}
