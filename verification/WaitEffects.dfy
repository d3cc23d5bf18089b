/** What each step does to each object, and when a wait is satisfied, on the objects alone. */
module WaitEffects {
  import opened Options
  import opened Waits

  predicate Names(s: State, h: nat, id: nat) {
    h in s.handles && s.handles[h] == id
  }

  /** The handles whose objects a satisfied wait takes. */
  function TakenHandles(w: Wait, i: nat): set<nat> {
    match w
    case Single(h) => {h}
    case Any(hs) => if i < |hs| then {hs[i]} else {}
    case All(hs) => set h | h in hs
  }

  /** The step is a satisfied wait that takes this object. */
  predicate TakenBy(s: State, a: Action, id: nat) {
    a.Waits? && a.result.Satisfied? && exists h :: h in TakenHandles(a.wait, a.result.index) && Names(s, h, id)
  }

  lemma IdsAre(s: State, hs: set<nat>, id: nat)
    ensures id in Ids(s, hs) <==> exists h :: h in hs && Names(s, h, id)
  {
  }

  // ---- Every object after every step ----

  /** An event is signaled afterwards exactly if it is set now, or was signaled and is
      neither reset nor, being auto-reset, taken by a wait. A manual-reset event is not
      unset by a wait. */
  lemma EventAfter(s: State, a: Action, after: State, id: nat)
    requires WellFormed(s) && Step(s, a, after) && id in s.objects && s.objects[id].Event?
    ensures id in after.objects && after.objects[id].Event? && after.objects[id].manual == s.objects[id].manual
    ensures after.objects[id].signaled <==>
      || (a.Set? && Names(s, a.handle, id))
      || (s.objects[id].signaled && !(a.Reset? && Names(s, a.handle, id))
          && (s.objects[id].manual || !TakenBy(s, a, id)))
  {
    if a.Waits? { TakenEvent(s, a.tid, a.wait, a.result, after, id); }
  }

  lemma TakenEvent(s: State, tid: nat, w: Wait, r: Result, after: State, id: nat)
    requires WellFormed(s) && WaitStep(s, after, tid, w, r) && id in s.objects && s.objects[id].Event?
    ensures id in after.objects
    ensures after.objects[id] ==
      if TakenBy(s, Waits(tid, w, r), id) && !s.objects[id].manual then Event(false, false) else s.objects[id]
  {
    if r.Satisfied? { IdsAre(s, TakenHandles(w, r.index), id); }
  }

  /** A mutex changes only when it is released, by whatever thread, or taken: counted
      down, or freed at the last count; or owned by the waiter once, or, if it waits
      for a mutex of its own alone, once more. */
  lemma MutexAfter(s: State, a: Action, after: State, id: nat)
    requires WellFormed(s) && Step(s, a, after) && id in s.objects && s.objects[id].Mutex?
    ensures id in after.objects
    ensures var o := s.objects[id];
      after.objects[id] ==
        if a.Release? && Names(s, a.handle, id) then
          if o.recursion <= 1 then Mutex(false, None, 0, o.name) else Mutex(o.locked, o.owner, o.recursion - 1, o.name)
        else if TakenBy(s, a, id) then
          if a.wait.Single? && o.owner == Some(a.tid) then Mutex(o.locked, o.owner, o.recursion + 1, o.name)
          else Mutex(true, Some(a.tid), 1, o.name)
        else o
  {
    if a.Waits? {
      TakenMutex(s, a.tid, a.wait, a.result, after, id);
    }
  }

  lemma TakenMutex(s: State, tid: nat, w: Wait, r: Result, after: State, id: nat)
    requires WellFormed(s) && WaitStep(s, after, tid, w, r) && id in s.objects && s.objects[id].Mutex?
    ensures id in after.objects
    ensures var o := s.objects[id];
      after.objects[id] ==
        if TakenBy(s, Waits(tid, w, r), id) then
          if w.Single? && o.owner == Some(tid) then Mutex(o.locked, o.owner, o.recursion + 1, o.name)
          else Mutex(true, Some(tid), 1, o.name)
        else o
  {
    if r.Satisfied? { IdsAre(s, TakenHandles(w, r.index), id); }
  }

  /** New objects come from creating and from duplicating an unknown handle, under a
      new handle, and are what was asked for. */
  lemma NewObject(s: State, a: Action, after: State, id: nat)
    requires WellFormed(s) && Step(s, a, after) && id !in s.objects && id in after.objects
    ensures id == s.next && after.next == s.next + 1 && Names(after, id, id)
    ensures a.NewEvent? || a.NewMutex? || a.Duplicate?
    ensures a.NewEvent? ==> after.objects[id] == Event(a.signaled, a.manual)
    ensures a.NewMutex? ==>
      after.objects[id] == Mutex(a.owned, if a.owned then Some(a.tid) else None, if a.owned then 1 else 0, a.name)
    ensures a.Duplicate? ==> a.handle !in s.handles && after.objects[id] == Event(true, true)
  {
    if a.Waits? {
      WaitMakesNoObject(s, a.tid, a.wait, a.result, after);
    } else if a.Release? || a.Set? || a.Reset? {
      SameObjects(s, a, after);
    }
    hide WaitStep, Opens, Named, Released, SetDone, ResetDone;
  }

  lemma WaitMakesNoObject(s: State, tid: nat, w: Wait, r: Result, after: State)
    requires WellFormed(s) && WaitStep(s, after, tid, w, r)
    ensures after.objects.Keys == s.objects.Keys && after.handles == s.handles && after.next == s.next
  {
    hide Possible, AnyAvailable, AllAvailable;
  }

  lemma SameObjects(s: State, a: Action, after: State)
    requires WellFormed(s) && Step(s, a, after) && (a.Release? || a.Set? || a.Reset?)
    ensures after.objects.Keys == s.objects.Keys
  {
    hide WaitStep, Opens, Named, Unblock;
  }

  /** Handles come from creating and duplicating, each under a new number, and go by
      closing; a duplicate names the same object, or the dummy event. */
  lemma HandlesAfter(s: State, a: Action, after: State)
    requires WellFormed(s) && Step(s, a, after)
    ensures forall h :: h in s.handles && !(a.Close? && h == a.handle) ==>
      h in after.handles && after.handles[h] == s.handles[h]
    ensures a.Close? ==> a.handle !in after.handles
    ensures forall h :: h in after.handles && h !in s.handles ==>
      h == s.next && (a.NewEvent? || a.NewMutex? || a.Duplicate?)
    ensures a.Duplicate? && a.handle in s.handles ==> Names(after, s.next, s.handles[a.handle])
  {
    if a.Waits? { WaitMakesNoObject(s, a.tid, a.wait, a.result, after); }
    hide WaitStep, Opens, Named, Unblock;
  }

  // ---- Who sleeps after every step ----

  /** A call that signals through a handle: setting an event, or the last release of a
      mutex. */
  predicate Signals(s: State, a: Action) {
    || (a.Set? && a.handle in s.handles && s.handles[a.handle] in s.objects && s.objects[s.handles[a.handle]].Event?)
    || (a.Release? && a.handle in s.handles && s.handles[a.handle] in s.objects
        && s.objects[s.handles[a.handle]].Mutex? && s.objects[s.handles[a.handle]].recursion <= 1)
  }

  /** A thread falls asleep by a wait that blocks, on all handles of that wait, and
      wakes up by a signal through one of them or when its time is up. */
  lemma SleepersAfter(s: State, a: Action, after: State, t: nat)
    requires WellFormed(s) && Step(s, a, after)
    ensures t in after.parked <==>
      || (a.Waits? && a.tid == t && a.result == Blocked)
      || (t in s.parked && a != Expire(t) && !(Signals(s, a) && a.handle in s.parked[t].on))
    ensures t in after.parked ==>
      after.parked[t] ==
        if a.Waits? && a.tid == t && a.result == Blocked then
          Parked(a.wait, if a.wait.Single? then {a.wait.handle} else set h | h in a.wait.handles)
        else s.parked[t]
    ensures t in after.expired <==>
      a == Expire(t) || (t in s.expired && !(a.Waits? && a.tid == t && a.result == TimedOut))
  {
    hide Opens, Named, Possible, Available, Acquire, Recurse;
    if a.Waits? {
      SleepersAfterWait(s, a.tid, a.wait, a.result, after, t);
    }
  }

  lemma SleepersAfterWait(s: State, tid: nat, w: Wait, r: Result, after: State, t: nat)
    requires WellFormed(s) && WaitStep(s, after, tid, w, r)
    ensures t in after.parked <==> (tid == t && r == Blocked) || t in s.parked
    ensures t in after.parked ==>
      after.parked[t] ==
        if tid == t && r == Blocked then Parked(w, if w.Single? then {w.handle} else set h | h in w.handles)
        else s.parked[t]
    ensures t in after.expired <==> t in s.expired && !(tid == t && r == TimedOut)
  {
    hide Possible, Available;
  }

  // ---- When a wait is satisfied ----

  /** Nobody owns the mutex, or the event is signaled. */
  predicate IsFree(o: Object) {
    (o.Mutex? && o.owner == None) || (o.Event? && o.signaled)
  }

  /** The handle is unknown or its object free. */
  predicate NoObstacle(s: State, h: nat) {
    h in s.handles ==> s.handles[h] in s.objects && IsFree(s.objects[s.handles[h]])
  }

  predicate MineAlready(s: State, h: nat, tid: nat) {
    && h in s.handles && s.handles[h] in s.objects && s.objects[s.handles[h]].Mutex?
    && s.objects[s.handles[h]].owner == Some(tid)
  }

  /** A wait for one is satisfied exactly if nothing stands in its way or the mutex is
      the waiter's own; for any exactly if nothing stands in the way of some handle,
      then with the least such index; for all exactly if nothing does of any. Else it
      times out or blocks, and no object changes. */
  lemma SatisfiedIff(s: State, after: State, tid: nat, w: Wait, r: Result)
    requires WellFormed(s) && WaitStep(s, after, tid, w, r)
    ensures w.Single? ==> (r.Satisfied? <==> NoObstacle(s, w.handle) || MineAlready(s, w.handle, tid))
    ensures w.Any? ==> (r.Satisfied? <==> exists i :: 0 <= i < |w.handles| && NoObstacle(s, w.handles[i]))
    ensures w.Any? && r.Satisfied? ==>
      && r.index < |w.handles| && NoObstacle(s, w.handles[r.index])
      && forall j :: 0 <= j < r.index ==> !NoObstacle(s, w.handles[j])
    ensures w.All? ==> (r.Satisfied? <==> forall i :: 0 <= i < |w.handles| ==> NoObstacle(s, w.handles[i]))
    ensures !w.Any? && r.Satisfied? ==> r.index == 0
    ensures !r.Satisfied? ==> after.objects == s.objects && after.handles == s.handles
    ensures r.TimedOut? <==> !r.Satisfied? && tid in s.expired
  {
    assert forall h :: Available(s, h) <==> NoObstacle(s, h);
    match w
    case Single(h) =>
    case Any(hs) =>
      assert forall i :: 0 <= i < |hs| ==> (Available(s, hs[i]) <==> NoObstacle(s, hs[i]));
    case All(hs) =>
      assert forall i :: 0 <= i < |hs| ==> (Available(s, hs[i]) <==> NoObstacle(s, hs[i]));
  }

  // ---- Runs ----

  /** No turn resets the event, through whatever handle. */
  ghost predicate NeverReset(s: State, turns: seq<Turn>, id: nat)
    decreases |turns|
  {
    turns != [] ==>
      && !(turns[0].action.Reset? && Names(s, turns[0].action.handle, id))
      && NeverReset(turns[0].after, turns[1..], id)
  }

  /** A signaled manual-reset event stays signaled until it is reset, however many
      waits it satisfies. */
  lemma {:induction false} ManualStaysSignaled(s: State, turns: seq<Turn>, id: nat)
    requires Inv(s) && Run(s, turns) && NeverReset(s, turns, id)
    requires id in s.objects && s.objects[id] == Event(true, true)
    ensures id in Last(s, turns).objects && Last(s, turns).objects[id] == Event(true, true)
    decreases |turns|
  {
    hide Step, Inv;
    if turns != [] {
      EventAfter(s, turns[0].action, turns[0].after, id);
      StepKeeps(s, turns[0].action, turns[0].after);
      ManualStaysSignaled(turns[0].after, turns[1..], id);
    }
  }
}
