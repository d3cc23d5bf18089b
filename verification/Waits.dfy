/** Mutexes, events and the wait functions, as steps of the whole kernel state. */
module Waits {
  import opened Options

  datatype Object =
    | Mutex(locked: bool, owner: Option<nat>, recursion: int, name: string)
    | Event(signaled: bool, manual: bool)

  /** WaitForSingleObject, or WaitForMultipleObjects for any or all. */
  datatype Wait = Single(handle: nat) | Any(handles: seq<nat>) | All(handles: seq<nat>)

  /** A blocked thread: the wait it retries and the handles it sleeps on. */
  datatype Parked = Parked(wait: Wait, on: set<nat>)

  /** Handles name objects, several possibly the same one. expired holds the threads
      whose wait timed out. signals and consumed count, for each object, the times
      it was signaled and the waits that used a signal up. */
  datatype State = State(handles: map<nat, nat>, objects: map<nat, Object>, next: nat,
                         parked: map<nat, Parked>, expired: set<nat>,
                         signals: map<nat, nat>, consumed: map<nat, nat>)

  datatype Result = Satisfied(index: nat) | TimedOut | Blocked

  /** Every handle names an object; new numbers are unused. */
  predicate WellFormed(s: State) {
    && (forall h :: h in s.handles ==> h < s.next && s.handles[h] in s.objects)
    && (forall id :: id in s.objects ==> id < s.next && id in s.signals && id in s.consumed)
  }

  predicate Ready(o: Object) {
    match o case Mutex(_, owner, _, _) => owner.None? case Event(signaled, _) => signaled
  }

  /** What a satisfied wait does to an object. */
  function Take(o: Object, tid: nat): Object {
    match o
    case Mutex(_, _, _, name) => Mutex(true, Some(tid), 1, name)
    case Event(signaled, manual) => Event(signaled && manual, manual)
  }

  /** Unknown handles count as ready. */
  predicate Available(s: State, h: nat)
    requires WellFormed(s)
  {
    h in s.handles ==> Ready(s.objects[s.handles[h]])
  }

  predicate OwnedBy(s: State, h: nat, tid: nat)
    requires WellFormed(s)
  {
    h in s.handles && s.objects[s.handles[h]].Mutex? && s.objects[s.handles[h]].owner == Some(tid)
  }

  predicate AnyAvailable(s: State, hs: seq<nat>)
    requires WellFormed(s)
  {
    exists i :: 0 <= i < |hs| && Available(s, hs[i])
  }

  predicate AllAvailable(s: State, hs: seq<nat>)
    requires WellFormed(s)
  {
    forall i :: 0 <= i < |hs| ==> Available(s, hs[i])
  }

  /** Whether a wait can be satisfied now. */
  predicate Possible(s: State, tid: nat, w: Wait)
    requires WellFormed(s)
  {
    match w
    case Single(h) => Available(s, h) || OwnedBy(s, h, tid)
    case Any(hs) => AnyAvailable(s, hs)
    case All(hs) => AllAvailable(s, hs)
  }

  /** The objects behind some handles. */
  function Ids(s: State, hs: set<nat>): set<nat> {
    set h | h in hs && h in s.handles :: s.handles[h]
  }

  /** tid takes these objects and no others. */
  function Acquire(s: State, tid: nat, ids: set<nat>): State
    requires WellFormed(s)
  {
    s.(objects := map id | id in s.objects :: if id in ids then Take(s.objects[id], tid) else s.objects[id],
       consumed := map id | id in s.consumed ::
         if id in ids && id in s.objects && s.objects[id].Event? && !s.objects[id].manual then s.consumed[id] + 1
         else s.consumed[id])
  }

  function Recurse(s: State, h: nat): State
    requires WellFormed(s) && h in s.handles && s.objects[s.handles[h]].Mutex?
  {
    var o := s.objects[s.handles[h]];
    s.(objects := s.objects[s.handles[h] := o.(recursion := o.recursion + 1)])
  }

  function Elements(hs: seq<nat>): set<nat> {
    set h | h in hs
  }

  lemma ElementsMore(hs: seq<nat>, i: nat)
    requires i < |hs|
    ensures Elements(hs[..i + 1]) == Elements(hs[..i]) + {hs[i]}
  {
    assert hs[..i + 1] == hs[..i] + [hs[i]];
  }

  function HandleSet(w: Wait): set<nat> {
    match w
    case Single(h) => {h}
    case Any(hs) => Elements(hs)
    case All(hs) => Elements(hs)
  }

  /** What a wait by tid does: satisfied exactly when it is possible, for any at the
      least index, for all with every object at once; otherwise nothing but timing
      out or blocking. */
  predicate WaitStep(s: State, after: State, tid: nat, w: Wait, r: Result)
    requires WellFormed(s)
  {
    && tid !in s.parked
    && match r
       case Satisfied(i) => (
         match w
         case Single(h) =>
           i == 0 && Possible(s, tid, w) && after
             == if OwnedBy(s, h, tid) then Recurse(s, h) else Acquire(s, tid, Ids(s, {h}))
         case Any(hs) =>
           && i < |hs| && Available(s, hs[i]) && (forall j :: 0 <= j < i ==> !Available(s, hs[j]))
           && after == Acquire(s, tid, Ids(s, {hs[i]}))
         case All(hs) =>
           i == 0 && Possible(s, tid, w) && after == Acquire(s, tid, Ids(s, HandleSet(w)))
       )
       case TimedOut => !Possible(s, tid, w) && tid in s.expired && after == s.(expired := s.expired - {tid})
       case Blocked =>
         && !Possible(s, tid, w) && tid !in s.expired
         && after == s.(parked := s.parked[tid := Parked(w, HandleSet(w))])
  }

  /** unblock_handle: every thread sleeping on h runs again. */
  function Unblock(parked: map<nat, Parked>, h: nat): map<nat, Parked> {
    map t | t in parked && h !in parked[t].on :: parked[t]
  }

  /** The calls, with the thread that makes them where its identity could matter. */
  datatype Action =
    | Waits(tid: nat, wait: Wait, result: Result)
    | Release(tid: nat, handle: nat)
    | Set(handle: nat)
    | Reset(handle: nat)
    | NewMutex(tid: nat, owned: bool, name: string, handle: nat)
    | NewEvent(manual: bool, signaled: bool)
    | Duplicate(handle: nat)
    | Close(handle: nat)
    | Expire(tid: nat)

  function Freed(o: Object): Object
    requires o.Mutex?
  {
    Mutex(false, None, 0, o.name)
  }

  function NewMutexObject(tid: nat, owned: bool, name: string): Object {
    if owned then Mutex(true, Some(tid), 1, name) else Mutex(false, None, 0, name)
  }

  predicate Named(s: State, name: string, h: nat)
    requires WellFormed(s)
  {
    h in s.handles && s.objects[s.handles[h]].Mutex? && s.objects[s.handles[h]].name == name
  }

  /** h is the handle a name opens: the first in the table, which lists handles in
      the order they were given out. */
  predicate Opens(s: State, name: string, h: nat)
    requires WellFormed(s)
  {
    name != "" && Named(s, name, h) && forall k: nat :: k < h ==> !Named(s, name, k)
  }

  function Released(s: State, h: nat): State
    requires WellFormed(s)
  {
    if h !in s.handles || s.objects[s.handles[h]].Event? then s
    else
      var id := s.handles[h];
      var left := s.objects[id].recursion - 1;
      if left <= 0 then s.(objects := s.objects[id := Freed(s.objects[id])], parked := Unblock(s.parked, h))
      else s.(objects := s.objects[id := s.objects[id].(recursion := left)])
  }

  function SetDone(s: State, h: nat): State
    requires WellFormed(s)
  {
    if h !in s.handles || s.objects[s.handles[h]].Mutex? then s
    else
      var id := s.handles[h];
      s.(objects := s.objects[id := s.objects[id].(signaled := true)], parked := Unblock(s.parked, h),
         signals := s.signals[id := s.signals[id] + 1])
  }

  function ResetDone(s: State, h: nat): State
    requires WellFormed(s)
  {
    if h !in s.handles || s.objects[s.handles[h]].Mutex? then s
    else s.(objects := s.objects[s.handles[h] := s.objects[s.handles[h]].(signaled := false)])
  }

  /** A new object under a new handle. */
  function Created(s: State, o: Object): State {
    s.(handles := s.handles[s.next := s.next], objects := s.objects[s.next := o], next := s.next + 1,
       signals := s.signals[s.next := if o.Event? && o.signaled then 1 else 0], consumed := s.consumed[s.next := 0])
  }

  /** DuplicateHandle: a second handle to the object, or a dummy event that is
      always signaled for a handle not known. */
  function Duplicated(s: State, h: nat): State {
    if h in s.handles then s.(handles := s.handles[s.next := s.handles[h]], next := s.next + 1)
    else Created(s, Event(true, true))
  }

  function Closed(s: State, h: nat): State {
    s.(handles := map k | k in s.handles && k != h :: s.handles[k])
  }

  predicate Step(s: State, a: Action, after: State)
    requires WellFormed(s)
  {
    match a
    case Waits(tid, w, r) => WaitStep(s, after, tid, w, r)
    case Release(_, h) => after == Released(s, h)
    case Set(h) => after == SetDone(s, h)
    case Reset(h) => after == ResetDone(s, h)
    case NewMutex(tid, owned, name, h) =>
      || (Opens(s, name, h) && after == s)
      || ((name == "" || forall k :: k in s.handles ==> !Named(s, name, k))
          && h == s.next && after == Created(s, NewMutexObject(tid, owned, name)))
    case NewEvent(manual, signaled) => after == Created(s, Event(signaled, manual))
    case Duplicate(h) => after == Duplicated(s, h)
    case Close(h) => after == Closed(s, h)
    case Expire(t) =>
      t in s.parked
      && after == s.(parked := map k | k in s.parked && k != t :: s.parked[k], expired := s.expired + {t})
  }

  // ---- What every step keeps ----

  /** Unowned, recursion 0 and unlocked go together. */
  predicate MutexConsistent(o: Object) {
    o.Mutex? ==> o.recursion >= 0 && (o.owner.None? <==> o.recursion == 0) && (o.locked <==> o.owner.Some?)
  }

  /** The signals of an auto-reset event cover what was consumed and the one pending. */
  predicate SignalsCover(s: State, id: nat)
    requires WellFormed(s) && id in s.objects
  {
    s.objects[id].Event? && !s.objects[id].manual ==>
      s.consumed[id] + (if s.objects[id].signaled then 1 else 0) <= s.signals[id]
  }

  predicate Inv(s: State) {
    && WellFormed(s)
    && forall id :: id in s.objects ==> MutexConsistent(s.objects[id]) && SignalsCover(s, id)
  }

  lemma AcquireKeeps(s: State, tid: nat, ids: set<nat>)
    requires Inv(s) && forall id :: id in ids ==> id in s.objects && Ready(s.objects[id])
    ensures Inv(Acquire(s, tid, ids))
  {
    var t := Acquire(s, tid, ids);
    forall id | id in t.objects ensures MutexConsistent(t.objects[id]) && SignalsCover(t, id) {
      assert MutexConsistent(s.objects[id]) && SignalsCover(s, id);
    }
  }

  lemma IdsAreReady(s: State, hs: set<nat>)
    requires WellFormed(s) && forall h :: h in hs ==> Available(s, h)
    ensures forall id :: id in Ids(s, hs) ==> id in s.objects && Ready(s.objects[id])
  {
  }

  lemma WaitKeeps(s: State, after: State, tid: nat, w: Wait, r: Result)
    requires Inv(s) && WaitStep(s, after, tid, w, r)
    ensures Inv(after)
  {
    if r.Satisfied? {
      match w
      case Single(h) =>
        if !OwnedBy(s, h, tid) {
          IdsAreReady(s, {h});
          AcquireKeeps(s, tid, Ids(s, {h}));
        }
      case Any(hs) =>
        IdsAreReady(s, {hs[r.index]});
        AcquireKeeps(s, tid, Ids(s, {hs[r.index]}));
      case All(hs) =>
        IdsAreReady(s, HandleSet(w));
        AcquireKeeps(s, tid, Ids(s, HandleSet(w)));
    }
  }

  /** Everything else changes at most one object. */
  lemma ObjectKeeps(s: State, after: State, id: nat)
    requires Inv(s) && WellFormed(after) && after.objects.Keys == s.objects.Keys && id in s.objects
    requires forall k :: k in s.objects && k != id ==>
      after.objects[k] == s.objects[k] && after.signals[k] == s.signals[k] && after.consumed[k] == s.consumed[k]
    requires MutexConsistent(after.objects[id]) && SignalsCover(after, id)
    ensures Inv(after)
  {
    forall k | k in after.objects ensures MutexConsistent(after.objects[k]) && SignalsCover(after, k) {
      assert MutexConsistent(s.objects[k]) && SignalsCover(s, k);
    }
  }

  lemma ReleaseKeeps(s: State, h: nat)
    requires Inv(s)
    ensures Inv(Released(s, h))
  {
    if h in s.handles && s.objects[s.handles[h]].Mutex? {
      assert MutexConsistent(s.objects[s.handles[h]]);
      ObjectKeeps(s, Released(s, h), s.handles[h]);
    }
  }

  lemma SetKeeps(s: State, h: nat)
    requires Inv(s)
    ensures Inv(SetDone(s, h))
  {
    if h in s.handles && s.objects[s.handles[h]].Event? {
      assert SignalsCover(s, s.handles[h]);
      ObjectKeeps(s, SetDone(s, h), s.handles[h]);
    }
  }

  lemma ResetKeeps(s: State, h: nat)
    requires Inv(s)
    ensures Inv(ResetDone(s, h))
  {
    if h in s.handles && s.objects[s.handles[h]].Event? {
      assert SignalsCover(s, s.handles[h]);
      ObjectKeeps(s, ResetDone(s, h), s.handles[h]);
    }
  }

  lemma CreateKeeps(s: State, o: Object)
    requires Inv(s) && MutexConsistent(o)
    ensures Inv(Created(s, o))
  {
    var t := Created(s, o);
    forall k | k in t.objects ensures MutexConsistent(t.objects[k]) && SignalsCover(t, k) {
      if k != s.next { assert MutexConsistent(s.objects[k]) && SignalsCover(s, k); }
    }
  }

  lemma SameObjectsKeep(s: State, after: State)
    requires Inv(s) && WellFormed(after)
    requires after.objects == s.objects && after.signals == s.signals && after.consumed == s.consumed
    ensures Inv(after)
  {
    forall k | k in after.objects ensures MutexConsistent(after.objects[k]) && SignalsCover(after, k) {
      assert MutexConsistent(s.objects[k]) && SignalsCover(s, k);
    }
  }

  lemma CloseKeeps(s: State, h: nat)
    requires Inv(s)
    ensures Inv(Closed(s, h))
  {
    SameObjectsKeep(s, Closed(s, h));
  }

  lemma DuplicateKeeps(s: State, h: nat)
    requires Inv(s)
    ensures Inv(Duplicated(s, h))
  {
    if h in s.handles { SameObjectsKeep(s, Duplicated(s, h)); } else { CreateKeeps(s, Event(true, true)); }
  }

  lemma ExpireKeeps(s: State, t: nat, after: State)
    requires Inv(s) && Step(s, Expire(t), after)
    ensures Inv(after)
  {
    SameObjectsKeep(s, after);
  }

  /** Every step of every thread keeps the mutexes consistent and the signals
      ahead of the waits. */
  lemma StepKeeps(s: State, a: Action, after: State)
    requires Inv(s) && Step(s, a, after)
    ensures Inv(after)
  {
    hide Inv, WaitStep, Released, SetDone, ResetDone, Created, Duplicated, Closed, Opens;
    match a
    case Waits(tid, w, r) => WaitKeeps(s, after, tid, w, r);
    case Release(_, h) => ReleaseKeeps(s, h);
    case Set(h) => SetKeeps(s, h);
    case Reset(h) => ResetKeeps(s, h);
    case NewMutex(tid, owned, name, _) => CreateKeeps(s, NewMutexObject(tid, owned, name));
    case NewEvent(manual, signaled) => CreateKeeps(s, Event(signaled, manual));
    case Duplicate(h) => DuplicateKeeps(s, h);
    case Close(h) => CloseKeeps(s, h);
    case Expire(t) => ExpireKeeps(s, t, after);
  }

  // ---- Runs ----

  datatype Turn = Turn(action: Action, after: State)

  /** A run: every turn is a step from the state before it. */
  ghost predicate Run(s: State, turns: seq<Turn>)
    decreases |turns|
  {
    turns != [] ==> WellFormed(s) && Step(s, turns[0].action, turns[0].after) && Run(turns[0].after, turns[1..])
  }

  /** No objects, no threads. */
  const START := State(map[], map[], 1, map[], {}, map[], map[])

  function Last(s: State, turns: seq<Turn>): State {
    if turns == [] then s else turns[|turns| - 1].after
  }

  /** In every run from the start, every mutex is unowned, unlocked and at recursion
      0 together, and no more waits used up an auto-reset event than signaled it. */
  lemma {:induction false} RunsKeep(s: State, turns: seq<Turn>)
    requires Inv(s) && Run(s, turns)
    ensures Inv(Last(s, turns))
    decreases |turns|
  {
    hide Step, Inv;
    if turns != [] {
      StepKeeps(s, turns[0].action, turns[0].after);
      RunsKeep(turns[0].after, turns[1..]);
    }
  }

  /** Waits never outnumber signals. */
  lemma ConsumedAtMostSignaled(turns: seq<Turn>, id: nat)
    requires Run(START, turns)
    ensures var s := Last(START, turns);
      && Inv(s)
      && (id in s.objects && s.objects[id].Event? && !s.objects[id].manual ==> s.consumed[id] <= s.signals[id])
  {
    RunsKeep(START, turns);
    assert id in Last(START, turns).objects ==> SignalsCover(Last(START, turns), id);
  }

  // ---- Ownership ----

  predicate Owns(s: State, id: nat, tid: nat) {
    id in s.objects && s.objects[id].Mutex? && s.objects[id].owner == Some(tid)
  }

  predicate Releases(s: State, a: Action, id: nat) {
    a.Release? && a.handle in s.handles && s.handles[a.handle] == id
  }

  /** A step takes a mutex from its owner exactly if it releases it for the last
      time, whoever calls. */
  lemma OwnerKeepsIff(s: State, a: Action, after: State, id: nat, tid: nat)
    requires Inv(s) && Step(s, a, after) && Owns(s, id, tid)
    ensures Owns(after, id, tid) <==> !Releases(s, a, id) || s.objects[id].recursion > 1
    ensures Releases(s, a, id) && Owns(after, id, tid) ==> after.objects[id].recursion == s.objects[id].recursion - 1
    ensures !Releases(s, a, id) ==> after.objects[id].recursion >= s.objects[id].recursion
  {
    assert id in s.objects && MutexConsistent(s.objects[id]);
    if a.Waits? {
      WaitKeepsOwner(s, after, a.tid, a.wait, a.result, id, tid);
    } else {
      CallKeepsOwner(s, a, after, id, tid);
    }
  }

  lemma CallKeepsOwner(s: State, a: Action, after: State, id: nat, tid: nat)
    requires WellFormed(s) && Step(s, a, after) && Owns(s, id, tid) && !a.Waits?
    ensures Owns(after, id, tid) <==> !Releases(s, a, id) || s.objects[id].recursion > 1
    ensures Releases(s, a, id) && Owns(after, id, tid) ==> after.objects[id].recursion == s.objects[id].recursion - 1
    ensures !Releases(s, a, id) ==> after.objects[id].recursion == s.objects[id].recursion
  {
    hide WaitStep, Opens, Named;
    if a.Release? {
      hide SetDone, ResetDone, Created, Duplicated, Closed;
    } else {
      hide Released;
    }
  }

  lemma WaitKeepsOwner(s: State, after: State, t: nat, w: Wait, r: Result, id: nat, tid: nat)
    requires WellFormed(s) && WaitStep(s, after, t, w, r) && Owns(s, id, tid)
    ensures WellFormed(after) && Owns(after, id, tid) && after.objects[id].recursion >= s.objects[id].recursion
  {
    if r.Satisfied? {
      match w
      case Single(h) =>
        if !OwnedBy(s, h, t) { IdsAreReady(s, {h}); }
      case Any(hs) =>
        IdsAreReady(s, {hs[r.index]});
      case All(hs) =>
        IdsAreReady(s, HandleSet(w));
    }
  }

  ghost predicate NeverReleased(s: State, turns: seq<Turn>, id: nat)
    decreases |turns|
  {
    turns != [] ==> !Releases(s, turns[0].action, id) && NeverReleased(turns[0].after, turns[1..], id)
  }

  /** Mutual exclusion over runs: until somebody releases the mutex, its owner keeps
      it, so no other thread's wait can have taken it. */
  lemma {:induction false} OwnerKeeps(s: State, turns: seq<Turn>, id: nat, tid: nat)
    requires Inv(s) && Run(s, turns) && Owns(s, id, tid) && NeverReleased(s, turns, id)
    ensures Owns(Last(s, turns), id, tid)
    decreases |turns|
  {
    hide Step, Inv, Releases;
    if turns != [] {
      OwnerKeepsIff(s, turns[0].action, turns[0].after, id, tid);
      StepKeeps(s, turns[0].action, turns[0].after);
      OwnerKeeps(turns[0].after, turns[1..], id, tid);
    }
  }

  // ---- No missed wakeups ----

  /** No thread sleeps through a wait it could have, and each sleeps on exactly the
      handles of its wait. */
  predicate NoneMissed(s: State)
    requires WellFormed(s)
  {
    forall t :: t in s.parked ==> s.parked[t].on == HandleSet(s.parked[t].wait) && !Possible(s, t, s.parked[t].wait)
  }

  /** The handles a step may make available. */
  function Opened(s: State, a: Action): set<nat>
    requires WellFormed(s)
  {
    match a
    case Release(_, h) => if Frees(s, h) then SameObject(s, h) else {}
    case Set(h) => if h in s.handles && s.objects[s.handles[h]].Event? then SameObject(s, h) else {}
    case Close(h) => if h in s.handles then {h} else {}
    case _ => {}
  }

  /** A release of this handle frees its mutex. */
  predicate Frees(s: State, h: nat)
    requires WellFormed(s)
  {
    h in s.handles && s.objects[s.handles[h]].Mutex? && s.objects[s.handles[h]].recursion <= 1
  }

  function SameObject(s: State, h: nat): set<nat>
    requires h in s.handles
  {
    set k | k in s.handles && s.handles[k] == s.handles[h]
  }

  /** The step lets t run again: its wait expires, or t sleeps on the very handle
      that is signaled. */
  predicate Wakes(s: State, a: Action, t: nat)
    requires WellFormed(s) && t in s.parked
  {
    match a
    case Release(_, h) => Frees(s, h) && h in s.parked[t].on
    case Set(h) => h in s.handles && s.objects[s.handles[h]].Event? && h in s.parked[t].on
    case Expire(tid) => t == tid
    case _ => false
  }

  /** A wait that cannot be had is had once these handles are available: for one or
      any, one of its handles is among them; for all, every other one is available
      already. */
  predicate HadWith(s: State, w: Wait, more: set<nat>)
    requires WellFormed(s)
  {
    match w
    case Single(h) => h in more
    case Any(hs) => exists i :: 0 <= i < |hs| && hs[i] in more
    case All(hs) => forall i :: 0 <= i < |hs| ==> hs[i] in more || Available(s, hs[i])
  }

  /** How availability changes in a step that is not a wait. */
  lemma AvailableAfter(s: State, a: Action, after: State, h: nat)
    requires WellFormed(s) && WellFormed(after) && Step(s, a, after) && !a.Waits?
    ensures Available(after, h) ==> Available(s, h) || h in Opened(s, a)
    ensures Opened(s, a) != {} && (Available(s, h) || h in Opened(s, a)) ==> Available(after, h)
  {
    hide WaitStep, Opens, Named;
  }

  lemma OwnsNothingNew(s: State, a: Action, after: State, t: nat, h: nat)
    requires WellFormed(s) && Step(s, a, after) && WellFormed(after) && !a.Waits? && h in s.handles
    requires OwnedBy(after, h, t)
    ensures OwnedBy(s, h, t)
  {
    hide WaitStep, Opens, Named;
  }

  lemma StaysAsleepIff(s: State, a: Action, after: State, t: nat)
    requires WellFormed(s) && Step(s, a, after) && !a.Waits?
    ensures t in after.parked <==> t in s.parked && !Wakes(s, a, t)
    ensures t in after.parked ==> after.parked[t] == s.parked[t]
  {
    hide WaitStep, Opens, Named;
  }

  /** For a thread that sleeps on. */
  lemma PossibleAfterIff(s: State, a: Action, after: State, t: nat, w: Wait)
    requires WellFormed(s) && WellFormed(after) && Step(s, a, after) && !a.Waits? && !Possible(s, t, w)
    ensures Possible(after, t, w) <==> HadWith(s, w, Opened(s, a))
  {
    hide Step, WellFormed, Opened, OwnedBy;
    match w
    case Single(h) =>
      AvailableAfter(s, a, after, h);
      if OwnedBy(after, h, t) { OwnsNothingNew(s, a, after, t, h); }
    case Any(hs) =>
      forall i | 0 <= i < |hs| ensures Available(after, hs[i]) <==> hs[i] in Opened(s, a) {
        AvailableAfter(s, a, after, hs[i]);
      }
    case All(hs) =>
      forall i | 0 <= i < |hs| ensures Available(after, hs[i]) ==> hs[i] in Opened(s, a) || Available(s, hs[i]) {
        AvailableAfter(s, a, after, hs[i]);
      }
      if HadWith(s, w, Opened(s, a)) {
        var k :| 0 <= k < |hs| && !Available(s, hs[k]);
        assert hs[k] in Opened(s, a);
        forall i | 0 <= i < |hs| ensures Available(after, hs[i]) {
          AvailableAfter(s, a, after, hs[i]);
        }
      }
  }

  /** No thread that sleeps on can have its wait with what the step opens. */
  predicate LeavesNone(s: State, a: Action)
    requires WellFormed(s)
  {
    forall t :: t in s.parked && !Wakes(s, a, t) ==> !HadWith(s, s.parked[t].wait, Opened(s, a))
  }

  lemma WaitLeavesNone(s: State, a: Action)
    requires WellFormed(s) && NoneMissed(s) && a.Waits?
    ensures LeavesNone(s, a)
  {
  }

  /** A wait by one thread does not make another's possible. */
  lemma WaitMissesNone(s: State, after: State, tid: nat, w: Wait, r: Result)
    requires WellFormed(s) && NoneMissed(s) && WaitStep(s, after, tid, w, r) && WellFormed(after)
    ensures NoneMissed(after)
  {
    WaitMakesNothingAvailable(s, after, tid, w, r);
    forall t | t in after.parked
      ensures after.parked[t].on == HandleSet(after.parked[t].wait) && !Possible(after, t, after.parked[t].wait)
    {
      StaysImpossible(s, after, t, after.parked[t].wait);
    }
  }

  /** If nothing becomes available or owned, a wait stays impossible. */
  lemma StaysImpossible(s: State, after: State, t: nat, w: Wait)
    requires WellFormed(s) && WellFormed(after) && !Possible(s, t, w)
    requires forall h :: Available(after, h) ==> Available(s, h)
    requires w.Single? && OwnedBy(after, w.handle, t) ==> OwnedBy(s, w.handle, t)
    ensures !Possible(after, t, w)
  {
  }

  /** A wait never makes an object available, nor gives one to another thread. */
  lemma WaitMakesNothingAvailable(s: State, after: State, tid: nat, w: Wait, r: Result)
    requires WellFormed(s) && WaitStep(s, after, tid, w, r) && WellFormed(after)
    ensures forall h :: Available(after, h) ==> Available(s, h)
    ensures forall h, t :: t != tid && OwnedBy(after, h, t) ==> OwnedBy(s, h, t)
    ensures r.Blocked? ==> after.objects == s.objects && after.handles == s.handles
  {
  }

  /** The exact condition, for every step: a thread is left asleep on a wait it could
      have exactly if it is not woken and what the step opens is all it waited for. */
  lemma MissesNoneIff(s: State, a: Action, after: State)
    requires Inv(s) && NoneMissed(s) && Step(s, a, after)
    ensures Inv(after) && (NoneMissed(after) <==> LeavesNone(s, a))
  {
    StepKeeps(s, a, after);
    hide Inv, Possible, Step, WellFormed, HadWith, Opened, Wakes, HandleSet;
    if a.Waits? {
      WaitLeavesNone(s, a);
      WaitMissesNone(s, after, a.tid, a.wait, a.result);
    } else {
      forall t | t in s.parked
        ensures t in after.parked <==> !Wakes(s, a, t)
        ensures t in after.parked ==>
          after.parked[t] == s.parked[t]
          && (Possible(after, t, s.parked[t].wait) <==> HadWith(s, s.parked[t].wait, Opened(s, a)))
      {
        StaysAsleepIff(s, a, after, t);
        PossibleAfterIff(s, a, after, t, s.parked[t].wait);
      }
      forall t | t in after.parked ensures t in s.parked {
        StaysAsleepIff(s, a, after, t);
      }
    }
  }

  ghost predicate AllLeaveNone(s: State, turns: seq<Turn>)
    decreases |turns|
  {
    turns != [] ==> WellFormed(s) && LeavesNone(s, turns[0].action) && AllLeaveNone(turns[0].after, turns[1..])
  }

  /** A run of such steps leaves no thread asleep on a wait it could have. */
  lemma {:induction false} RunsMissNone(s: State, turns: seq<Turn>)
    requires Inv(s) && NoneMissed(s) && Run(s, turns) && AllLeaveNone(s, turns)
    ensures Inv(Last(s, turns)) && NoneMissed(Last(s, turns))
    decreases |turns|
  {
    hide Step, Inv, NoneMissed, LeavesNone;
    if turns != [] {
      MissesNoneIff(s, turns[0].action, turns[0].after);
      RunsMissNone(turns[0].after, turns[1..]);
    }
  }

  /** A signal reaches its sleepers: no second handle to the object, and no handle
      closed while it is slept on. */
  predicate Reaches(s: State, a: Action) {
    match a
    case Release(_, h) => h in s.handles ==> forall k :: k in s.handles && s.handles[k] == s.handles[h] ==> k == h
    case Set(h) => h in s.handles ==> forall k :: k in s.handles && s.handles[k] == s.handles[h] ==> k == h
    case Close(h) => forall t :: t in s.parked ==> h !in s.parked[t].on
    case _ => true
  }

  /** With one handle an object, and no handle closed while it is slept on, no step
      misses a sleeper. */
  lemma ReachesLeavesNone(s: State, a: Action)
    requires WellFormed(s) && NoneMissed(s) && Reaches(s, a)
    ensures LeavesNone(s, a)
  {
    forall t | t in s.parked && !Wakes(s, a, t) ensures !HadWith(s, s.parked[t].wait, Opened(s, a)) {
      var w := s.parked[t].wait;
      assert !Possible(s, t, w);
      forall h | h in Opened(s, a) ensures h !in HandleSet(w) {
        OpenedElsewhere(s, a, t, h);
      }
      hide Opened, Wakes, Reaches;
      match w
      case Single(h) =>
      case Any(hs) =>
        assert forall i :: 0 <= i < |hs| ==> hs[i] in HandleSet(w);
      case All(hs) =>
        assert forall i :: 0 <= i < |hs| ==> hs[i] in HandleSet(w);
    }
  }

  lemma OpenedElsewhere(s: State, a: Action, t: nat, h: nat)
    requires WellFormed(s) && Reaches(s, a) && t in s.parked && !Wakes(s, a, t) && h in Opened(s, a)
    ensures h !in s.parked[t].on
  {
  }

  lemma RunMore(s: State, turn: Turn, turns: seq<Turn>)
    requires WellFormed(s) && Step(s, turn.action, turn.after) && Run(turn.after, turns)
    ensures Run(s, [turn] + turns) && Last(s, [turn] + turns) == Last(turn.after, turns)
  {
    var all := [turn] + turns;
    assert all[1..] == turns;
    if turns != [] { assert all[|all| - 1] == turns[|turns| - 1]; }
  }

  /** An unset event with handles 1 and 2, and thread 7 about to wait on 1. */
  function TwoHandles(parked: map<nat, Parked>): State {
    State(map[1 := 1, 2 := 1], map[1 := Event(false, false)], 3, parked, {}, map[1 := 0], map[1 := 0])
  }

  lemma TwoHandlesReached()
    ensures var s1 := Created(START, Event(false, false));
      && WellFormed(START) && Step(START, NewEvent(false, false), s1)
      && WellFormed(s1) && Step(s1, Duplicate(1), TwoHandles(map[]))
  {
    assert Duplicated(Created(START, Event(false, false)), 1) == TwoHandles(map[]);
  }

  lemma Asleep()
    ensures var s, s3 := TwoHandles(map[]), TwoHandles(map[7 := Parked(Single(1), {1})]);
      && WellFormed(s) && Step(s, Waits(7, Single(1), Blocked), s3)
      && WellFormed(s3) && Step(s3, Set(2), SetDone(s3, 2))
      && WellFormed(SetDone(s3, 2)) && !NoneMissed(SetDone(s3, 2))
  {
    var after := SetDone(TwoHandles(map[7 := Parked(Single(1), {1})]), 2);
    assert 7 in after.parked && after.parked[7].wait == Single(1) && Available(after, 1);
  }

  /** SetEvent through a duplicate handle sets the event but wakes nobody who sleeps
      on the other: four calls from the start leave thread 7 asleep on a set event. */
  lemma MissedThroughDuplicate() returns (turns: seq<Turn>)
    ensures Run(START, turns) && WellFormed(Last(START, turns)) && !NoneMissed(Last(START, turns))
    ensures |turns| == 4
    ensures turns[0].action == NewEvent(false, false) && turns[1].action == Duplicate(1)
    ensures turns[2].action == Waits(7, Single(1), Blocked) && turns[3].action == Set(2)
  {
    var s1 := Created(START, Event(false, false));
    var s2, s3 := TwoHandles(map[]), TwoHandles(map[7 := Parked(Single(1), {1})]);
    TwoHandlesReached();
    Asleep();
    hide Step, WellFormed, NoneMissed, SetDone, Created, TwoHandles;
    RunMore(s3, Turn(Set(2), SetDone(s3, 2)), []);
    RunMore(s2, Turn(Waits(7, Single(1), Blocked), s3), [Turn(Set(2), SetDone(s3, 2))]);
    turns := [Turn(Waits(7, Single(1), Blocked), s3)] + [Turn(Set(2), SetDone(s3, 2))];
    RunMore(s1, Turn(Duplicate(1), s2), turns);
    turns := [Turn(Duplicate(1), s2)] + turns;
    RunMore(START, Turn(NewEvent(false, false), s1), turns);
    turns := [Turn(NewEvent(false, false), s1)] + turns;
  }
}
