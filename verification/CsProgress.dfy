/** Progress: from every reachable state some schedule lets any given waiter in. */
module CsProgress {
  import opened CsCode
  import opened CsProtocol
  import opened CsInvariant
  import opened CsTheorems

  // ---- Schedules one after the other ----

  lemma {:induction false} PlayJoin(s: State, first: seq<Action>, rest: seq<Action>)
    ensures Play(s, first + rest) == Play(Play(s, first), rest)
    decreases |rest|
  {
    if rest == [] {
      assert first + rest == first;
    } else {
      var n := |rest| - 1;
      assert (first + rest)[..|first + rest| - 1] == first + rest[..n];
      PlayJoin(s, first, rest[..n]);
    }
  }

  lemma PlayOne(s: State, a: Action)
    requires Enabled(s, a)
    ensures Play(s, [a]) == Apply(s, a)
  {
    assert [a][..0] == [];
  }

  /** What a schedule makes of a reachable state is reachable. */
  lemma ReachableOn(s: State, schedule: seq<Action>)
    requires Reachable(s)
    ensures Reachable(Play(s, schedule))
  {
    var s0, before :| Initial(s0) && s == Play(s0, before);
    PlayJoin(s0, before, schedule);
  }

  // ---- A measure of what a thread still has to do ----

  /** The entries the thread will have made when its routine returns. */
  function Entries(t: Thread): nat {
    t.depth + if t.pc != OUT && (t.pc < LEAVE || t.pc >= TRY_ENTER) then 1 else 0
  }

  /** Code runs forward, apart from the jump back at 0x2f. */
  function Ahead(t: Thread): nat {
    if t.pc == OUT then 0 else if t.pc == 0x2f then 0x100 else if 0 <= t.pc < 0xa0 then 0xa0 - t.pc else 0
  }

  function Rank(t: Thread): nat {
    0x200 * Entries(t) + Ahead(t)
  }

  lemma EnterRuns(cs: int, sec: Section, t: Thread)
    requires OrdinaryStep(t) && 0 <= t.pc < LEAVE
    ensures Rank(Execute(cs, sec, t).1) < Rank(t)
  {
  }

  lemma LeaveRuns(cs: int, sec: Section, t: Thread)
    requires OrdinaryStep(t) && LEAVE <= t.pc < TRY_ENTER
    ensures Rank(Execute(cs, sec, t).1) < Rank(t)
  {
  }

  lemma TryRuns(cs: int, sec: Section, t: Thread)
    requires OrdinaryStep(t) && TRY_ENTER <= t.pc
    ensures Rank(Execute(cs, sec, t).1) < Rank(t)
  {
  }

  /** Every ordinary instruction brings its thread closer to its return. */
  lemma InstructionRuns(cs: int, sec: Section, t: Thread)
    requires OrdinaryStep(t)
    ensures Rank(Execute(cs, sec, t).1) < Rank(t)
  {
    hide Execute, Rank;
    if t.pc < LEAVE { EnterRuns(cs, sec, t); }
    else if t.pc < TRY_ENTER { LeaveRuns(cs, sec, t); }
    else { TryRuns(cs, sec, t); }
  }

  // ---- The entrant, the waiter and the holder ----

  /** Thread i has entered and is back in its client code. */
  predicate Inside(s: State, i: nat) {
    i < |s.threads| && s.threads[i].pc == OUT && s.threads[i].depth > 0
  }

  /** Taking the section after the event, up to the return. */
  predicate TakingOver(t: Thread) {
    (t.pc == 0x2f || t.pc == 0x11 || t.pc == 0x14 || t.pc == 0x1b || t.pc == 0x1d) && t.parked == 0
  }

  lemma TakesOver(cs: int, sec: Section, t: Thread)
    requires TakingOver(t)
    ensures var u := Execute(cs, sec, t).1;
      OrdinaryStep(t) && !Listing(t.pc).instr.IncField? && (TakingOver(u) || (u.pc == OUT && u.depth > 0))
  {
  }

  /** An ordinary instruction of thread i as a step of the whole state. */
  lemma RunsOne(s: State, i: nat)
    requires Inv(s) && Enabled(s, Run(i)) && OrdinaryStep(s.threads[i])
    ensures var (sec, u) := Execute(s.cs, s.sec, s.threads[i]);
      && Inv(Apply(s, Run(i))) && Apply(s, Run(i)) == WithThread(s, i, u).(sec := sec)
      && Keeps(s.cs, s.sec, s.threads[i], sec, u) && Rank(u) < Rank(s.threads[i])
      && (Signaled(Apply(s, Run(i))) <==> Signaled(s))
  {
    hide Inv, Execute, Keeps, Before, Rank, Local, Step;
    StepIs(s, i);
    TrapsAreTraps(s.threads[i]);
    ExecuteKeeps(s.cs, s.sec, s.threads[i]);
    StepKeeps(s, i);
    InstructionRuns(s.cs, s.sec, s.threads[i]);
    SameSemaphore(s.cs, s.sec, s.threads[i]);
  }

  lemma TrapsAreTraps(t: Thread)
    requires OrdinaryStep(t)
    ensures t.pc != ENTER_WAIT && t.pc != LEAVE_WAKE
  {
  }

  lemma SameSemaphore(cs: int, sec: Section, t: Thread)
    requires var (sec', u) := Execute(cs, sec, t); Keeps(cs, sec, t, sec', u)
    ensures Execute(cs, sec, t).0.lockSemaphore == sec.lockSemaphore
  {
  }

  lemma {:induction false} EntrantEnters(s: State, i: nat) returns (schedule: seq<Action>)
    requires Inv(s) && i < |s.threads| && (TakingOver(s.threads[i]) || Inside(s, i))
    ensures Inside(Play(s, schedule), i)
    decreases Rank(s.threads[i])
  {
    if Inside(s, i) {
      return [];
    }
    hide Inv, Execute, Keeps, Rank, Local;
    TakesOver(s.cs, s.sec, s.threads[i]);
    RunsOne(s, i);
    var rest := EntrantEnters(Apply(s, Run(i)), i);
    schedule := [Run(i)] + rest;
    PlayOne(s, Run(i));
    PlayJoin(s, [Run(i)], rest);
  }

  /** A waiter is still before its trap. */
  lemma WaiterRuns(cs: int, sec: Section, t: Thread)
    requires Local(cs, t) && Shared(sec, t) && Waiting(t)
    ensures t.depth == 0 && !HoldsToken(t) && Listing(t.pc).Decoded?
    ensures t.pc != ENTER_WAIT ==>
      && OrdinaryStep(t) && !Listing(t.pc).instr.IncField?
      && (Local(cs, Execute(cs, sec, t).1) ==> Waiting(Execute(cs, sec, t).1))
  {
  }

  /** The trap takes a set event. */
  lemma TrapTakes(s: State, i: nat)
    requires Inv(s) && Signaled(s) && i < |s.threads| && s.threads[i].pc == ENTER_WAIT && s.threads[i].parked == 0
    ensures Enabled(s, Run(i)) && Inv(Apply(s, Run(i))) && |Apply(s, Run(i)).threads| == |s.threads|
    ensures TakingOver(Apply(s, Run(i)).threads[i])
  {
    hide Execute, Local, Shared, Idle, Sum, Counts;
    EnterWaitKeeps(s, i);
  }

  /** With the event set, any waiter can take it. */
  lemma {:induction false} WaiterEnters(s: State, i: nat) returns (schedule: seq<Action>)
    requires Inv(s) && Signaled(s) && i < |s.threads| && Waiting(s.threads[i])
    ensures Inside(Play(s, schedule), i)
    decreases Rank(s.threads[i])
  {
    assert Local(s.cs, s.threads[i]) && Shared(s.sec, s.threads[i]) && s.threads[i].parked == 0;
    WaiterRuns(s.cs, s.sec, s.threads[i]);
    hide Inv, Execute, Rank, Local, Shared, Waiting, Signaled, Apply;
    var rest: seq<Action>;
    if s.threads[i].pc == ENTER_WAIT {
      TrapTakes(s, i);
      rest := EntrantEnters(Apply(s, Run(i)), i);
    } else {
      RunsOne(s, i);
      rest := WaiterEnters(Apply(s, Run(i)), i);
    }
    schedule := [Run(i)] + rest;
    PlayOne(s, Run(i));
    PlayJoin(s, [Run(i)], rest);
  }

  // ---- The holder ----

  /** The thread may still have to count itself in. */
  predicate NeedsClaim(t: Thread) {
    t.pc == 0x00 || t.pc == 0x04 || t.pc == 0x0b || 0x5c <= t.pc <= 0x8c
  }

  predicate HasRoom(sec: Section, t: Thread) {
    NeedsClaim(t) ==> sec.lockCount < MAX_LOCK
  }

  lemma RoomStays(cs: int, sec: Section, t: Thread)
    requires OrdinaryStep(t) && HasRoom(sec, t) && sec.lockCount >= 0 && (t.pc == 0x67 ==> t.eax == -1)
    ensures var (sec', u) := Execute(cs, sec, t); HasRoom(sec', u)
  {
    if t.pc < LEAVE { RoomInEnter(cs, sec, t); }
    else if t.pc < TRY_ENTER { RoomInLeave(cs, sec, t); }
    else { RoomInTry(cs, sec, t); }
  }

  lemma RoomInEnter(cs: int, sec: Section, t: Thread)
    requires OrdinaryStep(t) && HasRoom(sec, t) && t.pc < LEAVE
    ensures var (sec', u) := Execute(cs, sec, t); HasRoom(sec', u)
  {
  }

  lemma RoomInLeave(cs: int, sec: Section, t: Thread)
    requires OrdinaryStep(t) && LEAVE <= t.pc < TRY_ENTER
    ensures var (sec', u) := Execute(cs, sec, t); HasRoom(sec', u)
  {
  }

  lemma RoomInTry(cs: int, sec: Section, t: Thread)
    requires OrdinaryStep(t) && HasRoom(sec, t) && sec.lockCount >= 0 && TRY_ENTER <= t.pc
    requires t.pc == 0x67 ==> t.eax == -1
    ensures var (sec', u) := Execute(cs, sec, t); HasRoom(sec', u)
  {
  }

  /** The holder of the token is not parked, and outside the routines it is inside
      the section. */
  lemma HolderCan(cs: int, sec: Section, t: Thread)
    requires Local(cs, t) && Shared(sec, t) && HoldsToken(t) && HasRoom(sec, t)
    ensures t.parked == 0 && (t.pc == OUT ==> t.depth > 0) && (t.pc != OUT ==> Listing(t.pc).Decoded?)
    ensures t.pc != OUT && t.pc != LEAVE_WAKE ==> OrdinaryStep(t)
    ensures t.pc != OUT && Listing(t.pc).instr == IncField(4) ==> sec.lockCount < MAX_LOCK
  {
  }

  /** While somebody waits, LockCount stays at 0 or above, so the token is somewhere. */
  lemma WaiterCounts(s: State, i: nat)
    requires Inv(s) && i < |s.threads| && Waiting(s.threads[i])
    ensures s.sec.lockCount >= 0
  {
    SumAtLeast(Count, s.threads, i);
  }

  lemma EventIsSet(s: State, k: nat, i: nat)
    requires Inv(s) && s.sec.lockSemaphore != 0 && k < |s.threads| && i < |s.threads| && k != i && Waiting(s.threads[i])
    ensures Signaled(SetEvent(s, k)) && |SetEvent(s, k).threads| == |s.threads| && Waiting(SetEvent(s, k).threads[i])
  {
  }

  lemma TrapSets(s: State, k: nat)
    requires Inv(s) && k < |s.threads|
    ensures LeaveWake(s, k) == SetEvent(LockSemaphore(s), k)
  {
    LockSemaphoreKeeps(s);
    hide Inv;
  }

  lemma WakeCanRun(s: State, k: nat)
    requires Inv(s) && k < |s.threads| && s.threads[k].pc == LEAVE_WAKE
    ensures Enabled(s, Run(k)) && Apply(s, Run(k)) == LeaveWake(s, k)
  {
    assert Local(s.cs, s.threads[k]);
    hide Inv, LeaveWake, EnterWait, Execute, Local;
  }

  lemma WakeHandsOver(s: State, k: nat, i: nat)
    requires Inv(s) && k < |s.threads| && i < |s.threads| && s.threads[k].pc == LEAVE_WAKE && Waiting(s.threads[i])
    ensures Enabled(s, Run(k)) && Inv(Apply(s, Run(k))) && Signaled(Apply(s, Run(k)))
    ensures |Apply(s, Run(k)).threads| == |s.threads| && Waiting(Apply(s, Run(k)).threads[i])
  {
    assert k != i;
    hide Inv, Waiting, Signaled, LeaveWake, LockSemaphore, SetEvent, Apply, Enabled, Local, Execute;
    LockSemaphoreKeeps(s);
    LeaveWakeKeeps(s, k);
    WakeCanRun(s, k);
    TrapSets(s, k);
    EventIsSet(LockSemaphore(s), k, i);
  }

  /** The holder asks to leave. */
  lemma CallsLeave(s: State, k: nat)
    requires Inv(s) && Inside(s, k)
    ensures Enabled(s, CallLeave(k)) && Inv(Apply(s, CallLeave(k)))
    ensures var after := Apply(s, CallLeave(k));
      && |after.threads| == |s.threads|
      && (forall j :: 0 <= j < |s.threads| && j != k ==> after.threads[j] == s.threads[j])
      && HoldsToken(after.threads[k])
      && HasRoom(after.sec, after.threads[k])
      && Rank(after.threads[k]) < Rank(s.threads[k])
  {
    hide Inv;
    ApplyKeeps(s, CallLeave(k));
  }

  /** The holder takes a step of its routine and still holds the token, because the
      waiter keeps LockCount at 0 or above. */
  lemma HolderSteps(s: State, i: nat, k: nat)
    requires Inv(s) && i < |s.threads| && k < |s.threads| && i != k && Waiting(s.threads[i])
    requires HoldsToken(s.threads[k]) && HasRoom(s.sec, s.threads[k])
    requires s.threads[k].pc != OUT && s.threads[k].pc != LEAVE_WAKE
    ensures Enabled(s, Run(k)) && Inv(Apply(s, Run(k)))
    ensures var after := Apply(s, Run(k));
      && |after.threads| == |s.threads| && after.threads[i] == s.threads[i]
      && HoldsToken(after.threads[k])
      && HasRoom(after.sec, after.threads[k])
      && Rank(after.threads[k]) < Rank(s.threads[k])
  {
    var t := s.threads[k];
    assert Local(s.cs, t) && Shared(s.sec, t);
    WaiterCounts(s, i);
    hide Inv, Execute, Local, Shared, Waiting, Rank, Idle, Threads, Counts, HoldsToken, HasRoom, Apply, Signaled;
    HolderCan(s.cs, s.sec, t);
    RoomStays(s.cs, s.sec, t);
    RunsOne(s, k);
    WaiterCounts(Apply(s, Run(k)), i);
  }

  /** The holder runs on, leaves as often as it entered, and hands the section over. */
  lemma {:induction false} HolderHandsOver(s: State, i: nat, k: nat) returns (schedule: seq<Action>)
    requires Inv(s) && i < |s.threads| && k < |s.threads| && i != k && Waiting(s.threads[i])
    requires HoldsToken(s.threads[k]) && HasRoom(s.sec, s.threads[k])
    ensures Inside(Play(s, schedule), i)
    decreases Rank(s.threads[k])
  {
    assert Local(s.cs, s.threads[k]) && Shared(s.sec, s.threads[k]);
    HolderCan(s.cs, s.sec, s.threads[k]);
    hide Inv, Execute, Local, Shared, Waiting, Rank, HoldsToken, HasRoom, Apply, Enabled, Signaled;
    var a := if s.threads[k].pc == OUT then CallLeave(k) else Run(k);
    var rest: seq<Action>;
    if s.threads[k].pc == LEAVE_WAKE {
      WakeHandsOver(s, k, i);
      rest := WaiterEnters(Apply(s, a), i);
    } else {
      if s.threads[k].pc == OUT { CallsLeave(s, k); } else { HolderSteps(s, i, k); }
      rest := HolderHandsOver(Apply(s, a), i, k);
    }
    schedule := [a] + rest;
    PlayOne(s, a);
    PlayJoin(s, [a], rest);
  }

  /** From every reachable state, any thread that waits can be let in: some schedule
      brings it back to its client code inside the section. LockCount must only leave
      room for the entry its holder may have begun. */
  lemma WaiterCanGetIn(s: State, i: nat) returns (schedule: seq<Action>)
    requires Reachable(s) && i < |s.threads| && Waiting(s.threads[i]) && s.sec.lockCount < MAX_LOCK
    ensures Reachable(Play(s, schedule)) && Inside(Play(s, schedule), i)
  {
    ReachableInv(s);
    if Signaled(s) {
      schedule := WaiterEnters(s, i);
    } else {
      WaiterHasSomeoneResponsible(s, i);
      var k :| 0 <= k < |s.threads| && HoldsToken(s.threads[k]);
      assert Local(s.cs, s.threads[i]) && Shared(s.sec, s.threads[i]);
      WaiterRuns(s.cs, s.sec, s.threads[i]);
      schedule := HolderHandsOver(s, i, k);
    }
    ReachableOn(s, schedule);
  }
}
