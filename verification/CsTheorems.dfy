/** What the critical-section protocol guarantees in every reachable state. */
module CsTheorems {
  import opened CsCode
  import opened CsProtocol
  import opened CsInvariant

  /** A state some schedule leads to from a freshly initialised section. */
  ghost predicate Reachable(s: State) {
    exists s0, schedule :: Initial(s0) && s == Play(s0, schedule)
  }

  lemma ReachableInv(s: State)
    requires Reachable(s)
    ensures Inv(s)
  {
    var s0, schedule :| Initial(s0) && s == Play(s0, schedule);
    InitialInv(s0);
    PlayKeeps(s0, schedule);
  }

  /** Mutual exclusion: no two threads have entered and not yet asked to leave. */
  lemma MutualExclusion(s: State, i: nat, j: nat)
    requires Reachable(s) && i < |s.threads| && j < |s.threads|
    requires s.threads[i].depth > 0 && s.threads[j].depth > 0
    ensures i == j
  {
    ReachableInv(s);
    TokenIsUnique(s, i, j);
  }

  /** Exclusion at the level of single instructions: while LockCount is at 0 or above
      the right to the section is in exactly one place, a set event or a thread
      somewhere between winning the section and handing it over; at -1 nowhere. */
  lemma OneToken(s: State)
    requires Reachable(s)
    ensures Sum(Token, s.threads) + EventToken(s) == if s.sec.lockCount >= 0 then 1 else 0
    ensures forall j, k :: 0 <= j < k < |s.threads| ==> !(HoldsToken(s.threads[j]) && HoldsToken(s.threads[k]))
  {
    ReachableInv(s);
    forall j, k | 0 <= j < k < |s.threads| ensures !(HoldsToken(s.threads[j]) && HoldsToken(s.threads[k])) {
      if HoldsToken(s.threads[j]) { TokenIsUnique(s, j, k); }
    }
  }

  /** No schedule makes the code access memory outside the section or find a
      LockSemaphore that is not its own event. */
  lemma NeverFaults(s: State)
    requires Reachable(s)
    ensures !s.faulted
  {
    ReachableInv(s);
  }

  // ---- Counting ----

  function OwnerEntries(t: Thread): nat {
    if OwnsSection(t) then Count(t) else 0
  }

  function WaitingOne(t: Thread): nat {
    if Waiting(t) then 1 else 0
  }

  lemma {:induction false} CountSplits(ts: seq<Thread>)
    ensures Sum(Count, ts) == Sum(OwnerEntries, ts) + Sum(WaitingOne, ts)
  {
    if ts != [] {
      CountSplits(ts[1..]);
    }
  }

  lemma {:induction false} OnlyOwner(ts: seq<Thread>, i: nat)
    requires i < |ts|
    requires forall k :: 0 <= k < |ts| && k != i ==> !OwnsSection(ts[k])
    ensures Sum(OwnerEntries, ts) == OwnerEntries(ts[i])
  {
    if i == 0 {
      SumZero(OwnerEntries, ts[1..]);
    } else {
      OnlyOwner(ts[1..], i - 1);
    }
  }

  /** LockCount + 1 is the owner's entries, in-flight ones included, plus the waiters. */
  lemma LockCountCounts(s: State, i: nat)
    requires Reachable(s) && i < |s.threads| && OwnsSection(s.threads[i])
    ensures s.sec.lockCount + 1 == Count(s.threads[i]) + Sum(WaitingOne, s.threads)
  {
    ReachableInv(s);
    CountSplits(s.threads);
    forall k | 0 <= k < |s.threads| && k != i ensures !OwnsSection(s.threads[k]) {
      TokenIsUnique(s, i, k);
    }
    OnlyOwner(s.threads, i);
  }

  /** With no owner, LockCount + 1 is the number of waiters. */
  lemma LockCountWithoutOwner(s: State)
    requires Reachable(s) && forall k :: 0 <= k < |s.threads| ==> !OwnsSection(s.threads[k])
    ensures s.sec.lockCount + 1 == Sum(WaitingOne, s.threads)
  {
    ReachableInv(s);
    CountSplits(s.threads);
    SumZero(OwnerEntries, s.threads);
  }

  /** OwningThread names a thread only while that thread owns the section, and
      names it whenever its client code is inside; RecursionCount is then the
      number of entries still to be left. */
  lemma OwnerFields(s: State, i: nat)
    requires Reachable(s) && i < |s.threads|
    ensures s.sec.owningThread == s.threads[i].tid ==> OwnsSection(s.threads[i])
    ensures s.threads[i].depth > 0 ==> s.sec.owningThread == s.threads[i].tid
    ensures s.threads[i].pc == OUT && s.threads[i].depth > 0 ==> s.sec.recursionCount == s.threads[i].depth
  {
    ReachableInv(s);
  }

  predicate Balanced(s: State) {
    forall k :: 0 <= k < |s.threads| ==> s.threads[k].pc == OUT && s.threads[k].depth == 0
  }

  /** A fully balanced run gives the structure back as initialised, apart from
      the event it may have created, which is unset. */
  lemma BalancedRunRestores(s: State)
    requires Reachable(s) && Balanced(s)
    ensures s.sec == Section(-1, 0, 0, s.sec.lockSemaphore) && !Signaled(s)
  {
    ReachableInv(s);
    SumZero(Count, s.threads);
  }

  // ---- Wakeups ----

  /** Whenever a thread waits, an owner, a pending wake or a set event is
      responsible for it. */
  lemma WaiterHasSomeoneResponsible(s: State, i: nat)
    requires Reachable(s) && i < |s.threads| && Waiting(s.threads[i])
    ensures Signaled(s) || exists k :: 0 <= k < |s.threads| && HoldsToken(s.threads[k])
  {
    ReachableInv(s);
    SumAtLeast(Count, s.threads, i);
    if !Signaled(s) {
      var k := SumPositive(Token, s.threads);
      assert HoldsToken(s.threads[k]);
    }
  }

  /** No lost wakeup: while the event is set nobody is parked, and some waiter
      is there, able to run, to take it. */
  lemma SetEventHasATaker(s: State) returns (k: nat)
    requires Reachable(s) && Signaled(s)
    ensures forall j :: 0 <= j < |s.threads| ==> s.threads[j].parked == 0
    ensures k < |s.threads| && Waiting(s.threads[k])
  {
    ReachableInv(s);
    k := SumPositive(Count, s.threads);
    if OwnsSection(s.threads[k]) {
      TokenIsUnique(s, k, k);
    }
  }

  /** No doubled wakeup: the waking Leave always finds the event unset, leaves it
      set, and there is a waiter for it. */
  lemma WakeFindsEventUnset(s: State, i: nat) returns (k: nat)
    requires Reachable(s) && i < |s.threads| && s.threads[i].pc == LEAVE_WAKE
    ensures !Signaled(s) && Signaled(Step(s, i))
    ensures k < |s.threads| && k != i && Waiting(s.threads[k])
  {
    ReachableInv(s);
    TokenIsUnique(s, i, i);
    LockSemaphoreKeeps(s);
    BeforeAt(s, i);
    k := SumPositive(Count, s.threads);
    if OwnsSection(s.threads[k]) {
      TokenIsUnique(s, i, k);
    }
  }

  /** Only one action sets the event, the trap of a waking Leave, and only one
      resets it, the trap of a waiting Enter; the thread that resets it owns the
      section from then on. */
  lemma EventChangesHands(s: State, a: Action)
    requires Reachable(s) && Enabled(s, a)
    ensures !Signaled(s) && Signaled(Apply(s, a)) ==> a.Run? && s.threads[a.i].pc == LEAVE_WAKE
    ensures Signaled(s) && !Signaled(Apply(s, a)) ==>
      a.Run? && s.threads[a.i].pc == ENTER_WAIT && OwnsSection(Apply(s, a).threads[a.i])
  {
    ReachableInv(s);
    if a.Run? {
      StepIs(s, a.i);
      EventAfterStep(s, a.i);
    }
  }

  lemma EventAfterStep(s: State, i: nat)
    requires Inv(s) && Enabled(s, Run(i))
    ensures !Signaled(s) && Signaled(Step(s, i)) ==> s.threads[i].pc == LEAVE_WAKE
    ensures Signaled(s) && !Signaled(Step(s, i)) ==> s.threads[i].pc == ENTER_WAIT && OwnsSection(Step(s, i).threads[i])
  {
    hide Execute, Local, Shared, Idle, Sum, Threads, Counts, Step, OrdinaryStep, Before;
    StepIs(s, i);
    LockSemaphoreKeeps(s);
    if s.threads[i].pc != ENTER_WAIT && s.threads[i].pc != LEAVE_WAKE {
      ExecuteKeeps(s.cs, s.sec, s.threads[i]);
    }
  }

  /** Freedom from deadlock: if a thread is parked, some other thread is not
      parked and is inside a routine or inside the section, so it has a step or
      a Leave of its own to make. */
  lemma ParkedThreadIsNotAlone(s: State, i: nat) returns (k: nat)
    requires Reachable(s) && i < |s.threads| && s.threads[i].parked != 0
    ensures k < |s.threads| && k != i && s.threads[k].parked == 0
    ensures s.threads[k].pc != OUT || s.threads[k].depth > 0
  {
    ReachableInv(s);
    SumAtLeast(Count, s.threads, i);
    k := SumPositive(Token, s.threads);
  }

  lemma ReturningThread(cs: int, sec: Section, t: Thread)
    requires Local(cs, t) && Listing(t.pc).Decoded? && Listing(t.pc).instr.Ret?
    requires t.pc < LEAVE || t.pc >= TRY_ENTER
    ensures var t' := Execute(cs, sec, t).1;
      && t'.pc == OUT && OwnsSection(t) == (t'.depth > 0)
      && (t.pc < LEAVE ==> t'.depth == t.depth + 1)
      && (t.pc >= TRY_ENTER ==> (t'.eax == 1 && t'.depth == t.depth + 1) || (t'.eax == 0 && t'.depth == 0))
  {
  }

  /** A return tells the truth: after EnterCriticalSection the thread is inside;
      after TryEnterCriticalSection it is inside exactly if the result is 1, and
      the result is otherwise 0. */
  lemma ReturnTellsTheTruth(s: State, i: nat)
    requires Reachable(s) && Enabled(s, Run(i)) && Listing(s.threads[i].pc).instr.Ret?
    requires s.threads[i].pc < LEAVE || s.threads[i].pc >= TRY_ENTER
    ensures var t, t' := s.threads[i], Step(s, i).threads[i];
      && t'.pc == OUT && OwnsSection(t) == (t'.depth > 0)
      && (t.pc < LEAVE ==> t'.depth == t.depth + 1)
      && (t.pc >= TRY_ENTER ==> (t'.eax == 1 && t'.depth == t.depth + 1) || (t'.eax == 0 && t'.depth == 0))
  {
    ReachableInv(s);
    ReturningThread(s.cs, s.sec, s.threads[i]);
  }

  /** The compare-and-exchange of TryEnter wins exactly when nobody holds the
      token and no event is set for a waiter; it never overtakes a handoff. */
  lemma TryEnterNeverOvertakes(s: State, i: nat)
    requires Reachable(s) && Enabled(s, Run(i)) && s.threads[i].pc == 0x67
    ensures Step(s, i).threads[i].zf <==>
      !Signaled(s) && forall k :: 0 <= k < |s.threads| ==> !HoldsToken(s.threads[k])
  {
    hide Shared, Idle;
    ReachableInv(s);
    if s.sec.lockCount == -1 {
      forall k | 0 <= k < |s.threads| ensures !HoldsToken(s.threads[k]) {
        SumAtLeast(Token, s.threads, k);
      }
    } else if !Signaled(s) {
      var k := SumPositive(Token, s.threads);
    }
  }
}
