/** The invariant of the critical-section protocol, kept by every action. */
module CsInvariant {
  import opened CsCode
  import opened CsProtocol

  // ---- Sums over the threads ----

  function Sum(f: Thread -> nat, ts: seq<Thread>): nat {
    if ts == [] then 0 else f(ts[0]) + Sum(f, ts[1..])
  }

  lemma {:induction false} SumUpdate(f: Thread -> nat, ts: seq<Thread>, i: nat, t: Thread)
    requires i < |ts|
    ensures Sum(f, ts[i := t]) + f(ts[i]) == Sum(f, ts) + f(t)
  {
    if i == 0 {
      assert ts[0 := t][1..] == ts[1..];
    } else {
      SumUpdate(f, ts[1..], i - 1, t);
      assert ts[i := t][1..] == ts[1..][i - 1 := t];
    }
  }

  lemma {:induction false} SumAppend(f: Thread -> nat, ts: seq<Thread>, t: Thread)
    ensures Sum(f, ts + [t]) == Sum(f, ts) + f(t)
  {
    if ts == [] {
      assert ts + [t] == [t];
      assert [t][1..] == [];
    } else {
      SumAppend(f, ts[1..], t);
      assert (ts + [t])[1..] == ts[1..] + [t];
    }
  }

  lemma {:induction false} SumSame(f: Thread -> nat, ts: seq<Thread>, us: seq<Thread>)
    requires |ts| == |us|
    requires forall k :: 0 <= k < |ts| ==> f(ts[k]) == f(us[k])
    ensures Sum(f, ts) == Sum(f, us)
  {
    if ts != [] {
      SumSame(f, ts[1..], us[1..]);
    }
  }

  lemma {:induction false} SumAtLeast(f: Thread -> nat, ts: seq<Thread>, i: nat)
    requires i < |ts|
    ensures f(ts[i]) <= Sum(f, ts)
  {
    if i > 0 {
      SumAtLeast(f, ts[1..], i - 1);
    }
  }

  lemma {:induction false} SumAtLeastPair(f: Thread -> nat, ts: seq<Thread>, i: nat, j: nat)
    requires i < j < |ts|
    ensures f(ts[i]) + f(ts[j]) <= Sum(f, ts)
  {
    if i == 0 {
      SumAtLeast(f, ts[1..], j - 1);
    } else {
      SumAtLeastPair(f, ts[1..], i - 1, j - 1);
    }
  }

  lemma {:induction false} SumPositive(f: Thread -> nat, ts: seq<Thread>) returns (i: nat)
    requires Sum(f, ts) > 0
    ensures i < |ts| && f(ts[i]) > 0
  {
    if f(ts[0]) > 0 {
      i := 0;
    } else {
      var k := SumPositive(f, ts[1..]);
      i := k + 1;
    }
  }

  lemma {:induction false} SumZero(f: Thread -> nat, ts: seq<Thread>)
    requires forall k :: 0 <= k < |ts| ==> f(ts[k]) == 0
    ensures Sum(f, ts) == 0
  {
    if ts != [] {
      SumZero(f, ts[1..]);
    }
  }

  // ---- What each program counter means ----

  /** Between a claimed Enter or TryEnter and its return: the thread counts in LockCount. */
  predicate Entering(t: Thread) {
    || t.pc == 0x0f || t.pc == 0x11 || t.pc == 0x14 || t.pc == 0x1b || t.pc == 0x1d || t.pc == 0x20 || t.pc == 0x23
    || t.pc == 0x25 || t.pc == 0x28 || t.pc == 0x2a || t.pc == 0x2d || t.pc == 0x2f
    || ((t.pc == 0x6c || t.pc == 0x73) && t.zf) || t.pc == 0x75 || t.pc == 0x78 || t.pc == 0x7f || t.pc == 0x84
    || t.pc == 0x90 || t.pc == 0x93 || t.pc == 0x98
  }

  /** In Leave, before LockCount is decremented. */
  predicate Leaving(t: Thread) {
    t.pc == 0x31 || t.pc == 0x35 || t.pc == 0x38 || t.pc == 0x3a || t.pc == 0x41 || t.pc == 0x4c
  }

  /** What the thread contributes to LockCount + 1. */
  function Count(t: Thread): nat {
    t.depth + if Entering(t) || Leaving(t) then 1 else 0
  }

  /** In a routine and owning the section without a completed entry of its own. */
  predicate AcquiringFirst(t: Thread) {
    || (t.pc == 0x0f && t.zf) || t.pc == 0x11 || t.pc == 0x14 || t.pc == 0x1b || t.pc == 0x1d || t.pc == 0x2f
    || ((t.pc == 0x6c || t.pc == 0x73) && t.zf) || t.pc == 0x75 || t.pc == 0x78 || t.pc == 0x7f || t.pc == 0x84
  }

  /** Has released the section but still has to hand it to a waiter. */
  predicate PendingWake(t: Thread) {
    (t.pc == 0x45 && t.ge) || t.pc == 0x55
  }

  predicate OwnsSection(t: Thread) {
    t.depth > 0 || AcquiringFirst(t) || Leaving(t)
  }

  predicate HoldsToken(t: Thread) {
    OwnsSection(t) || PendingWake(t)
  }

  function Token(t: Thread): nat {
    if HoldsToken(t) then 1 else 0
  }

  /** Counted in LockCount without owning: it waits, or is about to. */
  predicate Waiting(t: Thread) {
    Count(t) > 0 && !OwnsSection(t)
  }

  /** OwningThread holds this thread's id. */
  predicate Registered(t: Thread) {
    || t.depth > 0 || t.pc == 0x14 || t.pc == 0x1b || t.pc == 0x1d || t.pc == 0x31 || t.pc == 0x35 || t.pc == 0x38
    || t.pc == 0x3a || t.pc == 0x78 || t.pc == 0x7f || t.pc == 0x84
  }

  /** RecursionCount describes this thread. */
  predicate RecursionKnown(t: Thread) {
    || t.depth > 0 || t.pc == 0x1b || t.pc == 0x1d || t.pc == 0x31 || t.pc == 0x35 || t.pc == 0x38
    || t.pc == 0x3a || t.pc == 0x41 || t.pc == 0x7f || t.pc == 0x84
  }

  function Recursion(t: Thread): nat {
    t.depth +
    if t.pc == 0x1b || t.pc == 0x1d || t.pc == 0x28 || t.pc == 0x2a || t.pc == 0x31 || t.pc == 0x35
       || t.pc == 0x7f || t.pc == 0x84 || t.pc == 0x93 || t.pc == 0x98 then 1 else 0
  }

  predicate EdxIsTid(pc: int) {
    0x0b <= pc <= 0x11 || pc == 0x20 || pc == 0x23 || pc == 0x2d || pc == 0x2f || pc == 0x73 || pc == 0x75 || pc == 0x87
  }

  /** What a thread's own registers and flags promise at each program counter. */
  predicate Local(cs: int, t: Thread) {
    && t.tid != 0
    && (t.pc == OUT || Listing(t.pc).Decoded?)
    && (t.parked != 0 ==> t.pc == ENTER_WAIT)
    && (t.pc != OUT && t.pc != ENTER && t.pc != LEAVE && t.pc != TRY_ENTER ==> t.ecx == cs)
    && (EdxIsTid(t.pc) ==> t.edx == t.tid)
    && (t.pc == 0x65 || t.pc == 0x67 ==> t.eax == -1)
    && (t.pc == 0x67 ==> t.edx == 0)
    && (t.pc == 0x84 || t.pc == 0x98 ==> t.eax == 1)
    && (t.pc == 0x9d ==> t.eax == 0)
    && (AcquiringFirst(t) || PendingWake(t) || t.pc == 0x2d ==> t.depth == 0)
    && (t.pc == 0x3a || t.pc == 0x41 ==> t.depth == 0)
    && (t.pc == 0x45 || t.pc == 0x47 || t.pc == 0x49 || t.pc == 0x57 || t.pc == 0x59 || t.pc == 0x9b || t.pc == 0x9d ==>
        t.depth == 0)
    && (t.pc == 0x25 || t.pc == 0x28 || t.pc == 0x2a || t.pc == 0x4c || t.pc == 0x50 || t.pc == 0x52 ==> t.depth > 0)
    && (t.pc == 0x8c || t.pc == 0x90 || t.pc == 0x93 || t.pc == 0x98 ==> t.depth > 0)
    && (t.pc == 0x23 || t.pc == 0x8a ==> (t.zf <==> t.depth > 0))
    && (t.pc == 0x38 ==> (t.zf <==> t.depth == 0))
  }

  /** How the shared fields relate to one thread. */
  predicate Shared(sec: Section, t: Thread) {
    && (sec.owningThread == t.tid <==> Registered(t))
    && (RecursionKnown(t) ==> sec.recursionCount == Recursion(t))
    && (t.parked != 0 ==> t.parked == sec.lockSemaphore)
  }

  predicate DistinctTids(ts: seq<Thread>) {
    forall j, k :: 0 <= j < k < |ts| ==> ts[j].tid != ts[k].tid
  }

  predicate Threads(s: State) {
    && DistinctTids(s.threads)
    && (forall k :: 0 <= k < |s.threads| ==> Local(s.cs, s.threads[k]))
    && (forall k :: 0 <= k < |s.threads| ==> Shared(s.sec, s.threads[k]))
    && (forall k :: 0 <= k < |s.threads| && s.threads[k].parked != 0 ==> !Signaled(s))
  }

  predicate Idle(s: State) {
    && ((forall k :: 0 <= k < |s.threads| ==> !Registered(s.threads[k])) ==> s.sec.owningThread == 0)
    && ((forall k :: 0 <= k < |s.threads| ==> !RecursionKnown(s.threads[k])) ==> s.sec.recursionCount == 0)
  }

  function EventToken(s: State): nat {
    if Signaled(s) then 1 else 0
  }

  /** LockCount + 1 counts the owner's entries and the waiters, and the right to
      the section is in exactly one place while LockCount >= 0. */
  predicate Counts(s: State) {
    && -1 <= s.sec.lockCount <= MAX_LOCK
    && s.sec.lockCount + 1 == Sum(Count, s.threads)
    && Sum(Token, s.threads) + EventToken(s) == if s.sec.lockCount >= 0 then 1 else 0
  }

  predicate Semaphore(s: State) {
    var h := s.sec.lockSemaphore;
    && s.nextHandle > 0
    && (forall g :: g in s.handles ==> g < s.nextHandle)
    && (h != 0 ==> h in s.handles && s.handles[h].Event? && !s.handles[h].manualReset)
  }

  predicate Inv(s: State) {
    !s.faulted && Threads(s) && Idle(s) && Counts(s) && Semaphore(s)
  }

  lemma InitialInv(s: State)
    requires Initial(s)
    ensures Inv(s)
  {
  }

  // ---- Ordinary instructions ----

  /** What one thread may rely on when it takes a step. */
  predicate Before(cs: int, sec: Section, t: Thread) {
    && Local(cs, t) && Shared(sec, t)
    && -1 <= sec.lockCount <= MAX_LOCK
    && Count(t) <= sec.lockCount + 1
    && (HoldsToken(t) ==> sec.lockCount >= 0)
  }

  function Held(lockCount: int): nat {
    if lockCount >= 0 then 1 else 0
  }

  /** A step of one thread, seen from that thread alone, that keeps the invariant. */
  predicate Keeps(cs: int, sec: Section, t: Thread, sec': Section, t': Thread) {
    && t'.tid == t.tid && t'.parked == t.parked
    && Local(cs, t') && Shared(sec', t')
    && sec'.lockSemaphore == sec.lockSemaphore
    && -1 <= sec'.lockCount <= MAX_LOCK
    && sec'.lockCount - sec.lockCount == Count(t') - Count(t)
    && Token(t') - Token(t) == Held(sec'.lockCount) - Held(sec.lockCount)
    && (sec'.owningThread != sec.owningThread || sec'.recursionCount != sec.recursionCount ==> HoldsToken(t))
    && (sec'.owningThread == sec.owningThread || sec'.owningThread == 0 || sec'.owningThread == t.tid)
    && (!Registered(t') ==> sec'.owningThread == 0 || (!Registered(t) && sec'.owningThread == sec.owningThread))
    && (!RecursionKnown(t') ==>
        sec'.recursionCount == 0 || (!RecursionKnown(t) && sec'.recursionCount == sec.recursionCount))
  }

  predicate OrdinaryStep(t: Thread) {
    Listing(t.pc).Decoded? && !Listing(t.pc).instr.Trap? && t.parked == 0
  }

  lemma EnterLoadFirstKeeps(cs: int, sec: Section, t: Thread)
    requires Before(cs, sec, t) && OrdinaryStep(t) && 0x00 <= t.pc < 0x04
    ensures var (sec', t') := Execute(cs, sec, t); Keeps(cs, sec, t, sec', t')
  {
  }

  lemma EnterLoadSecondKeeps(cs: int, sec: Section, t: Thread)
    requires Before(cs, sec, t) && OrdinaryStep(t) && 0x04 <= t.pc < 0x0b
    ensures var (sec', t') := Execute(cs, sec, t); Keeps(cs, sec, t, sec', t')
  {
  }

  lemma EnterClaimKeeps(cs: int, sec: Section, t: Thread)
    requires Before(cs, sec, t) && OrdinaryStep(t) && 0x0b <= t.pc < 0x0f
    requires Listing(t.pc).instr == IncField(4) ==> sec.lockCount < MAX_LOCK
    ensures var (sec', t') := Execute(cs, sec, t); Keeps(cs, sec, t, sec', t')
  {
  }

  lemma EnterBranchKeeps(cs: int, sec: Section, t: Thread)
    requires Before(cs, sec, t) && OrdinaryStep(t) && 0x0f <= t.pc < 0x14
    ensures var (sec', t') := Execute(cs, sec, t); Keeps(cs, sec, t, sec', t')
  {
  }

  lemma EnterOwnKeeps(cs: int, sec: Section, t: Thread)
    requires Before(cs, sec, t) && OrdinaryStep(t) && 0x14 <= t.pc < 0x20
    ensures var (sec', t') := Execute(cs, sec, t); Keeps(cs, sec, t, sec', t')
  {
  }

  lemma EnterBusyKeeps(cs: int, sec: Section, t: Thread)
    requires Before(cs, sec, t) && OrdinaryStep(t) && 0x20 <= t.pc < 0x25
    ensures var (sec', t') := Execute(cs, sec, t); Keeps(cs, sec, t, sec', t')
  {
  }

  lemma EnterRecurseKeeps(cs: int, sec: Section, t: Thread)
    requires Before(cs, sec, t) && OrdinaryStep(t) && 0x25 <= t.pc < 0x31
    ensures var (sec', t') := Execute(cs, sec, t); Keeps(cs, sec, t, sec', t')
  {
  }

  lemma LeaveReleaseKeeps(cs: int, sec: Section, t: Thread)
    requires Before(cs, sec, t) && OrdinaryStep(t) && 0x31 <= t.pc < 0x3a
    ensures var (sec', t') := Execute(cs, sec, t); Keeps(cs, sec, t, sec', t')
  {
  }

  lemma LeaveClearKeeps(cs: int, sec: Section, t: Thread)
    requires Before(cs, sec, t) && OrdinaryStep(t) && 0x3a <= t.pc < 0x47
    ensures var (sec', t') := Execute(cs, sec, t); Keeps(cs, sec, t, sec', t')
  {
  }

  lemma LeaveFreeKeeps(cs: int, sec: Section, t: Thread)
    requires Before(cs, sec, t) && OrdinaryStep(t) && 0x47 <= t.pc < 0x50
    ensures var (sec', t') := Execute(cs, sec, t); Keeps(cs, sec, t, sec', t')
  {
  }

  lemma LeaveReturnKeeps(cs: int, sec: Section, t: Thread)
    requires Before(cs, sec, t) && OrdinaryStep(t) && 0x50 <= t.pc < 0x5c
    ensures var (sec', t') := Execute(cs, sec, t); Keeps(cs, sec, t, sec', t')
  {
  }

  lemma TryLoadKeeps(cs: int, sec: Section, t: Thread)
    requires Before(cs, sec, t) && OrdinaryStep(t) && 0x5c <= t.pc < 0x65
    ensures var (sec', t') := Execute(cs, sec, t); Keeps(cs, sec, t, sec', t')
  {
  }

  lemma TryClaimKeeps(cs: int, sec: Section, t: Thread)
    requires Before(cs, sec, t) && OrdinaryStep(t) && 0x65 <= t.pc < 0x6c
    ensures var (sec', t') := Execute(cs, sec, t); Keeps(cs, sec, t, sec', t')
  {
  }

  lemma TryBranchFirstKeeps(cs: int, sec: Section, t: Thread)
    requires Before(cs, sec, t) && OrdinaryStep(t) && 0x6c <= t.pc < 0x73
    ensures var (sec', t') := Execute(cs, sec, t); Keeps(cs, sec, t, sec', t')
  {
  }

  lemma TryBranchSecondKeeps(cs: int, sec: Section, t: Thread)
    requires Before(cs, sec, t) && OrdinaryStep(t) && 0x73 <= t.pc < 0x75
    ensures var (sec', t') := Execute(cs, sec, t); Keeps(cs, sec, t, sec', t')
  {
  }

  lemma TryOwnKeeps(cs: int, sec: Section, t: Thread)
    requires Before(cs, sec, t) && OrdinaryStep(t) && 0x75 <= t.pc < 0x7f
    ensures var (sec', t') := Execute(cs, sec, t); Keeps(cs, sec, t, sec', t')
  {
  }

  lemma TryGrantKeeps(cs: int, sec: Section, t: Thread)
    requires Before(cs, sec, t) && OrdinaryStep(t) && 0x7f <= t.pc < 0x87
    ensures var (sec', t') := Execute(cs, sec, t); Keeps(cs, sec, t, sec', t')
  {
  }

  lemma TryBusyKeeps(cs: int, sec: Section, t: Thread)
    requires Before(cs, sec, t) && OrdinaryStep(t) && 0x87 <= t.pc < 0x8c
    ensures var (sec', t') := Execute(cs, sec, t); Keeps(cs, sec, t, sec', t')
  {
  }

  lemma TryRecurseKeeps(cs: int, sec: Section, t: Thread)
    requires Before(cs, sec, t) && OrdinaryStep(t) && 0x8c <= t.pc < 0x93
    requires Listing(t.pc).instr == IncField(4) ==> sec.lockCount < MAX_LOCK
    ensures var (sec', t') := Execute(cs, sec, t); Keeps(cs, sec, t, sec', t')
  {
  }

  lemma TryReturnKeeps(cs: int, sec: Section, t: Thread)
    requires Before(cs, sec, t) && OrdinaryStep(t) && 0x93 <= t.pc < 0xa0
    ensures var (sec', t') := Execute(cs, sec, t); Keeps(cs, sec, t, sec', t')
  {
  }

  lemma ExecuteKeeps(cs: int, sec: Section, t: Thread)
    requires Before(cs, sec, t) && OrdinaryStep(t)
    requires Listing(t.pc).instr == IncField(4) ==> sec.lockCount < MAX_LOCK
    ensures var (sec', t') := Execute(cs, sec, t); Keeps(cs, sec, t, sec', t')
  {
    if t.pc < 0x04 { EnterLoadFirstKeeps(cs, sec, t); }
    else if t.pc < 0x0b { EnterLoadSecondKeeps(cs, sec, t); }
    else if t.pc < 0x0f { EnterClaimKeeps(cs, sec, t); }
    else if t.pc < 0x14 { EnterBranchKeeps(cs, sec, t); }
    else if t.pc < 0x20 { EnterOwnKeeps(cs, sec, t); }
    else if t.pc < 0x25 { EnterBusyKeeps(cs, sec, t); }
    else if t.pc < 0x31 { EnterRecurseKeeps(cs, sec, t); }
    else if t.pc < 0x3a { LeaveReleaseKeeps(cs, sec, t); }
    else if t.pc < 0x47 { LeaveClearKeeps(cs, sec, t); }
    else if t.pc < 0x50 { LeaveFreeKeeps(cs, sec, t); }
    else if t.pc < 0x5c { LeaveReturnKeeps(cs, sec, t); }
    else if t.pc < 0x65 { TryLoadKeeps(cs, sec, t); }
    else if t.pc < 0x6c { TryClaimKeeps(cs, sec, t); }
    else if t.pc < 0x73 { TryBranchFirstKeeps(cs, sec, t); }
    else if t.pc < 0x75 { TryBranchSecondKeeps(cs, sec, t); }
    else if t.pc < 0x7f { TryOwnKeeps(cs, sec, t); }
    else if t.pc < 0x87 { TryGrantKeeps(cs, sec, t); }
    else if t.pc < 0x8c { TryBusyKeeps(cs, sec, t); }
    else if t.pc < 0x93 { TryRecurseKeeps(cs, sec, t); }
    else { TryReturnKeeps(cs, sec, t); }
  }

  // ---- From one thread to the whole state ----

  /** At most one thread holds the token, and none while the event is set. */
  lemma TokenIsUnique(s: State, i: nat, j: nat)
    requires Counts(s) && i < |s.threads| && j < |s.threads|
    requires HoldsToken(s.threads[i])
    ensures s.sec.lockCount >= 0 && !Signaled(s)
    ensures HoldsToken(s.threads[j]) ==> i == j
  {
    SumAtLeast(Token, s.threads, i);
    if i < j {
      SumAtLeastPair(Token, s.threads, i, j);
    } else if j < i {
      SumAtLeastPair(Token, s.threads, j, i);
    }
  }

  lemma BeforeAt(s: State, i: nat)
    requires Inv(s) && i < |s.threads|
    ensures Before(s.cs, s.sec, s.threads[i])
  {
    SumAtLeast(Count, s.threads, i);
    SumAtLeast(Token, s.threads, i);
  }

  lemma OtherThreadsKeep(s: State, i: nat, sec: Section, t: Thread)
    requires Inv(s) && i < |s.threads|
    requires Keeps(s.cs, s.sec, s.threads[i], sec, t)
    ensures forall k :: 0 <= k < |s.threads| && k != i ==> Shared(sec, s.threads[k])
  {
    forall k | 0 <= k < |s.threads| && k != i
      ensures Shared(sec, s.threads[k])
    {
      if sec.owningThread != s.sec.owningThread || sec.recursionCount != s.sec.recursionCount {
        TokenIsUnique(s, i, k);
      }
    }
  }

  lemma OthersUnchanged(s: State, i: nat, sec: Section, t: Thread)
    requires Inv(s) && i < |s.threads|
    requires Keeps(s.cs, s.sec, s.threads[i], sec, t)
    ensures Idle(WithThread(s, i, t).(sec := sec))
  {
    var s' := WithThread(s, i, t).(sec := sec);
    if (forall k :: 0 <= k < |s'.threads| ==> !Registered(s'.threads[k])) && sec.owningThread != 0 {
      assert !Registered(s'.threads[i]);
      forall k | 0 <= k < |s.threads| ensures !Registered(s.threads[k]) {
        assert !Registered(s'.threads[k]);
      }
    }
    if (forall k :: 0 <= k < |s'.threads| ==> !RecursionKnown(s'.threads[k])) && sec.recursionCount != 0 {
      assert !RecursionKnown(s'.threads[i]);
      forall k | 0 <= k < |s.threads| ensures !RecursionKnown(s.threads[k]) {
        assert !RecursionKnown(s'.threads[k]);
      }
    }
  }

  lemma CountsAfter(s: State, i: nat, sec: Section, t: Thread)
    requires Counts(s) && i < |s.threads|
    requires -1 <= sec.lockCount <= MAX_LOCK && sec.lockSemaphore == s.sec.lockSemaphore
    requires sec.lockCount - s.sec.lockCount == Count(t) - Count(s.threads[i])
    requires Token(t) - Token(s.threads[i]) == Held(sec.lockCount) - Held(s.sec.lockCount)
    ensures Counts(WithThread(s, i, t).(sec := sec))
  {
    SumUpdate(Count, s.threads, i, t);
    SumUpdate(Token, s.threads, i, t);
  }

  /** A step that keeps the invariant as seen from its thread keeps it for all. */
  lemma KeepsLifts(s: State, i: nat, sec: Section, t: Thread)
    requires Inv(s) && i < |s.threads|
    requires Keeps(s.cs, s.sec, s.threads[i], sec, t)
    ensures Inv(WithThread(s, i, t).(sec := sec))
  {
    CountsAfter(s, i, sec, t);
    OtherThreadsKeep(s, i, sec, t);
    OthersUnchanged(s, i, sec, t);
  }

  // ---- The traps ----

  lemma LockSemaphoreKeeps(s: State)
    requires Inv(s)
    ensures var s1 := LockSemaphore(s);
      && Inv(s1) && s1.sec.lockSemaphore != 0 && s1.threads == s.threads
      && s1.cs == s.cs && s1.sec == s.sec.(lockSemaphore := s1.sec.lockSemaphore)
      && (Signaled(s1) <==> Signaled(s))
  {
  }

  lemma WaitingThread(cs: int, t: Thread, h: int)
    requires Local(cs, t) && t.pc == ENTER_WAIT && t.parked == 0
    ensures Local(cs, t.(pc := 0x2f)) && Local(cs, t.(parked := h))
    ensures Count(t.(pc := 0x2f)) == Count(t) && Count(t.(parked := h)) == Count(t)
    ensures !Registered(t) && !Registered(t.(pc := 0x2f)) && !RecursionKnown(t) && !RecursionKnown(t.(pc := 0x2f))
    ensures !Registered(t.(parked := h)) && !RecursionKnown(t.(parked := h))
    ensures Token(t) == 0 && Token(t.(pc := 0x2f)) == 1 && Token(t.(parked := h)) == 0
  {
  }

  lemma WakingThread(cs: int, t: Thread)
    requires Local(cs, t) && t.pc == LEAVE_WAKE
    ensures var u := t.(pc := 0x57);
      && Local(cs, u) && Count(u) == Count(t) && Token(t) == 1 && Token(u) == 0
      && !Registered(u) && !Registered(t) && !RecursionKnown(u) && !RecursionKnown(t)
  {
  }

  /** A state that differs only in thread i, which changes nothing the other
      parts of the invariant can see, and in the event. */
  predicate SameButOne(s: State, s': State, i: nat) {
    && |s'.threads| == |s.threads| && i < |s.threads|
    && s'.cs == s.cs && s'.sec == s.sec && s'.nextHandle == s.nextHandle && !s'.faulted
    && s'.threads[i].tid == s.threads[i].tid && Local(s.cs, s'.threads[i])
    && !Registered(s'.threads[i]) && !Registered(s.threads[i])
    && !RecursionKnown(s'.threads[i]) && !RecursionKnown(s.threads[i])
    && (forall k :: 0 <= k < |s.threads| ==>
         && (s'.threads[k].parked == 0 || (s'.threads[k].parked == s.sec.lockSemaphore && !Signaled(s')))
         && (k != i ==> s'.threads[k].(parked := 0) == s.threads[k].(parked := 0))
         && (s'.threads[k].parked != 0 ==> s'.threads[k].pc == ENTER_WAIT))
  }

  lemma SameButOneThreads(s: State, s': State, i: nat)
    requires Inv(s) && SameButOne(s, s', i)
    ensures Threads(s')
  {
    forall k | 0 <= k < |s.threads|
      ensures Local(s'.cs, s'.threads[k]) && Shared(s'.sec, s'.threads[k]) && s'.threads[k].tid == s.threads[k].tid
    {
      if k != i {
        assert Local(s.cs, s.threads[k]) && Shared(s.sec, s.threads[k]);
      }
    }
  }

  lemma TakeEventKeeps(s: State, i: nat)
    requires Inv(s) && i < |s.threads| && s.threads[i].pc == ENTER_WAIT && s.threads[i].parked == 0 && Signaled(s)
    ensures Inv(WithThread(WithSignal(s, false), i, s.threads[i].(pc := 0x2f)))
  {
    hide Local, Listing, Shared, Idle;
    var u := s.threads[i].(pc := 0x2f);
    var s' := WithThread(WithSignal(s, false), i, u);
    WaitingThread(s.cs, s.threads[i], 0);
    SumUpdate(Count, s.threads, i, u);
    SumUpdate(Token, s.threads, i, u);
    assert SameButOne(s, s', i);
    SameButOneThreads(s, s', i);
    IdleAfter(s, s', i);
  }

  lemma ParkKeeps(s: State, i: nat)
    requires Inv(s) && i < |s.threads| && s.threads[i].pc == ENTER_WAIT && s.threads[i].parked == 0 && !Signaled(s)
    ensures Inv(WithThread(s, i, s.threads[i].(parked := s.sec.lockSemaphore)))
  {
    hide Listing, Idle;
    var u := s.threads[i].(parked := s.sec.lockSemaphore);
    var s' := WithThread(s, i, u);
    WaitingThread(s.cs, s.threads[i], s.sec.lockSemaphore);
    SumUpdate(Count, s.threads, i, u);
    SumUpdate(Token, s.threads, i, u);
    assert SameButOne(s, s', i);
    SameButOneThreads(s, s', i);
    IdleAfter(s, s', i);
  }

  lemma EnterWaitKeeps(s: State, i: nat)
    requires Inv(s) && i < |s.threads| && s.threads[i].pc == ENTER_WAIT && s.threads[i].parked == 0
    ensures Inv(EnterWait(s, i))
  {
    LockSemaphoreKeeps(s);
    var s1 := LockSemaphore(s);
    if Signaled(s1) {
      TakeEventKeeps(s1, i);
    } else {
      ParkKeeps(s1, i);
    }
  }

  function SetEvent(s: State, i: nat): State
    requires i < |s.threads|
  {
    var s2 := WithThread(WithSignal(s, true), i, s.threads[i].(pc := 0x57));
    s2.(threads := Unpark(s2.threads, s2.sec.lockSemaphore))
  }

  lemma SetEventCounts(s: State, i: nat)
    requires Inv(s) && i < |s.threads| && s.threads[i].pc == LEAVE_WAKE && s.sec.lockSemaphore != 0
    ensures Counts(SetEvent(s, i))
  {
    hide Local, Idle, Listing, Registered, RecursionKnown;
    var u := s.threads[i].(pc := 0x57);
    WakingThread(s.cs, s.threads[i]);
    TokenIsUnique(s, i, i);
    SumUpdate(Count, s.threads, i, u);
    SumUpdate(Token, s.threads, i, u);
    var ts := s.threads[i := u];
    SumSame(Count, ts, Unpark(ts, s.sec.lockSemaphore));
    SumSame(Token, ts, Unpark(ts, s.sec.lockSemaphore));
  }

  lemma SetEventSame(s: State, i: nat)
    requires Inv(s) && i < |s.threads| && s.threads[i].pc == LEAVE_WAKE && s.sec.lockSemaphore != 0
    ensures SameButOne(s, SetEvent(s, i), i)
  {
    WakingThread(s.cs, s.threads[i]);
    forall k | 0 <= k < |s.threads| ensures SetEvent(s, i).threads[k].parked == 0 {
      assert Shared(s.sec, s.threads[k]) && Local(s.cs, s.threads[k]);
    }
  }

  lemma SetEventKeeps(s: State, i: nat)
    requires Inv(s) && i < |s.threads| && s.threads[i].pc == LEAVE_WAKE && s.sec.lockSemaphore != 0
    ensures Inv(SetEvent(s, i))
  {
    SetEventCounts(s, i);
    SetEventSame(s, i);
    SameButOneThreads(s, SetEvent(s, i), i);
    assert forall k :: 0 <= k < |s.threads| && k != i ==>
      s.threads[k].(parked := 0) == SetEvent(s, i).threads[k].(parked := 0);
    IdleAfter(s, SetEvent(s, i), i);
  }

  lemma LeaveWakeKeeps(s: State, i: nat)
    requires Inv(s) && i < |s.threads| && s.threads[i].pc == LEAVE_WAKE
    ensures Inv(LeaveWake(s, i))
  {
    hide Threads, Idle, Counts;
    LockSemaphoreKeeps(s);
    var s1 := LockSemaphore(s);
    SetEventKeeps(s1, i);
    assert LeaveWake(s, i) == SetEvent(s1, i);
  }

  /** Idle depends on each thread only through Registered and RecursionKnown. */
  lemma IdleAfter(s: State, s': State, i: nat)
    requires Idle(s) && |s.threads| == |s'.threads| && i < |s.threads|
    requires s'.sec.owningThread == s.sec.owningThread && s'.sec.recursionCount == s.sec.recursionCount
    requires forall k :: 0 <= k < |s.threads| ==>
      (Registered(s'.threads[k]) <==> Registered(s.threads[k]))
      && (RecursionKnown(s'.threads[k]) <==> RecursionKnown(s.threads[k]))
    ensures Idle(s')
  {
    if forall k :: 0 <= k < |s'.threads| ==> !Registered(s'.threads[k]) {
      forall k | 0 <= k < |s.threads| ensures !Registered(s.threads[k]) {
        assert !Registered(s'.threads[k]);
      }
    }
    if forall k :: 0 <= k < |s'.threads| ==> !RecursionKnown(s'.threads[k]) {
      forall k | 0 <= k < |s.threads| ensures !RecursionKnown(s.threads[k]) {
        assert !RecursionKnown(s'.threads[k]);
      }
    }
  }

  // ---- Every action ----

  /** What touches the section does so through ecx, which has been loaded by then. */
  lemma EcxIsLoaded(cs: int, t: Thread)
    requires Local(cs, t) && Listing(t.pc).Decoded? && t.parked == 0
    ensures TouchesSection(Listing(t.pc).instr) ==> t.ecx == cs
    ensures t.pc != ENTER_WAIT && t.pc != LEAVE_WAKE ==> OrdinaryStep(t)
  {
  }

  /** Apart from the two traps a step is the execution of one instruction. */
  lemma StepIs(s: State, i: nat)
    requires Inv(s) && Enabled(s, Run(i))
    ensures var t := s.threads[i];
      && (t.pc == ENTER_WAIT ==> Step(s, i) == EnterWait(s, i))
      && (t.pc == LEAVE_WAKE ==> Step(s, i) == LeaveWake(s, i))
      && (t.pc != ENTER_WAIT && t.pc != LEAVE_WAKE ==>
           && OrdinaryStep(t) && Before(s.cs, s.sec, t)
           && var (sec, u) := Execute(s.cs, s.sec, t); Step(s, i) == WithThread(s, i, u).(sec := sec))
  {
    BeforeAt(s, i);
    hide Execute, EnterWait, LeaveWake, Inv, Listing, Local, TouchesSection, OrdinaryStep;
    EcxIsLoaded(s.cs, s.threads[i]);
  }

  lemma StepKeeps(s: State, i: nat)
    requires Inv(s) && Enabled(s, Run(i))
    ensures Inv(Step(s, i))
  {
    hide Inv, Execute, EnterWait, LeaveWake, Keeps, Before, Step, OrdinaryStep;
    StepIs(s, i);
    var t := s.threads[i];
    if t.pc == ENTER_WAIT {
      EnterWaitKeeps(s, i);
    } else if t.pc == LEAVE_WAKE {
      LeaveWakeKeeps(s, i);
    } else {
      ExecuteKeeps(s.cs, s.sec, t);
      var (sec, u) := Execute(s.cs, s.sec, t);
      KeepsLifts(s, i, sec, u);
    }
  }

  lemma CallKeeps(s: State, i: nat, t: Thread)
    requires Inv(s) && i < |s.threads| && s.threads[i].pc == OUT
    requires t == s.threads[i].(pc := ENTER) || t == s.threads[i].(pc := TRY_ENTER)
      || (s.threads[i].depth > 0 && t == s.threads[i].(pc := LEAVE, depth := s.threads[i].depth - 1))
    ensures Inv(WithThread(s, i, t))
  {
    hide Inv;
    BeforeAt(s, i);
    KeepsLifts(s, i, s.sec, t);
    assert WithThread(s, i, t).(sec := s.sec) == WithThread(s, i, t);
  }

  lemma SpawnThreads(s: State, t: Thread)
    requires Threads(s) && Local(s.cs, t) && Shared(s.sec, t) && t.parked == 0
    requires forall k :: 0 <= k < |s.threads| ==> s.threads[k].tid != t.tid
    ensures Threads(s.(threads := s.threads + [t]))
  {
    var ts := s.threads + [t];
    assert forall k :: 0 <= k < |ts| ==> ts[k] == if k < |s.threads| then s.threads[k] else t;
  }

  lemma NewThread(s: State, tid: int)
    requires Inv(s) && Enabled(s, Spawn(tid)) && s.sec.owningThread != tid
    ensures var t := Thread(tid, OUT, 0, 0, 0, false, false, 0, 0);
      Local(s.cs, t) && Shared(s.sec, t) && Count(t) == 0 && Token(t) == 0
  {
  }

  lemma SpawnKeeps(s: State, tid: int)
    requires Inv(s) && Enabled(s, Spawn(tid))
    requires s.sec.owningThread != tid
    ensures Inv(Apply(s, Spawn(tid)))
  {
    hide Local, Shared, Listing, Registered, RecursionKnown, Count, Token;
    var t := Thread(tid, OUT, 0, 0, 0, false, false, 0, 0);
    NewThread(s, tid);
    SumAppend(Count, s.threads, t);
    SumAppend(Token, s.threads, t);
    SpawnThreads(s, t);
    SpawnIdle(s, Apply(s, Spawn(tid)));
  }

  lemma SpawnIdle(s: State, s': State)
    requires Idle(s) && |s'.threads| > |s.threads| && s'.sec == s.sec
    requires forall k :: 0 <= k < |s.threads| ==> s'.threads[k] == s.threads[k]
    ensures Idle(s')
  {
    if forall k :: 0 <= k < |s'.threads| ==> !Registered(s'.threads[k]) {
      forall k | 0 <= k < |s.threads| ensures !Registered(s.threads[k]) {
        assert !Registered(s'.threads[k]);
      }
    }
    if forall k :: 0 <= k < |s'.threads| ==> !RecursionKnown(s'.threads[k]) {
      forall k | 0 <= k < |s.threads| ensures !RecursionKnown(s.threads[k]) {
        assert !RecursionKnown(s'.threads[k]);
      }
    }
  }

  lemma OwnerIsAThread(s: State)
    requires Inv(s) && s.sec.owningThread != 0
    ensures exists k :: 0 <= k < |s.threads| && s.threads[k].tid == s.sec.owningThread
  {
    var k :| 0 <= k < |s.threads| && Registered(s.threads[k]);
  }

  lemma ApplyKeeps(s: State, a: Action)
    requires Inv(s) && Enabled(s, a)
    ensures Inv(Apply(s, a))
  {
    match a
    case Run(i) => StepKeeps(s, i);
    case CallEnter(i) => CallKeeps(s, i, s.threads[i].(pc := ENTER));
    case CallLeave(i) => CallKeeps(s, i, s.threads[i].(pc := LEAVE, depth := s.threads[i].depth - 1));
    case CallTryEnter(i) => CallKeeps(s, i, s.threads[i].(pc := TRY_ENTER));
    case Spawn(tid) =>
      if s.sec.owningThread == tid { OwnerIsAThread(s); }
      SpawnKeeps(s, tid);
    case OtherHandles(handles, next) =>
  }

  /** The invariant holds after any schedule from a fresh section. */
  lemma {:induction false} PlayKeeps(s: State, schedule: seq<Action>)
    requires Inv(s)
    ensures Inv(Play(s, schedule))
    decreases |schedule|
  {
    if schedule != [] {
      var before := schedule[..|schedule| - 1];
      var a := schedule[|schedule| - 1];
      PlayKeeps(s, before);
      if Enabled(Play(s, before), a) {
        ApplyKeeps(Play(s, before), a);
      }
    }
  }
}
