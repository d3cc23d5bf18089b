/** The critical-section protocol as a transition system: any number of threads
    run the guest code one instruction at a time, in any interleaving, on one
    RTL_CRITICAL_SECTION; the two int 0xFE traps are atomic steps as well. */
module CsProtocol {
  import opened CsCode

  // The program counter of a thread that is not inside any of the routines.
  const OUT := -1
  // Clients keep the total number of entries and waiters below 2^31.
  const MAX_LOCK := 0x7fff_fffe

  /** The fields of the 24-byte structure that the code reads or writes. */
  datatype Section = Section(lockCount: int, recursionCount: int, owningThread: int, lockSemaphore: int)

  datatype KernelObject = Event(signaled: bool, manualReset: bool) | OtherObject

  /** One guest thread. `ge` is the jge condition (SF == OF); `parked` is the
      handle the thread is blocked on, 0 when it is runnable; `depth` counts the
      entries the client code has made and not yet asked to leave. */
  datatype Thread = Thread(tid: int, pc: int, ecx: int, edx: int, eax: int, zf: bool, ge: bool, parked: int, depth: nat)

  /** `cs` is the address of the section; `faulted` records a RuntimeError or an
      access through ecx that misses the section. */
  datatype State = State(cs: int, sec: Section, handles: map<int, KernelObject>, nextHandle: int,
                         threads: seq<Thread>, faulted: bool)

  function Wrap32(v: int): int {
    (v + 0x8000_0000) % 0x1_0000_0000 - 0x8000_0000
  }

  function Load(sec: Section, disp: int): int {
    if disp == 4 then sec.lockCount
    else if disp == 8 then sec.recursionCount
    else if disp == 0xc then sec.owningThread
    else sec.lockSemaphore
  }

  function Store(sec: Section, disp: int, v: int): Section {
    if disp == 4 then sec.(lockCount := v)
    else if disp == 8 then sec.(recursionCount := v)
    else if disp == 0xc then sec.(owningThread := v)
    else sec.(lockSemaphore := v)
  }

  predicate TouchesSection(instr: Instr) {
    instr.IncField? || instr.DecField? || instr.StoreEdx? || instr.StoreImm? || instr.CmpEdx? || instr.CmpXchgEdx?
  }

  /** The client-visible depth after `ret 4` at this offset: EnterCriticalSection
      always entered, TryEnterCriticalSection did if it returns non-zero. */
  function DepthAfterRet(t: Thread): nat {
    if t.pc < LEAVE || (t.pc >= TRY_ENTER && t.eax != 0) then t.depth + 1 else t.depth
  }

  /** One ordinary instruction: the effect on the section and on the thread. */
  function Execute(cs: int, sec: Section, t: Thread): (Section, Thread) {
    Effect(cs, sec, t, Listing(t.pc))
  }

  function Effect(cs: int, sec: Section, t: Thread, d: Decoded): (Section, Thread) {
    if d.Undecodable? then (sec, t) else
    var u := t.(pc := d.next);
    match d.instr
    case LoadArg => (sec, u.(ecx := cs))
    case LoadTid => (sec, u.(edx := t.tid))
    case IncField(disp) =>
      var v := Load(sec, disp) + 1;
      (Store(sec, disp, Wrap32(v)), u.(zf := Wrap32(v) == 0, ge := v >= 0))
    case DecField(disp) =>
      var v := Load(sec, disp) - 1;
      (Store(sec, disp, Wrap32(v)), u.(zf := Wrap32(v) == 0, ge := v >= 0))
    case StoreEdx(disp) => (Store(sec, disp, t.edx), u)
    case StoreImm(disp, imm) => (Store(sec, disp, imm), u)
    case CmpEdx(disp) => (sec, u.(zf := Load(sec, disp) == t.edx))
    case CmpXchgEdx(disp) =>
      if Load(sec, disp) == t.eax then (Store(sec, disp, t.edx), u.(zf := true))
      else (sec, u.(zf := false, eax := Load(sec, disp)))
    case ZeroEax => (sec, u.(eax := 0, zf := true, ge := true))
    case ZeroEdx => (sec, u.(edx := 0, zf := true, ge := true))
    case MovEax(imm) => (sec, u.(eax := imm))
    case Jne(target) => (sec, if t.zf then u else u.(pc := target))
    case Jge(target) => (sec, if t.ge then u.(pc := target) else u)
    case Jmp(target) => (sec, u.(pc := target))
    case Trap => (sec, u)
    case Ret => (sec, u.(pc := OUT, depth := DepthAfterRet(t)))
  }

  /** The section's LockSemaphore, created on first need as an auto-reset event. */
  function LockSemaphore(s: State): State {
    var h := s.sec.lockSemaphore;
    if h == 0 then
      s.(sec := s.sec.(lockSemaphore := s.nextHandle), nextHandle := s.nextHandle + 1,
         handles := s.handles[s.nextHandle := Event(false, false)])
    else if h in s.handles && s.handles[h].Event? then s
    else s.(faulted := true)
  }

  predicate Signaled(s: State) {
    var h := s.sec.lockSemaphore;
    h != 0 && h in s.handles && s.handles[h].Event? && s.handles[h].signaled
  }

  function WithSignal(s: State, signaled: bool): State {
    var h := s.sec.lockSemaphore;
    if h in s.handles && s.handles[h].Event? then s.(handles := s.handles[h := s.handles[h].(signaled := signaled)])
    else s
  }

  function WithThread(s: State, i: nat, t: Thread): State
    requires i < |s.threads|
  {
    s.(threads := s.threads[i := t])
  }

  /** Every thread parked on h becomes runnable. */
  function Unpark(threads: seq<Thread>, h: int): (r: seq<Thread>)
    ensures |r| == |threads|
    ensures forall k :: 0 <= k < |threads| ==>
      r[k] == if threads[k].parked == h then threads[k].(parked := 0) else threads[k]
  {
    seq(|threads|, k requires 0 <= k < |threads| =>
      if threads[k].parked == h then threads[k].(parked := 0) else threads[k])
  }

  /** The trap of a contended Enter: take a set event, or park and run the trap
      again once woken. */
  function EnterWait(s: State, i: nat): State
    requires i < |s.threads|
  {
    var s1 := LockSemaphore(s);
    if s1.faulted then s1
    else if Signaled(s1) then WithThread(WithSignal(s1, false), i, s.threads[i].(pc := Listing(ENTER_WAIT).next))
    else WithThread(s1, i, s.threads[i].(parked := s1.sec.lockSemaphore))
  }

  /** The trap of a Leave that left waiters behind: set the event, wake the parked. */
  function LeaveWake(s: State, i: nat): State
    requires i < |s.threads|
  {
    var s1 := LockSemaphore(s);
    if s1.faulted then s1
    else
      var s2 := WithThread(WithSignal(s1, true), i, s.threads[i].(pc := Listing(LEAVE_WAKE).next));
      s2.(threads := Unpark(s2.threads, s2.sec.lockSemaphore))
  }

  /** Thread i executes the instruction at its program counter. */
  function Step(s: State, i: nat): State
    requires i < |s.threads| && Listing(s.threads[i].pc).Decoded?
  {
    var t := s.threads[i];
    var instr := Listing(t.pc).instr;
    if t.pc == ENTER_WAIT then EnterWait(s, i)
    else if t.pc == LEAVE_WAKE then LeaveWake(s, i)
    else if TouchesSection(instr) && t.ecx != s.cs then s.(faulted := true)
    else
      var (sec, u) := Execute(s.cs, s.sec, t);
      WithThread(s, i, u).(sec := sec)
  }

  datatype Action =
    | Run(i: nat)                   // one instruction of thread i
    | CallEnter(i: nat)
    | CallLeave(i: nat)
    | CallTryEnter(i: nat)
    | Spawn(tid: int)
    | OtherHandles(handles: map<int, KernelObject>, nextHandle: int) // handle traffic of unrelated code

  /** What the scheduler and the client code may do next. A thread that is parked
      cannot run; Leave is called only by a thread that has entered; the total of
      entries and waiters stays below 2^31; unrelated code takes fresh handles
      and leaves the section's own event alone. */
  predicate Enabled(s: State, a: Action) {
    match a
    case Run(i) =>
      && i < |s.threads| && s.threads[i].parked == 0 && Listing(s.threads[i].pc).Decoded?
      && (Listing(s.threads[i].pc).instr == IncField(4) ==> s.sec.lockCount < MAX_LOCK)
    case CallEnter(i) => i < |s.threads| && s.threads[i].pc == OUT
    case CallLeave(i) => i < |s.threads| && s.threads[i].pc == OUT && s.threads[i].depth > 0
    case CallTryEnter(i) => i < |s.threads| && s.threads[i].pc == OUT
    case Spawn(tid) => tid != 0 && forall k :: 0 <= k < |s.threads| ==> s.threads[k].tid != tid
    case OtherHandles(handles, next) =>
      && s.nextHandle <= next && (forall h :: h in handles ==> h < next)
      && (var h := s.sec.lockSemaphore; h != 0 && h in s.handles ==> h in handles && handles[h] == s.handles[h])
  }

  function Apply(s: State, a: Action): State
    requires Enabled(s, a)
  {
    match a
    case Run(i) => Step(s, i)
    case CallEnter(i) => WithThread(s, i, s.threads[i].(pc := ENTER))
    case CallLeave(i) => WithThread(s, i, s.threads[i].(pc := LEAVE, depth := s.threads[i].depth - 1))
    case CallTryEnter(i) => WithThread(s, i, s.threads[i].(pc := TRY_ENTER))
    case Spawn(tid) => s.(threads := s.threads + [Thread(tid, OUT, 0, 0, 0, false, false, 0, 0)])
    case OtherHandles(handles, next) => s.(handles := handles, nextHandle := next)
  }

  /** A freshly initialised section, before any thread has touched it. */
  predicate Initial(s: State) {
    && s.sec == Section(-1, 0, 0, 0)
    && s.threads == []
    && s.nextHandle > 0 && (forall h :: h in s.handles ==> h < s.nextHandle)
    && !s.faulted
  }

  /** A schedule as it plays out: an action that is not enabled is skipped. */
  function Play(s: State, schedule: seq<Action>): State
    decreases |schedule|
  {
    if schedule == [] then s
    else
      var before := Play(s, schedule[..|schedule| - 1]);
      var a := schedule[|schedule| - 1];
      if Enabled(before, a) then Apply(before, a) else before
  }
}
