/** The critical section as the emulator holds it: fields of guest memory and of
    the kernel handle map that the instructions and the two traps update in place. */
module CsMachine {
  import opened CsCode
  import opened CsProtocol
  import opened CsInvariant

  class Machine {
    const cs: int
    var lockCount: int
    var recursionCount: int
    var owningThread: int
    var lockSemaphore: int
    var handles: map<int, KernelObject>
    var nextHandle: int
    var threads: seq<Thread>
    var faulted: bool

    function View(): State
      reads this
    {
      State(cs, Section(lockCount, recursionCount, owningThread, lockSemaphore), handles, nextHandle, threads, faulted)
    }

    constructor (cs: int, handles: map<int, KernelObject>, nextHandle: int)
      requires nextHandle > 0 && forall h :: h in handles ==> h < nextHandle
      ensures Initial(View()) && this.cs == cs
    {
      this.cs := cs;
      lockCount, recursionCount, owningThread, lockSemaphore := -1, 0, 0, 0;
      this.handles, this.nextHandle := handles, nextHandle;
      threads, faulted := [], false;
    }

    /** _lock_semaphore: the handle of the section's event, created on first need. */
    method LockSemaphoreHandle() returns (h: int)
      modifies this
      ensures View() == LockSemaphore(old(View()))
      ensures !faulted ==> h == lockSemaphore
    {
      h := lockSemaphore;
      if h == 0 {
        h := nextHandle;
        nextHandle := nextHandle + 1;
        handles := handles[h := Event(false, false)];
        lockSemaphore := h;
      } else if !(h in handles && handles[h].Event?) {
        faulted := true;
      }
    }

    /** _cs_enter_wait, run by thread i. */
    method EnterWaitTrap(i: nat)
      requires i < |threads| && !faulted && Semaphore(View())
      modifies this
      ensures View() == EnterWait(old(View()), i)
    {
      var h := LockSemaphoreHandle();
      if faulted {
        return;
      }
      if handles[h].signaled {
        handles := handles[h := handles[h].(signaled := false)];
        threads := threads[i := threads[i].(pc := 0x2f)];
      } else {
        threads := threads[i := threads[i].(parked := h)];
      }
    }

    /** unblock_handle: every thread parked on h becomes runnable. */
    method UnblockHandle(h: int)
      modifies this`threads
      ensures threads == Unpark(old(threads), h)
    {
      var k := 0;
      ghost var before := threads;
      while k < |threads|
        invariant k <= |threads| == |before|
        invariant forall j :: 0 <= j < k ==> threads[j] == Unpark(before, h)[j]
        invariant forall j :: k <= j < |threads| ==> threads[j] == before[j]
      {
        if threads[k].parked == h {
          threads := threads[k := threads[k].(parked := 0)];
        }
        k := k + 1;
      }
    }

    /** _cs_leave_wake, run by thread i. */
    method LeaveWakeTrap(i: nat)
      requires i < |threads| && !faulted && Semaphore(View())
      modifies this
      ensures View() == LeaveWake(old(View()), i)
    {
      var h := LockSemaphoreHandle();
      if faulted {
        return;
      }
      handles := handles[h := handles[h].(signaled := true)];
      threads := threads[i := threads[i].(pc := 0x57)];
      UnblockHandle(h);
    }

    /** Fetches and decodes the instruction at pc from the code bytes. */
    method Fetch(pc: int) returns (d: Decoded)
      requires Listing(pc).Decoded?
      ensures d == Listing(pc)
    {
      BytesDecode(pc);
      d := At(pc);
    }

    /** One instruction of thread i, decoded from the bytes. */
    method RunInstruction(i: nat)
      requires i < |threads| && !faulted && Semaphore(View()) && Listing(threads[i].pc).Decoded?
      modifies this
      ensures View() == Step(old(View()), i)
    {
      var t := threads[i];
      var d := Fetch(t.pc);
      if t.pc == ENTER_WAIT {
        EnterWaitTrap(i);
      } else if t.pc == LEAVE_WAKE {
        LeaveWakeTrap(i);
      } else if TouchesSection(d.instr) && t.ecx != cs {
        faulted := true;
      } else {
        var (sec, u) := Effect(cs, Section(lockCount, recursionCount, owningThread, lockSemaphore), t, d);
        lockCount, recursionCount, owningThread, lockSemaphore :=
          sec.lockCount, sec.recursionCount, sec.owningThread, sec.lockSemaphore;
        threads := threads[i := u];
      }
    }

    method Perform(a: Action)
      requires Inv(View()) && Enabled(View(), a)
      modifies this
      ensures View() == Apply(old(View()), a)
    {
      match a
      case Run(i) => RunInstruction(i);
      case CallEnter(i) => threads := threads[i := threads[i].(pc := ENTER)];
      case CallLeave(i) => threads := threads[i := threads[i].(pc := LEAVE, depth := threads[i].depth - 1)];
      case CallTryEnter(i) => threads := threads[i := threads[i].(pc := TRY_ENTER)];
      case Spawn(tid) => threads := threads + [Thread(tid, OUT, 0, 0, 0, false, false, 0, 0)];
      case OtherHandles(handles', next') => handles, nextHandle := handles', next';
    }

    /** Any schedule on a fresh section plays out as the transition system says,
        never faults, and never lets two threads in. */
    method Interleave(schedule: seq<Action>)
      requires Initial(View())
      modifies this
      ensures View() == Play(old(View()), schedule)
      ensures Inv(View()) && !faulted
      ensures forall j, k :: 0 <= j < k < |threads| ==> !(threads[j].depth > 0 && threads[k].depth > 0)
    {
      InitialInv(View());
      PlayPrefix(View(), schedule);
      hide Inv, Play, Enabled, Apply, Initial;
      var n := 0;
      while n < |schedule|
        invariant n <= |schedule|
        invariant View() == Play(old(View()), schedule[..n])
        invariant Inv(View())
      {
        if Enabled(View(), schedule[n]) {
          ApplyKeeps(View(), schedule[n]);
          Perform(schedule[n]);
        }
        n := n + 1;
      }
      assert schedule[..n] == schedule;
      NoTwoInside(View());
    }
  }

  /** The schedule one action at a time. */
  lemma PlayPrefix(s: State, schedule: seq<Action>)
    ensures Play(s, schedule[..0]) == s
    ensures forall n :: 0 <= n < |schedule| ==>
      var before := Play(s, schedule[..n]);
      Play(s, schedule[..n + 1]) == if Enabled(before, schedule[n]) then Apply(before, schedule[n]) else before
  {
    forall n | 0 <= n < |schedule|
      ensures var before := Play(s, schedule[..n]);
        Play(s, schedule[..n + 1]) == if Enabled(before, schedule[n]) then Apply(before, schedule[n]) else before
    {
      assert schedule[..n + 1][..n] == schedule[..n];
      hide Enabled, Apply;
    }
  }

  lemma NoTwoInside(s: State)
    requires Inv(s)
    ensures !s.faulted
    ensures forall j, k :: 0 <= j < k < |s.threads| ==> !(s.threads[j].depth > 0 && s.threads[k].depth > 0)
  {
    forall j, k | 0 <= j < k < |s.threads| ensures !(s.threads[j].depth > 0 && s.threads[k].depth > 0) {
      if s.threads[j].depth > 0 { TokenIsUnique(s, j, k); }
    }
  }
}
