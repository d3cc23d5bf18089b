# Verified model of the tew guest runtime

tew runs 32-bit Windows programs on Linux: guest code in an emulated x86
machine, Windows API functions as Python handlers over a flat guest memory. This
project models the parts of those handlers that carry state or exact formats and
proves what they promise. To check the proofs: `dafny verify dfyconfig.toml`, with
Dafny 4.11.

What is modelled, file by file:

- `CsCode`, `CsProtocol`, `CsInvariant`, `CsTheorems`, `CsProgress`, `CsMachine`: critical
  sections. The guest routines are decoded from their bytes; any number of
  threads run them one instruction at a time in any order; the two traps are
  atomic steps. The central invariant is a token: while LockCount is not -1 the
  right to the section is in exactly one place, with a thread that owns it, with
  a thread that still has to wake a waiter, or in the set event. A measure on what
  each thread still has to do shows that any waiter can be let in.
- `GuestMemory`, `HeapModel`, `HeapSums`, `HeapRuns`, `HeapReuse`, `GuestHeap`: the guest heap. First
  fit with splitting over a bump cursor, where each allocation is placed and that freed
  memory is used again, HeapAlloc, HeapFree and HeapReAlloc on real memory contents.
- `SectionList`, `CriticalSections`, `SectionRecords`, `SectionRuns`: initialising and
  deleting critical sections, with the process-wide circular list kept inside blocks
  of that heap, through every run of what a program may do in between.
- `VirtualMemory`, `VirtualExact`: VirtualAlloc and VirtualFree with the two-pass next-fit
  search, and what its terms mean in bytes and bits.
- `Numerals`, `NumeralsExact`, `Printf`, `PrintExact`, `Scanf`, `ScanExact`, `PrintScan`:
  number texts, the printf and scanf engines (sections 7.19.6.1 and 7.19.6.2 of
  ISO/IEC 9899:1999 describe the originals), what they print and read character by
  character, and their round trip.
- `IniText`, `Ini`, `IniProfile`, `IniMeaning`: INI files, their normal form, reading and
  writing, and what a file means line by line.
- `PythonInt`, `DialogTemplate`, `DialogRoundTrip`: dialog templates and string
  tables of PE resources.
- `Dib`, `DibBytes`: device-independent bitmaps, and which bytes of one each pixel is.
- `Waits`, `WaitEffects`, `WaitHandlers`: mutexes, events and the wait functions.
- `FileTrigger`: the trigger on a text in a growing file.
- `MouseQueue`, `MouseLog`: DirectInput mouse state and buffered data.
- `SoundRing`, `SoundExact`: DirectSound buffers.
- `FileLocks`, `LockedBytes`: byte-range file locks.
- `Options`, `Lists`, `LittleEndian`: shared definitions.

Where the source changes state, a class keeps it in fields and each method is
proved against a specification on values; the theorems are about those
specifications over all inputs or all runs. What the specifications compute is fixed once
more without them, by literal characters, bytes, offsets and lists: in `HeapReuse`,
`VirtualExact`, `NumeralsExact`, `PrintExact`, `ScanExact`, `IniMeaning`, `DibBytes`,
`WaitEffects`, `MouseLog`, `SoundExact` and `LockedBytes`.

Findings, each stated exactly and with a concrete input where a promise fails:

- The bump cursor does not advance for size 0, and an empty allocation may be
  given out twice (`HeapRuns.BumpAdvancesIff`, `HeapRuns.AllocExclusiveIff`).
- A VirtualAlloc that reserves a size that rounds to 0 discards a reservation exactly
  if the address it is given is one or, given none, if the search from the cursor ends
  at one (`VirtualMemory.AddressSpace.VirtualAlloc`; two runs that do are
  `VirtualMemory.AddressSpace.ReserveThenDiscard` and
  `VirtualMemory.AddressSpace.WrapThenDiscard`).
- An INI value or name that is not in canonical form does not survive writing and
  reading (`IniProfile.SetSurvivesIff`); a value with spaces at its ends comes back
  without them (`IniProfile.WriteThenRead`).
- ReleaseMutex does not check the caller: the owner keeps the mutex exactly if it
  holds it more than once (`Waits.OwnerKeepsIff`). A signal wakes the sleepers on the
  handle it is given, so one on another handle of the object may sleep on; when
  exactly is `Waits.MissesNoneIff`, and `Waits.MissedThroughDuplicate` a run that
  shows it.
- A lock of more bytes than the buffer has overlapping regions
  (`SoundRing.LockSafeIff`), and a 16-bit buffer with an odd number of bytes left
  never stops playing (`SoundRing.EndsIff`).
- A dialog text `#N` cannot be told from the ordinal N, and no other two fields are
  confused (`DialogRoundTrip.ShownAlikeIff`); a class text such as `# +1_29` is
  resolved like the ordinal 129 (`DialogRoundTrip.ResolvedIff`).
- `_itoa` fails or never ends for some radices (`Numerals.ItoaUnsigned`).

## Model

| member | source | states |
|---|---|---|
| CsCode.BytesDecode | tew/api/kernel32_sync.py:115-173 | At every offset of the three routines the 160 code bytes decode to the instruction the comments list there; the machine executes what it decodes |
| CsMachine.Machine.LockSemaphoreHandle | tew/api/kernel32_sync.py:176-191 | The handle and event of the section, created unset on first need; fails exactly for a handle that is no event |
| CsMachine.Machine.EnterWaitTrap | tew/api/kernel32_sync.py:195-202 | The waiting Enter takes the set event or parks; the new state is that of the protocol step |
| CsMachine.Machine.LeaveWakeTrap | tew/api/kernel32_sync.py:205-209 | The waking Leave sets the event and makes its sleepers runnable; the new state is that of the protocol step |
| CsMachine.Machine.RunInstruction | tew/api/kernel32_sync.py:115-173 | One instruction of one thread, decoded from the bytes and run on the shared structure, is one protocol step |
| CsMachine.Machine.Interleave | tew/api/kernel32_sync.py:115-209 | Any schedule run on the mutable machine ends in the state the protocol says |
| CsInvariant.ExecuteKeeps | tew/api/kernel32_sync.py:115-173 | Every single instruction, seen from its thread, keeps the counts, the token, the fields and the registers consistent |
| CsInvariant.EnterWaitKeeps | tew/api/kernel32_sync.py:195-202 | The wait trap keeps the whole invariant: taking the event moves the token to the waiter, parking moves nothing |
| CsInvariant.LeaveWakeKeeps | tew/api/kernel32_sync.py:205-209 | The wake trap keeps the whole invariant: the pending wake becomes the set event, the sleepers run |
| CsInvariant.KeepsLifts | tew/api/kernel32_sync.py:115-173 | A step that is consistent for its own thread keeps the invariant for any number of other threads |
| CsInvariant.ApplyKeeps | tew/api/kernel32_sync.py:115-209 | Every enabled action of any thread keeps the invariant: an instruction, a call, a new thread, unrelated handle traffic |
| CsInvariant.PlayKeeps | tew/api/kernel32_sync.py:115-209 | The invariant holds after every schedule |
| CsTheorems.MutualExclusion | tew/api/kernel32_sync.py:115-209 | In every reachable state at most one thread is inside the section |
| CsTheorems.OneToken | tew/api/kernel32_sync.py:112-117 | Down to single instructions: while LockCount is 0 or more the right to the section is in exactly one place, an owner, a pending waker or the set event; at -1 there is none and the event is unset |
| CsTheorems.NeverFaults | tew/api/kernel32_sync.py:188-190 | No schedule reaches the RuntimeError about a foreign LockSemaphore or touches memory outside the section |
| CsTheorems.LockCountCounts | tew/api/kernel32_sync.py:107-108 | LockCount + 1 is the owner's entries, recursive and in-flight ones included, plus the waiters |
| CsTheorems.LockCountWithoutOwner | tew/api/kernel32_sync.py:107-108 | Without an owner LockCount + 1 is the number of waiters |
| CsTheorems.OwnerFields | tew/api/kernel32_sync.py:122-139 | OwningThread names a thread only while it owns; outside the routines RecursionCount is the number of its entries |
| CsTheorems.BalancedRunRestores | tew/api/kernel32_sync.py:70-75 | After every balanced run the structure is back at LockCount -1, owner 0, recursion 0, with the event unset |
| CsTheorems.WaiterHasSomeoneResponsible | tew/api/kernel32_sync.py:109-114 | Whenever a thread waits there is an owner, a pending waker or a set event |
| CsTheorems.SetEventHasATaker | tew/api/kernel32_sync.py:195-202 | While the event is set nobody is parked and some waiter is there to take it |
| CsTheorems.WakeFindsEventUnset | tew/api/kernel32_sync.py:205-209 | The waking Leave always finds the event unset, leaves it set, and a waiter for it exists |
| CsTheorems.EventChangesHands | tew/api/kernel32_sync.py:195-209 | Only the wake trap sets the event and only the wait trap resets it, and the thread that resets it owns the section |
| CsTheorems.ParkedThreadIsNotAlone | tew/api/kernel32_sync.py:201-202 | If a thread is parked, another that is not parked is in a routine or in the section: no deadlock of parked threads alone |
| CsTheorems.ReturnTellsTheTruth | tew/api/kernel32_sync.py:124-172 | Enter returns inside the section; TryEnter returns 1 exactly when inside, otherwise 0 |
| CsTheorems.TryEnterNeverOvertakes | tew/api/kernel32_sync.py:153-158 | The compare-and-exchange wins exactly when nobody holds the token and no event is set for a waiter |
| CsProgress.InstructionRuns | tew/api/kernel32_sync.py:115-173 | Every instruction other than the two traps brings its thread strictly closer to its return, by a measure on its entries and position |
| CsProgress.HolderHandsOver | tew/api/kernel32_sync.py:115-209 | While somebody waits, running on the thread that holds the right, which leaves as often as it entered and wakes, brings a given waiter inside and back to its client code |
| CsProgress.WaiterCanGetIn | tew/api/kernel32_sync.py:115-209 | No waiter is ever stuck: from every reachable state some schedule brings any given waiter back to its client code inside the section |
| HeapRuns.BumpAdvancesIff | tew/hardware/alloc_zig.py:22-30 | The cursor formula advances an aligned cursor exactly for sizes of at least 1 (its documentation says always) |
| HeapRuns.ZeroSizeDoesNotAdvance | tew/hardware/alloc_zig.py:25-26 | The counterexample: size 0 at the heap base |
| HeapModel.AllocSafe | tew/api/_state.py:543-570 | A positive allocation keeps live and free blocks pairwise disjoint, aligned and inside the arena, and returns an address that was not live |
| HeapModel.FreeSafe | tew/api/_state.py:583-586 | Freeing keeps all of that |
| HeapModel.SplitExtent | tew/api/_state.py:549-553 | The rounded extents of the two parts of a split block add up to the extent of the block |
| HeapRuns.AllocConserves | tew/api/_state.py:543-570 | Reuse, splitting and bumping neither lose nor duplicate a byte of extent |
| HeapRuns.FreeConserves | tew/api/_state.py:583-586 | Nor does freeing, although it records the unrounded size |
| HeapRuns.HeapSafety | tew/api/_state.py:531-586 | In every run of positive allocations and frees: blocks disjoint, aligned, in the arena below the thread stacks; extents of live and free blocks add up exactly to the bytes handed out; user bytes never exceed them |
| HeapRuns.AllocExclusiveIff | tew/api/_state.py:543-570 | A successful allocation is the caller's alone exactly if its size is at least 1 |
| HeapRuns.ZeroSizeAliases | tew/api/_state.py:558-570 | The counterexample: two empty allocations get the same address |
| HeapReuse.PlacedInFirst | tew/api/_state.py:543-556 | If some free block is large enough, the allocation is at the first such block, the cursor stays, and what is left of the block is the last on the free list |
| HeapReuse.PlacedAtCursor | tew/api/_state.py:558-570 | If none is, the allocation is at the old cursor, which moves to the next multiple of 16 after it |
| HeapReuse.ExhaustedIff | tew/api/_state.py:558-566 | The error is raised exactly if no free block is large enough and the cursor would pass 0x08000000 |
| HeapReuse.FirstAddress | tew/api/_state.py:297-300 | The first block of a new heap is at 0x04000000, and there is room exactly for sizes up to 64 MiB |
| HeapReuse.FreedIsReused | tew/api/_state.py:531-586 | After freeing a block every request up to its size succeeds without moving the cursor |
| HeapReuse.OldestFirst | tew/api/_state.py:543-586 | Of two freed blocks that fit, with no earlier one, the one freed first is used first |
| HeapReuse.SameAddressAgain | tew/api/_state.py:531-586 | A block allocated at the cursor, because no free one was large enough, and freed is given out again for the next request of its size |
| HeapReuse.RoundsSucceed | tew/api/_state.py:531-586 | So any number of rounds of allocating and freeing succeeds once the first does, and the cursor moves only in that one |
| GuestHeap.Guest.FillMemory | tew/api/_state.py:527-529 | Fills exactly the given range |
| GuestHeap.Guest.TakeFree | tew/api/_state.py:545-554 | The first-fit case leaves the free list and the sizes of the model |
| GuestHeap.Guest.SimpleAlloc | tew/api/_state.py:531-570 | The loop and the bump case compute the model's allocation, any size, which HeapReuse places on the lists alone; the block is filled and no other byte changes; the error at the thread stacks changes nothing |
| GuestHeap.Guest.AllocBlock | tew/api/_state.py:531-570 | For positive sizes the new block is apart from every live block, none of which changes |
| GuestHeap.Guest.SimpleFree | tew/api/_state.py:572-586 | NULL is a no-op, an unknown pointer the error, anything else the model's free; no block that stays live changes |
| GuestHeap.Guest.HeapAlloc | tew/api/kernel32_memory.py:72-102 | Halts exactly on a bad heap or flags, raises exactly if the arena is exhausted; otherwise a new block of max(size, 1) bytes where the allocator places it, owned by the heap, zeroed on request, no live block changed |
| GuestHeap.Guest.HeapFree | tew/api/kernel32_memory.py:104-131 | Halts exactly on a bad heap, flags or pointer, changing nothing; otherwise the block goes to the end of the free list, filled with 0xDD, with its owner forgotten, and no other byte changes |
| GuestHeap.Guest.HeapReAlloc | tew/api/kernel32_memory.py:133-170 | Halts, refuses and raises exactly when the handler does; otherwise the new block, placed as any allocation, starts with the first min(old, new) bytes of the old one, the tail is zero on request, the old block is freed after that, and no byte of any other live block changes |
| GuestHeap.FlagsMean | tew/api/kernel32_memory.py:20-26 | The known flags are exactly 0, 1, 8, 9 and for HeapReAlloc also those with 0x10; 8 asks for zeros, 0x10 for staying in place |
| SectionList.InsertKeepsRing | tew/api/kernel32_sync.py:66-69 | The four list writes put the new block between the old tail and the head of a well-formed ring |
| SectionList.UnlinkKeepsRing | tew/api/kernel32_sync.py:232-235 | The two list writes take exactly that block out of the ring |
| SectionList.ListUntouchedOk | tew/api/kernel32_sync.py:41-69 | A ring none of whose bytes changed, in blocks still live, is still well formed |
| SectionList.ClientWriteMissesList | tew/api/kernel32_sync.py:41-44 | Writes to memory that belongs to the client miss every block of the list, because live blocks are disjoint |
| CriticalSections.SectionTable.ListHead | tew/api/kernel32_sync.py:46-52 | Allocates the self-linked head once, and only then |
| CriticalSections.SectionTable.WriteInitialized | tew/api/kernel32_sync.py:54-75 | The new debug block is the tail of a well-formed list, points back to the section and is otherwise zero, and the section's words are DebugInfo, -1 and zeros; every listed block keeps its section, no other memory of the program changes, and it succeeds while the heap has room |
| CriticalSections.SectionTable.DeleteStructure | tew/api/kernel32_sync.py:225-239 | Fails exactly for a foreign LockSemaphore, changing nothing; else the event is closed, exactly that debug block leaves the list and the heap, and the structure is zero; the other blocks keep their sections, no other memory of the program changes |
| SectionRuns.Process.InitSection | tew/api/kernel32_sync.py:54-75 | For any structure in the program's memory, initialised before or not: it fails exactly if one of its two allocations does; else the list gains its block last, the structure is filled in, and a structure whose DebugInfo was not overwritten still points to its block, which points back |
| SectionRuns.Process.DeleteSection | tew/api/kernel32_sync.py:225-239 | The place of the block on the list follows from DebugInfo; exactly if LockSemaphore is an event or null that block, if any, leaves the list and the heap, the event is closed and the structure zeroed; otherwise nothing changes |
| SectionRuns.Process.LiveIsDeletable | tew/api/kernel32_sync.py:225-239 | A section initialised and not overwritten can be deleted, its DebugInfo being its own block |
| SectionRuns.Process.Store | tew/api/kernel32_sync.py:41-75 | Any store of the program into its own memory, sections included, keeps all that; it loses exactly the sections whose DebugInfo it hits |
| SectionRuns.Process.Alloc | tew/api/_state.py:531-570 | So does any allocation |
| SectionRuns.Process.Free | tew/api/_state.py:572-586 | So does freeing any block of the program's, with the sections in it |
| SectionRecords.OneMoreEvent | tew/api/kernel32_sync.py:41-75 | The undeleted sections after one more event: the new one last, the deleted one gone, the order kept |
| SectionRuns.Process.Perform | tew/api/kernel32_sync.py:41-239 | Any operation on the program's own memory changes the state as the handlers say and nothing else, what is not permitted changes nothing, and deleting a live section takes out its own block exactly if its LockSemaphore is an event or null |
| SectionRuns.Process.Run | tew/api/kernel32_sync.py:41-239 | For every run of initialising, deleting, allocating, freeing, storing and unrelated handle traffic: from the first state to the last each operation did what the handlers do, and after each of them the list holds exactly the debug blocks of the undeleted sections, in the order of their initialisation |
| VirtualMemory.Scan | tew/api/kernel32_memory.py:229-237 | One pass finds the least aligned address at or after its start where the request meets no reservation |
| VirtualMemory.SortedItems | tew/api/kernel32_memory.py:227 | The reservations in ascending order, all of them |
| VirtualMemory.AddressSpace.FindFreeRange | tew/api/kernel32_memory.py:223-238 | Sound and complete: the first address, in order from the cursor and then from the floor, that is aligned, ends in user space and overlaps nothing; None exactly if there is none |
| VirtualMemory.AddressSpace.TakeFreeRange | tew/api/kernel32_memory.py:246-255 | The same, and the cursor is just past the range; otherwise ERROR_NOT_ENOUGH_MEMORY and nothing else changes |
| VirtualMemory.AddressSpace.TakeRequested | tew/api/kernel32_memory.py:307-318 | A requested address passes exactly if it is in user space and, for a reservation, overlaps nothing; the cursor moves past it |
| VirtualMemory.AddressSpace.CommitAt | tew/api/kernel32_memory.py:290-304 | Committing alone halts exactly if the start is not reserved |
| VirtualMemory.AddressSpace.VirtualAlloc | tew/api/kernel32_memory.py:257-330 | When it halts, when it fails and with which error, and on success where the range is, where the cursor is left and what the three tables hold; reservations stay disjoint and the cursor aligned. Among non-empty reservations one is lost exactly if the call enters a size that rounds to 0 at an address given that is already reserved or, if none is given, with the next-fit search from the cursor ending at a reservation |
| VirtualMemory.AddressSpace.VirtualFree | tew/api/kernel32_memory.py:382-411 | Releases exactly the reservation at that address; decommits only the commit keyed there; halts otherwise |
| VirtualMemory.AddressSpace.Run | tew/api/kernel32_memory.py:257-411 | Every run of calls keeps the reservations pairwise disjoint and in user space and the cursor aligned; if no size rounds to 0, a reservation is lost only by its release |
| VirtualMemory.EnteredKeepsIff | tew/api/kernel32_memory.py:283-324 | Entering a range that overlaps no non-empty reservation keeps them all exactly if it is not empty or its address is new |
| VirtualMemory.RoundsToZeroIff | tew/api/kernel32_memory.py:276 | A size rounds to 0 exactly if it is 0 or above 0xFFFFF000 |
| VirtualMemory.NonEmptyReserveIsNew | tew/api/kernel32_memory.py:217-221 | Non-empty ranges that overlap nothing are never such a key |
| VirtualMemory.AddressSpace.ReserveNothingAt | tew/api/kernel32_memory.py:276-324 | In every state with non-empty reservations, reserving such a size at the address of one succeeds and loses its size |
| VirtualMemory.AddressSpace.ReserveNothing | tew/api/kernel32_memory.py:246-255 | The same without an address whenever the cursor is at a reservation |
| VirtualMemory.AddressSpace.ReserveThenDiscard | tew/api/kernel32_memory.py:276-324 | The counterexample in a new process: two calls at 0x40000000, the second of size 0 |
| VirtualMemory.AddressSpace.WrapThenDiscard | tew/api/kernel32_memory.py:223-255 | The counterexample with the address left to the program: three calls, the second of which wraps round and leaves the cursor at the first reservation |
| VirtualExact.KnownProtectIff | tew/api/kernel32_memory.py:269-275 | Exactly the combinations of bits 0, 2 and 6 are known protections |
| VirtualExact.KnownTypeIff | tew/api/kernel32_memory.py:262-268 | Exactly the combinations of bits 12 and 13 are known types; bit 12 commits, bit 13 reserves |
| VirtualExact.PageSizeIs | tew/api/kernel32_memory.py:276 | The size is the least multiple of 4096 that holds the request |
| VirtualExact.OverlapIff | tew/api/kernel32_memory.py:217-221 | Ranges overlap exactly if they have a byte in common or one is empty and strictly inside the other |
| VirtualExact.DisjointIff | tew/api/kernel32_memory.py:217-221 | Non-empty reservations are disjoint exactly if no byte is in two of them |
| VirtualExact.InReservedIff | tew/api/kernel32_memory.py:290-293 | A start is reserved exactly if its byte is in a reservation |
| VirtualExact.AdmissibleIff | tew/api/kernel32_memory.py:223-237 | An address the search may give is a whole page between floor and end with all bytes of the request free |
| VirtualExact.LandsIff | tew/api/kernel32_memory.py:223-237 | The search ends at the lowest such address from the cursor up or, only if there is none, at the lowest of all |
| VirtualExact.RefusedIff | tew/api/kernel32_memory.py:305-322 | A reservation at an address fails exactly if some byte is outside user space or already reserved, one without an address exactly if there is no room |
| VirtualExact.CursorAfterIs | tew/api/kernel32_memory.py:254-318 | A search leaves the cursor at the end of the range; a requested address moves it to the next whole page, never down |
| Numerals.ValueToBase | tew/api/msvcrt_handlers.py:1527-1534 | The digits written in any base from 2 to 36 are worth the number |
| Numerals.IntToBase | tew/api/msvcrt_handlers.py:1527-1534 | The divmod loop and the reversal produce those digits, for every radix: an exception for radix 0 and for a digit past the table, no end for radix 1, and "0" for 0 whatever the radix |
| Numerals.ItoaText | tew/api/msvcrt_handlers.py:1537-1552 | The text of _itoa, or its failure: signed in base 10 only |
| Numerals.WtoiScan | tew/api/msvcrt_handlers.py:1506-1523 | The scanning loops of _wtoi: blanks, sign, digits; a superscript digit raises |
| Numerals.WtoiItoa | tew/api/msvcrt_handlers.py:1506-1552 | _wtoi undoes _itoa in base 10 for every 32-bit value |
| Numerals.ItoaUnsigned | tew/api/msvcrt_handlers.py:1543-1548 | In every other base there is a text exactly for 0 and for values whose digits are all in the table, always so from base 2 to 36, and it is worth the unsigned value |
| NumeralsExact.DigitsMean | tew/api/msvcrt_handlers.py:1527-1534 | The digits are 0 to 9 and a to z in order, read in either case |
| NumeralsExact.ValueJoins | tew/api/msvcrt_handlers.py:1527-1534 | Digits count by their place: the value of two texts joined is that of the first times the power of the base, plus that of the second |
| NumeralsExact.WtoiTakes | tew/api/msvcrt_handlers.py:1506-1523 | _wtoi on any text, by its characters: blanks, at most one sign, the digits up to the first other character, their worth modulo 2^32; 0 without digits, an exception for a superscript among them |
| NumeralsExact.ItoaWrites | tew/api/msvcrt_handlers.py:1527-1552 | _itoa writes the digits of the base without leading zeros, after a minus exactly in base 10 for what is negative as a signed word |
| Printf.ScanFlags | tew/api/msvcrt_handlers.py:114-121 | The flag loop takes exactly the leading flag characters and sets the flags of the specification; which those are is PrintScan.DirectiveRead |
| Printf.ScanNumber | tew/api/msvcrt_handlers.py:133-134 | A digit loop takes exactly the leading decimal digits and their value |
| Printf.ScanDirective | tew/api/msvcrt_handlers.py:109-159 | A whole specification: flags, width or star, precision or star, ignored modifier, letter, or ? at the end |
| Printf.SprintfFormat | tew/api/msvcrt_handlers.py:84-262 | The formatting loop produces the text of the recursive specification for every format and arguments; what that text is, field by field, is PrintExact |
| Scanf.TakeRun | tew/api/msvcrt_handlers.py:1003-1006 | A digit loop stops at a non-digit or at the maximum width, which counts the sign or prefix |
| Scanf.TakeDigits | tew/api/msvcrt_handlers.py:1014-1025 | A decimal token: its value modulo 2^32, no match if empty, an exception for superscripts |
| Scanf.TakeHex | tew/api/msvcrt_handlers.py:1027-1040 | A hexadecimal token with its optional 0x; a bare 0x raises |
| Scanf.TakeSpec | tew/api/msvcrt_handlers.py:972-991 | A scan specification: width digits, ignored modifier, letter |
| Scanf.Sscanf | tew/api/msvcrt_handlers.py:942-1088 | The scanning loop performs the stores of the recursive specification for every text and format; what each part of a format takes of the text is PrintScan.ScanLiteral and ScanExact |
| PrintScan.ScanLiteral | tew/api/msvcrt_handlers.py:961-969 | A format character other than % and space takes that character exactly if the text goes on with it, and nothing otherwise |
| ScanExact.BlankScanned | tew/api/msvcrt_handlers.py:963-965 | A space in the format takes all blanks that come next, if any |
| ScanExact.NumberScanned | tew/api/msvcrt_handlers.py:971-1040 | What %d, %i, %u and %x with any width and modifier take of any text: blanks, a sign or 0x where allowed, and all digits or as many as the width leaves room for, sign and prefix counted; stored is their worth modulo 2^32. Without digits the scan ends, a bare prefix or a superscript raises |
| ScanExact.OtherLetter | tew/api/msvcrt_handlers.py:993-1086 | A letter that is no conversion skips blanks, unless it is an opening bracket, and uses up a pointer |
| PrintScan.DirectiveRead | tew/api/msvcrt_handlers.py:109-159 | The printer reads the text of any literal flags, width, precision, modifier and letter as that conversion, using no argument: each flag set exactly if its character is there, the width and the precision worth their digits, -1 without a dot |
| PrintScan.ConvertShows | tew/api/msvcrt_handlers.py:161-189 | %d, %i, %u, %x, %X print a sign or space and digits worth the argument |
| PrintScan.PadShows | tew/api/msvcrt_handlers.py:246-258 | Widening adds spaces around the number or zeros after its sign, and never changes its worth |
| PrintScan.PadPlaces | tew/api/msvcrt_handlers.py:246-258 | The result is as wide as asked or as its text, with the spaces on the side the flags say |
| PrintScan.PrecisionIsLeast | tew/api/msvcrt_handlers.py:165-166 | The precision is the least number of digits |
| PrintScan.SignShown | tew/api/msvcrt_handlers.py:161-174 | A minus exactly below zero, otherwise a plus or a space exactly as the flags ask, plus before space |
| PrintScan.OctalAndPointer | tew/api/msvcrt_handlers.py:191-197 | %o and %p show the word as well, %p as 0x and at least eight digits |
| PrintExact.FieldPrints | tew/api/msvcrt_handlers.py:109-258 | The text of a %d, %i, %u, %x, %X or %o field, from its own flags, width and precision: sign, zeros up to the precision, the digits without leading zeros, and the filling: spaces after with -, zeros after the sign with 0, else spaces before |
| PrintExact.PointerPrints | tew/api/msvcrt_handlers.py:196-197 | A pointer is 0x and exactly eight lower-case digits, filled in the same way |
| PrintExact.CharacterPrints | tew/api/msvcrt_handlers.py:199-200 | A character is the low byte of its word, filled with spaces only |
| PrintExact.StarsRead | tew/api/msvcrt_handlers.py:123-147 | Stars for width and precision take them from the next arguments, width first; the value follows |
| PrintExact.UnknownPrints | tew/api/msvcrt_handlers.py:243-258 | A letter that is no conversion is copied with its percent sign and uses up no argument |
| PrintExact.PlainText | tew/api/msvcrt_handlers.py:96-107 | Other characters are copied, %% is %, a last % is nothing |
| PrintScan.FieldIs | tew/api/msvcrt_handlers.py:993-1040 | Such a padded number reads back as the argument, up to its trailing spaces |
| PrintScan.ScanPrinted | tew/api/msvcrt_handlers.py:960-1040 | Induction over the fields: scanning what was printed stores every argument in turn |
| PrintScan.PrintScanRoundTrip | tew/api/msvcrt_handlers.py:84-262 | For all fields with literal flags, width and precision, all 32-bit arguments and any separator between the fields that has no percent sign and does not begin with a character that continues a number: scanning the printed text recovers every argument, one through each pointer, when the two formats and the text fit the 4096-byte reads |
| IniProfile.ParseIni | tew/api/ini_file.py:67-102 | The parsing loop computes the recursive specification |
| IniProfile.SerialiseIni | tew/api/ini_file.py:164-172 | So do the two serialising loops |
| Ini.ParseIsCanonical | tew/api/ini_file.py:82-100 | Whatever the text, the parsed names, keys and values are trimmed, on one line, lower-case where they must be, and unique |
| Ini.CanonicalRoundTrip | tew/api/ini_file.py:164-172 | Canonical data survive writing and parsing, order included |
| Ini.RoundTripIff | tew/api/ini_file.py:67-172 | Data survive exactly if they are canonical |
| Ini.ParsedRoundTrip | tew/api/ini_file.py:67-172 | Parsing the serialisation of a parsed file gives the same sections, keys, values and order, for every text |
| IniProfile.ReadProfileString | tew/api/ini_file.py:107-136 | The value of the key in the section whatever the case of the letters, the default exactly if there is none; without a key or section name a text that separates into the names |
| IniProfile.EnumerationSplits | tew/api/ini_file.py:128-134 | An enumeration separates at its zeros into exactly the names |
| IniProfile.ProfileFile.WriteProfileString | tew/api/ini_file.py:204-240 | False without a section name and then no change; else the file holds the updated data: section dropped, key dropped, or value set |
| IniProfile.ProfileFile.WriteProfileSection | tew/api/ini_file.py:243-260 | False without a section name; else the section is replaced |
| IniProfile.LastDefinitionWins | tew/api/ini_file.py:71-76 | An entry line in a section defines its key there, whatever it was before, and changes no other entry |
| IniProfile.SetSurvivesIff | tew/api/ini_file.py:234-240 | The file written by a set parses back to the written data exactly if the lower-cased names and the value are canonical |
| IniProfile.WriteThenRead | tew/api/ini_file.py:204-240 | After a write with canonical names a read gives the written value without the spaces at its ends, so the same value exactly if it had none, and every other read gives what it gave before |
| IniProfile.ReadsBackIff | tew/api/ini_file.py:204-240 | The written value itself reads back exactly if the lower-cased names and the value are canonical |
| IniProfile.DeleteKey | tew/api/ini_file.py:230-233 | Deleting a key removes it and nothing else from what the file reads as, whatever the names |
| IniProfile.DeleteSection | tew/api/ini_file.py:227-229 | Deleting a section removes it and nothing else |
| IniProfile.ReplaceSectionIff | tew/api/ini_file.py:258-260 | A replaced section holds exactly the pairs, others are untouched, and the file parses back exactly if name and pairs are canonical |
| Ini.SpacesAreLost | tew/api/ini_file.py:67-172 | Data whose values have spaces at their ends lose exactly those by being written and parsed |
| IniMeaning.LineActs | tew/api/ini_file.py:82-100 | What each line is, by its characters alone, is what the parser takes it for: blank or comment, header, entry, or nothing; a comment changes nothing, a header opens its section and keeps what it has, an entry counts in the section of the last header |
| IniMeaning.LineIsSomething | tew/api/ini_file.py:82-100 | And every line is one of the four |
| IniMeaning.LinesAre | tew/api/ini_file.py:82 | Lines end at CR LF or any one of eight break characters; the last need not |
| IniMeaning.FileMeans | tew/api/ini_file.py:67-102 | For every text: exactly the sections with a header are there, and a key of a section has a value exactly if that is the value of its last entry line under such a header |
| IniMeaning.ReadMeans | tew/api/ini_file.py:107-136 | So a read gives the value of the last entry line for that key in that section, letters of either case taken as the same, or else the default |
| IniMeaning.FileIsWritten | tew/api/ini_file.py:164-172 | A written file is, character by character, each section as its header and its key=value lines, with an empty line between sections |
| DialogTemplate.Align4 | tew/api/pe_resources.py:417-418 | The next multiple of four |
| DialogTemplate.ReadUtf16 | tew/api/pe_resources.py:421-430 | The loop reads units to a zero or the end of the data |
| DialogTemplate.ReadVarField | tew/api/pe_resources.py:433-460 | Empty, ordinal or text, with the truncated cases |
| DialogTemplate.ParseItem | tew/api/pe_resources.py:373-411 | One control, its position in bounds, the next strictly later and aligned, its class resolved as Python reads the number |
| DialogTemplate.ParseItems | tew/api/pe_resources.py:350-358 | The control loop |
| DialogTemplate.ParseTemplate | tew/api/pe_resources.py:319-371 | The whole template, none if cut short |
| DialogRoundTrip.FieldReads | tew/api/pe_resources.py:433-460 | An encoded field reads back and the position lands just after it |
| DialogRoundTrip.ItemReads | tew/api/pe_resources.py:373-411 | An encoded control parses to itself, its extra data skipped, the next one aligned |
| DialogRoundTrip.ItemsRead | tew/api/pe_resources.py:350-358 | So do any number of them, in order |
| DialogRoundTrip.DialogRoundTrips | tew/api/pe_resources.py:319-411 | Every encoded template, whatever follows it, parses to the same title, position, style, font and controls in order |
| DialogRoundTrip.FontBit | tew/api/pe_resources.py:339-346 | A template has a font exactly if bit 6 of its style is set |
| DialogRoundTrip.ControlsFit | tew/api/pe_resources.py:350-358 | Controls take at least 20 bytes each, so a parsed dialog has no more than its data allow |
| PythonInt.WrittenReads | tew/api/pe_resources.py:465-468 | Spaces, an optional plus, digits of any script with single underscores between them, and spaces are read as their number |
| PythonInt.ReadIsWritten | tew/api/pe_resources.py:465-468 | Nothing else is read as a positive number |
| DialogRoundTrip.ResolvedIff | tew/api/pe_resources.py:463-471 | A class field is changed exactly if it is one of the six ordinals or a text that writes one after #, and then to the name of that class |
| DialogRoundTrip.ClassNames | tew/api/pe_resources.py:463-471 | The ordinals 0x80 to 0x85 and texts that write them after # become BUTTON, EDIT, STATIC, LISTBOX, SCROLLBAR and COMBOBOX |
| DialogRoundTrip.ShownAlikeIff | tew/api/pe_resources.py:448-452 | Two different fields are reported alike exactly if one is an ordinal N and the other the text #N |
| DialogRoundTrip.FindStringLoop | tew/api/pe_resources.py:125-155 | The slot loop, with its truncated cases |
| DialogRoundTrip.StringFound | tew/api/pe_resources.py:128-133 | Strings packed sixteen to a block are found again by their ids |
| Dib.DecodeRow | tew/api/bitmap_loader.py:132-198 | A row decodes exactly if its depth is supported and it is long enough, and then to its pixels |
| Dib.Decode32 | tew/api/bitmap_loader.py:155-160 | The 32-bit loop drops every fourth byte: a row long enough gives its pixels, a shorter one nothing |
| Dib.Decode8 | tew/api/bitmap_loader.py:162-171 | The 8-bit loop looks every byte up, black beyond the palette |
| Dib.Decode4 | tew/api/bitmap_loader.py:173-183 | The 4-bit loop takes the high nibble for even pixels and the low one for odd ones |
| Dib.Decode1 | tew/api/bitmap_loader.py:185-195 | The 1-bit loop takes bits from the top of each byte |
| Dib.RowPixelAt | tew/api/bitmap_loader.py:138-141 | Pixel x of a decoded row is the colour its bits select, at three bytes a pixel |
| Dib.StrideHolds | tew/api/bitmap_loader.py:101 | The row stride holds every pixel with less than 32 bits to spare |
| Dib.ParseRows | tew/api/bitmap_loader.py:111-124 | No row of an accepted image is too short: the loop fails only on an unsupported depth, and builds the rows of the model, whose pixels are DibBytes.PixelBytes |
| Dib.ParseDib | tew/api/bitmap_loader.py:47-129 | Accepts exactly the documented headers with enough data, and returns the decoded rows; DibBytes says both in bytes of the data |
| Dib.PixelsExact | tew/api/bitmap_loader.py:31-36 | The output has width * height * 3 bytes and pixel (x, y) is the colour its source bits select in the stored row the model names, which DibBytes.PixelBytes gives in byte positions |
| DibBytes.AcceptedIff | tew/api/bitmap_loader.py:47-129 | With the header written out at its byte offsets: accepted exactly if it has at least 40 bytes, no compression, a positive width, a height other than 0, a known depth, and data for palette and rows |
| DibBytes.PixelBytes | tew/api/bitmap_loader.py:101-198 | Every output pixel is three bytes of the data at a stated position: in stored row height - 1 - y for a positive height and y for a negative one, at its place in that row or, by the number there, at its place in the palette; black beyond the palette |
| Dib.OrientationDoesNotMatter | tew/api/bitmap_loader.py:114-116 | A bottom-up image and its top-down twin decode alike |
| WaitHandlers.Kernel.WaitForSingle | tew/api/kernel32_io.py:503-547 | Satisfied exactly if the handle is unknown, ready or a mutex of the caller; then takes it; otherwise times out or blocks; what taking does to each object is WaitEffects |
| WaitHandlers.Kernel.WaitForAny | tew/api/kernel32_io.py:562-592 | Satisfied at the least ready or unknown index, changing only that object as WaitEffects says; otherwise nothing but timing out or blocking on all the handles |
| WaitHandlers.Kernel.WaitForAll | tew/api/kernel32_io.py:561-625 | Takes every object or changes none, and takes them exactly if all are ready or unknown; what taking does is WaitEffects |
| WaitHandlers.Kernel.CreateMutex | tew/api/kernel32_io.py:643-673 | A name already in use gives the first handle to that mutex, changes nothing and reports so; otherwise a new handle to a new mutex, free or held once by the caller, and nothing else changes |
| WaitHandlers.Kernel.OpenMutex | tew/api/kernel32_io.py:675-693 | The first handle to a mutex of that name, or none exactly if there is none |
| WaitHandlers.Kernel.CreateEvent | tew/api/kernel32_io.py:708-725 | A new handle to a new event with that reset kind and state, and nothing else changes |
| WaitHandlers.Kernel.ReleaseMutex | tew/api/kernel32_io.py:695-706 | Counts down, frees at 0 or below and wakes the sleepers on that handle, without asking who calls |
| WaitHandlers.Kernel.SetEvent | tew/api/kernel32_io.py:746-756 | Sets the event and wakes the sleepers on that handle |
| WaitHandlers.Kernel.ResetEvent | tew/api/kernel32_io.py:758-764 | Unsets an event, wakes nobody |
| WaitHandlers.Kernel.DuplicateHandle | tew/api/kernel32_io.py:92-116 | A second handle to the same object, or a dummy event; the source is closed on request |
| WaitHandlers.Kernel.CloseHandle | tew/api/kernel32_io.py:146-149 | Forgets the handle, not the object |
| WaitEffects.SatisfiedIff | tew/api/kernel32_io.py:503-625 | A wait is satisfied exactly if its mutexes are unowned, its events signaled or its handles unknown, or, alone, its mutex already the caller's; for any at the least such index; else nothing changes and it times out exactly if its time is up |
| WaitEffects.EventAfter | tew/api/kernel32_io.py:503-764 | An event is signaled after a step exactly if the step sets it, or it was signaled and the step neither resets it nor, it being auto-reset, is a satisfied wait that takes it: a wait never unsets a manual-reset event |
| WaitEffects.MutexAfter | tew/api/kernel32_io.py:503-706 | A mutex changes in a step only by a release, counting down or freeing it at the last count, or by a satisfied wait, which makes the caller its owner once or counts up its own |
| WaitEffects.SleepersAfter | tew/api/kernel32_io.py:503-764 | A thread falls asleep only by a wait that blocks, on exactly the handles of that wait, and wakes only by a signal through one of them or when its time is up |
| WaitEffects.NewObject | tew/api/kernel32_io.py:92-725 | New objects are what was asked for: a free mutex or one held once by the caller, an event of that kind and state, the dummy event of an unknown duplicate |
| WaitEffects.HandlesAfter | tew/api/kernel32_io.py:92-149 | Handles come under new numbers by creating and duplicating and go by closing; all others keep their objects |
| WaitEffects.ManualStaysSignaled | tew/api/kernel32_io.py:503-764 | Over any run without a reset through one of its handles a signaled manual-reset event stays signaled, whatever waits it satisfies |
| Waits.StepKeeps | tew/api/kernel32_io.py:503-764 | Every step keeps every mutex consistent (unowned, unlocked and recursion 0 together) and the signals of every auto-reset event at or above the waits that used them |
| Waits.RunsKeep | tew/api/kernel32_io.py:503-764 | So does every run |
| Waits.ConsumedAtMostSignaled | tew/api/kernel32_io.py:503-764 | From the start, consuming waits on an auto-reset event never outnumber its signals |
| Waits.OwnerKeepsIff | tew/api/kernel32_io.py:503-706 | A step takes a mutex from its owner exactly if it is a release, by whatever thread, of a mutex held once; a release of one held more often lowers the count by one, and nothing else lowers it |
| Waits.OwnerKeeps | tew/api/kernel32_io.py:503-706 | Over any run without a release of that mutex the owner keeps it |
| Waits.MissesNoneIff | tew/api/kernel32_io.py:503-764 | The exact condition, for every step: a thread is left asleep on a wait it could have exactly if the step does not wake it and makes available what it waited for: for one or any, one of its handles; for all, every handle not available before |
| Waits.ReachesLeavesNone | tew/api/kernel32_io.py:503-764 | That never happens if a signaled object has one handle only and no handle is closed while it is slept on |
| Waits.RunsMissNone | tew/api/kernel32_io.py:503-764 | No run of steps that meet the condition leaves a thread asleep on a wait it could have |
| Waits.MissedThroughDuplicate | tew/api/kernel32_io.py:92-96 | The counterexample, as four calls from the start: new event, duplicate, wait on the one, set through the other |
| FileTrigger.FileTextTrigger.Poll | tew/file_trigger.py:38-65 | The method computes the poll on values, with its error cases |
| FileTrigger.CarryIsEnough | tew/file_trigger.py:58-64 | A text not there before is in the old and new bytes together exactly if it is in the carried tail and the new bytes |
| FileTrigger.PollRefines | tew/file_trigger.py:38-65 | One poll answers as a search of everything read |
| FileTrigger.StreamingRefinesSearch | tew/file_trigger.py:38-65 | Over any run of polls, truncations and read failures the answers are those of the whole-string search |
| FileTrigger.FiresAtFirst | tew/file_trigger.py:8-14 | On a growing file the trigger fires at exactly the first poll that sees the text in what was appended since it was made, and never again |
| MouseQueue.MouseDevice.NotifyMotion | tew/api/dinput_handlers.py:193-207 | Queues the movement along each axis that changed; events are signaled exactly if something was queued |
| MouseQueue.MouseDevice.NotifyButton | tew/api/dinput_handlers.py:210-234 | Queues a transition of a tracked button, nothing else |
| MouseQueue.MouseDevice.GetDeviceState | tew/api/dinput_handlers.py:250-258 | Reports the movement since its last call |
| MouseQueue.MouseDevice.GetDeviceData | tew/api/dinput_handlers.py:423-455 | Delivers the oldest entries in order, as many fields as fit, removes them unless peeking, and reports the count |
| MouseQueue.NextFaithful | tew/api/dinput_handlers.py:193-258 | Every event, drain, peek and poll keeps the replay equal to the present |
| MouseQueue.QueueReplays | tew/api/dinput_handlers.py:193-455 | In every run, applying the drained and the queued records in order to the start gives the current position modulo 2^32 and the buttons, and the reported deltas add up |
| MouseLog.EveryChangeOnce | tew/api/dinput_handlers.py:193-234 | In every run the drained and the queued records are exactly the changes the events made, each once and in order: axes at offsets 0 and 4, buttons at 12, 13 for the right and 14 for the middle one, 0x80 for down |
| MouseLog.DeliveredAre | tew/api/dinput_handlers.py:423-455 | A call delivers the oldest records, as many as asked for and there, each as offset, data, zero and number, as far as the entry has room |
| SoundRing.SoundBuffer.LockBytes | tew/api/dsound_handlers.py:480-497 | The two regions of a lock; an empty buffer divides by zero |
| SoundRing.LockCoversCircle | tew/api/dsound_handlers.py:484-492 | For requests up to the buffer size the regions are disjoint, inside the buffer, and exactly the circular stretch asked for |
| SoundRing.LockSafeIff | tew/api/dsound_handlers.py:484-492 | They are disjoint and inside exactly for such requests |
| SoundRing.SoundBuffer.MixInto | tew/api/dsound_handlers.py:107-142 | Mixes the next chunk into the output and moves the cursor; fails only by dividing by zero |
| SoundRing.SoundBuffer.MixSamples | tew/api/dsound_handlers.py:123-138 | The loops over the output array add with saturation where there is a sample and leave the rest |
| SoundRing.MixedSamples | tew/api/dsound_handlers.py:129-138 | Results are 16-bit samples and exact when the sum is in range |
| SoundRing.SoundBuffer.PlayBuffer | tew/api/dsound_handlers.py:516-518 | Sets playing and looping; data, depth and cursor stay |
| SoundRing.SoundBuffer.StopBuffer | tew/api/dsound_handlers.py:540-545 | Clears playing and keeps the cursor |
| SoundRing.SoundBuffer.SetCurrentPosition | tew/api/dsound_handlers.py:521-527 | Moves the cursor inside the buffer, to the position modulo the size |
| SoundRing.CursorInside | tew/api/dsound_handlers.py:107-142 | Under all play, stop, seek and mix steps the cursor stays in [0, size]; only an empty buffer can fail |
| SoundRing.PlaysOnce | tew/api/dsound_handlers.py:107-142 | A buffer that does not loop plays the bytes from its cursor to its end, each once and in order, and then stops |
| SoundRing.EndsIff | tew/api/dsound_handlers.py:123-128 | It ever stops exactly if its samples come out whole: a 16-bit buffer with an odd number of bytes left never does |
| SoundRing.LoopsRound | tew/api/dsound_handlers.py:140-142 | A looping buffer plays its bytes round and round, none missed, none repeated |
| SoundExact.MixedIs | tew/api/dsound_handlers.py:123-138 | Each output sample is the sum with two bytes, low first, in two's complement, or with one byte above or below 128 times 256, cut off at -32768 and 32767; unchanged where the chunk has no sample |
| SoundExact.PlaysFrom | tew/api/dsound_handlers.py:516-527 | After seeking and playing, everything is as for a buffer that plays from that position modulo its size |
| SoundExact.StopIsSilence | tew/api/dsound_handlers.py:540-545 | A stopped buffer adds nothing in any callbacks, and playing goes on where it stopped |
| SoundExact.HeardFrom | tew/api/dsound_handlers.py:107-142 | Played once from a position, exactly the bytes from there are heard, as many as asked for, then silence |
| FileLocks.FileTable.LockFile | tew/api/kernel32_io.py:1131-1163 | Granted exactly if the handle is open and no range of another handle conflicts; then recorded last |
| FileLocks.FileTable.UnlockFile | tew/api/kernel32_io.py:1165-1193 | The loop that finds and removes the first matching range |
| FileLocks.FileTable.CloseHandle | tew/api/kernel32_io.py:139-146 | The filter over the ranges of the closing handle's path |
| FileLocks.UnlockTakesOne | tew/api/kernel32_io.py:1179-1188 | Succeeds exactly if such a range is recorded, and removes exactly one |
| FileLocks.CloseTakesAllAndOnly | tew/api/kernel32_io.py:142-145 | Closing removes all ranges of the handle, on whatever path, and no others, in every state runs reach |
| FileLocks.LocksNeverConflict | tew/api/kernel32_io.py:1131-1193 | In every run no two recorded ranges of different handles on one path conflict, and every range belongs to an open handle on that path |
| LockedBytes.OneHolder | tew/api/kernel32_io.py:1131-1193 | So in every run no byte of a file is locked through two handles, and none through a handle not open on it |
| LockedBytes.ConflictsIff | tew/api/kernel32_io.py:1147-1149 | A range conflicts exactly with one of another handle that has a byte in common with it, or is empty and strictly inside it, or has it, empty, strictly inside |
| LockedBytes.GrantedIff | tew/api/kernel32_io.py:1131-1163 | After any run a lock is granted exactly if it conflicts with none; then its handle holds exactly the bytes of the range more, otherwise nobody's bytes change |
| LockedBytes.CloseFrees | tew/api/kernel32_io.py:139-146 | After any run closing a handle frees every byte locked through it and no other |

## Left out

- Logging, stdcall cleanup, return registers other than the stated results, SDL, Vulkan, HTTP, the COM and registry tables: plumbing around the modelled state.
- The emulated CPU, its memory bounds errors and the scheduler are not part of this model. Assumed of the scheduler: `block_current_on_handles` parks the thread so that it runs the same trap again, `unblock_handle(h)` makes every thread parked on h runnable, a timed-out thread is marked and runnable.
- Critical sections: one section is followed at a time, the handle table being shared with unrelated code that does not touch its event. Clients call Leave only while inside, total entries stay below 2^31, and no section is initialised again or deleted while in use. Guest fairness among waiters is not claimed, because a late arrival may take the event: that a waiter can get in says that some schedule lets it, not that all do.
- CsProgress.WaiterCanGetIn: asks for LockCount below its bound, so that the holder can finish an entry it has begun.
- SectionRuns.Process.DeleteSection: DebugInfo is null or a block on the list; for any other word the handler reads and writes through it as an address.
- CriticalSections.SectionTable.DeleteStructure: the same.
- SectionRuns.Process.Store: guest writes into the blocks of the list itself are excluded.
- GuestHeap.Guest.SimpleAlloc: the heap cursor plus the size stays below 2^32, because what the native `bump_alloc_next` does beyond is not part of this model.
- GuestHeap.Guest.AllocBlock: the same bound.
- GuestHeap.Guest.HeapAlloc: the same bound.
- GuestHeap.Guest.HeapReAlloc: the same bound.
- SectionRuns.Process.Alloc: the same bound.
- CriticalSections.SectionTable.WriteInitialized: when the heap is exhausted between its two allocations the debug block stays allocated but off the list; nothing more is said of that case.
- VirtualQuery, and any claim that committed pages lie inside reservations: committing checks only its start.
- Printf.SprintfFormat: stops at a string, floating-point or %n conversion, because those need guest memory and host floating-point text. The round trip takes literal widths and precisions only; a star takes its word as unsigned, as the code does.
- Scanf.Sscanf: stops at a string, character or floating-point conversion, for the same reason. Digits are those of Latin-1 text, which is what the strings are read as.
- Numerals.WtoiScan: characters beyond Latin-1 are not told apart as digits.
- INI text is Latin-1, as the files are opened; line ends are those `splitlines` knows on such text. Disk errors, directory creation and `read_profile_int` are not modelled.
- DialogTemplate.ParseTemplate: finding resources by walking the PE directories is not modelled.
- PythonInt.WrittenReads: the digits and spaces are those of Unicode 14 in the Basic Multilingual Plane, and the limit of 4300 digits that newer Python versions put on a number is not modelled.
- WaitHandlers.Kernel.DuplicateHandle: file handles, whose duplicates share a position in a table of their own.
- Waits: events that sockets, timers, DirectInput or registry notifications signal directly, as SetEvent would; here SetEvent is the only signal. The handle table holds mutexes and events only.
- Whether the scheduler clears the timed-out mark of a thread whose retried wait succeeds; the handlers do not.
- FileTrigger: a file that is truncated and regrown past the read position between two polls is not noticed by the program, and the growing-file theorem does not cover it. A file that shrinks between its size check and its read is not modelled.
- MouseQueue: keyboard state, the wheel, and which events are registered; only whether they are signaled is stated.
- SoundRing: primary buffers (locking one gives zeros), formats, opening the device, and host memory shorter than a buffer.
- FileLocks: closing by `_lclose`, `fclose`, `_close` or a close-source duplicate, which do not release locks.
