/** The guest machine code of EnterCriticalSection, LeaveCriticalSection and
    TryEnterCriticalSection: its bytes, a decoder for the x86 instructions it
    uses, and the instruction listing the bytes decode to.

    A memory operand is always relative to ecx, which holds the section's address. */
module CsCode {

  /** The instructions that occur in the code. A memory operand is always
      `[ecx + disp]`, with ecx holding the address of the critical section. */
  datatype Instr =
    | LoadArg                     // mov ecx, [esp+4]
    | LoadTid                     // mov edx, fs:[0x24]
    | IncField(disp: int)         // (lock) inc dword [ecx+disp]
    | DecField(disp: int)         // (lock) dec dword [ecx+disp]
    | StoreEdx(disp: int)         // mov [ecx+disp], edx
    | StoreImm(disp: int, imm: int)
    | CmpEdx(disp: int)           // cmp [ecx+disp], edx
    | CmpXchgEdx(disp: int)       // lock cmpxchg [ecx+disp], edx
    | ZeroEax
    | ZeroEdx
    | MovEax(imm: int)
    | Jne(target: int)
    | Jge(target: int)
    | Jmp(target: int)
    | Trap                        // int 0xFE
    | Ret                         // ret 4

  datatype Decoded = Decoded(instr: Instr, next: int) | Undecodable

  const ENTER := 0x00
  const ENTER_WAIT := 0x2D
  const LEAVE := 0x31
  const LEAVE_WAKE := 0x55
  const TRY_ENTER := 0x5C

  /** The 160 code bytes, 16 to a row. */
  function Row(row: int): seq<int> {
    if row == 0 then
      [0x8b, 0x4c, 0x24, 0x04, 0x64, 0x8b, 0x15, 0x24, 0x00, 0x00, 0x00, 0xf0, 0xff, 0x41, 0x04, 0x75]
    else if row == 1 then
      [0x0f, 0x89, 0x51, 0x0c, 0xc7, 0x41, 0x08, 0x01, 0x00, 0x00, 0x00, 0x31, 0xc0, 0xc2, 0x04, 0x00]
    else if row == 2 then
      [0x39, 0x51, 0x0c, 0x75, 0x08, 0xff, 0x41, 0x08, 0x31, 0xc0, 0xc2, 0x04, 0x00, 0xcd, 0xfe, 0xeb]
    else if row == 3 then
      [0xe0, 0x8b, 0x4c, 0x24, 0x04, 0xff, 0x49, 0x08, 0x75, 0x12, 0xc7, 0x41, 0x0c, 0x00, 0x00, 0x00]
    else if row == 4 then
      [0x00, 0xf0, 0xff, 0x49, 0x04, 0x7d, 0x0e, 0x31, 0xc0, 0xc2, 0x04, 0x00, 0xf0, 0xff, 0x49, 0x04]
    else if row == 5 then
      [0x31, 0xc0, 0xc2, 0x04, 0x00, 0xcd, 0xfe, 0x31, 0xc0, 0xc2, 0x04, 0x00, 0x8b, 0x4c, 0x24, 0x04]
    else if row == 6 then
      [0xb8, 0xff, 0xff, 0xff, 0xff, 0x31, 0xd2, 0xf0, 0x0f, 0xb1, 0x51, 0x04, 0x64, 0x8b, 0x15, 0x24]
    else if row == 7 then
      [0x00, 0x00, 0x00, 0x75, 0x12, 0x89, 0x51, 0x0c, 0xc7, 0x41, 0x08, 0x01, 0x00, 0x00, 0x00, 0xb8]
    else if row == 8 then
      [0x01, 0x00, 0x00, 0x00, 0xc2, 0x04, 0x00, 0x39, 0x51, 0x0c, 0x75, 0x0f, 0xf0, 0xff, 0x41, 0x04]
    else if row == 9 then
      [0xff, 0x41, 0x08, 0xb8, 0x01, 0x00, 0x00, 0x00, 0xc2, 0x04, 0x00, 0x31, 0xc0, 0xc2, 0x04, 0x00]
    else []
  }

  function Byte(k: int): int {
    var row := Row(k / 16);
    if k % 16 < |row| then row[k % 16] else -1
  }

  /** A 32-bit immediate, read as a signed number. */
  function Imm32(k: int): int {
    var v := Byte(k) + 0x100 * Byte(k + 1) + 0x1_0000 * Byte(k + 2) + 0x100_0000 * Byte(k + 3);
    if v >= 0x8000_0000 then v - 0x1_0000_0000 else v
  }

  /** Where a two-byte jump at k, its displacement in the second byte, lands. */
  function JumpTarget(k: int): int {
    var rel := Byte(k + 1);
    k + 2 + if rel >= 0x80 then rel - 0x100 else rel
  }

  /** Decodes the instruction at offset k of the stub region. */
  function DecodePlain(k: int): Decoded {
    var b0, b1, b2 := Byte(k), Byte(k + 1), Byte(k + 2);
    if b0 == 0x8b && b1 == 0x4c && b2 == 0x24 && Byte(k + 3) == 4 then Decoded(LoadArg, k + 4)
    else if b0 == 0x64 && b1 == 0x8b && b2 == 0x15 && Imm32(k + 3) == 0x24 then Decoded(LoadTid, k + 7)
    else if b0 == 0xff && b1 == 0x41 then Decoded(IncField(b2), k + 3)
    else if b0 == 0xff && b1 == 0x49 then Decoded(DecField(b2), k + 3)
    else if b0 == 0x89 && b1 == 0x51 then Decoded(StoreEdx(b2), k + 3)
    else if b0 == 0x39 && b1 == 0x51 then Decoded(CmpEdx(b2), k + 3)
    else if b0 == 0xc7 && b1 == 0x41 then Decoded(StoreImm(b2, Imm32(k + 3)), k + 7)
    else if b0 == 0x0f && b1 == 0xb1 && b2 == 0x51 then Decoded(CmpXchgEdx(Byte(k + 3)), k + 4)
    else if b0 == 0x31 && b1 == 0xc0 then Decoded(ZeroEax, k + 2)
    else if b0 == 0x31 && b1 == 0xd2 then Decoded(ZeroEdx, k + 2)
    else if b0 == 0xb8 then Decoded(MovEax(Imm32(k + 1)), k + 5)
    else if b0 == 0x75 then Decoded(Jne(JumpTarget(k)), k + 2)
    else if b0 == 0x7d then Decoded(Jge(JumpTarget(k)), k + 2)
    else if b0 == 0xeb then Decoded(Jmp(JumpTarget(k)), k + 2)
    else if b0 == 0xcd && b1 == 0xfe then Decoded(Trap, k + 2)
    else if b0 == 0xc2 && b1 == 4 && b2 == 0 then Decoded(Ret, k + 3)
    else Undecodable
  }

  /** As DecodePlain, after an optional lock prefix (0xf0). Every instruction is
      one atomic step of the model, so the prefix itself adds nothing. */
  function At(pc: int): Decoded {
    if Byte(pc) == 0xf0 then DecodePlain(pc + 1) else DecodePlain(pc)
  }

  // The listing: what a disassembly of the bytes shows.

  function EnterListing(pc: int): Decoded {
    if pc == 0x00 then Decoded(LoadArg, 0x04)
    else if pc == 0x04 then Decoded(LoadTid, 0x0b)
    else if pc == 0x0b then Decoded(IncField(4), 0x0f)
    else if pc == 0x0f then Decoded(Jne(0x20), 0x11)
    else if pc == 0x11 then Decoded(StoreEdx(0xc), 0x14)
    else if pc == 0x14 then Decoded(StoreImm(8, 1), 0x1b)
    else if pc == 0x1b then Decoded(ZeroEax, 0x1d)
    else if pc == 0x1d then Decoded(Ret, 0x20)
    else if pc == 0x20 then Decoded(CmpEdx(0xc), 0x23)
    else if pc == 0x23 then Decoded(Jne(0x2d), 0x25)
    else if pc == 0x25 then Decoded(IncField(8), 0x28)
    else if pc == 0x28 then Decoded(ZeroEax, 0x2a)
    else if pc == 0x2a then Decoded(Ret, 0x2d)
    else if pc == 0x2d then Decoded(Trap, 0x2f)
    else if pc == 0x2f then Decoded(Jmp(0x11), 0x31)
    else Undecodable
  }

  function LeaveListing(pc: int): Decoded {
    if pc == 0x31 then Decoded(LoadArg, 0x35)
    else if pc == 0x35 then Decoded(DecField(8), 0x38)
    else if pc == 0x38 then Decoded(Jne(0x4c), 0x3a)
    else if pc == 0x3a then Decoded(StoreImm(0xc, 0), 0x41)
    else if pc == 0x41 then Decoded(DecField(4), 0x45)
    else if pc == 0x45 then Decoded(Jge(0x55), 0x47)
    else if pc == 0x47 then Decoded(ZeroEax, 0x49)
    else if pc == 0x49 then Decoded(Ret, 0x4c)
    else if pc == 0x4c then Decoded(DecField(4), 0x50)
    else if pc == 0x50 then Decoded(ZeroEax, 0x52)
    else if pc == 0x52 then Decoded(Ret, 0x55)
    else if pc == 0x55 then Decoded(Trap, 0x57)
    else if pc == 0x57 then Decoded(ZeroEax, 0x59)
    else if pc == 0x59 then Decoded(Ret, 0x5c)
    else Undecodable
  }

  function TryListing(pc: int): Decoded {
    if pc == 0x5c then Decoded(LoadArg, 0x60)
    else if pc == 0x60 then Decoded(MovEax(-1), 0x65)
    else if pc == 0x65 then Decoded(ZeroEdx, 0x67)
    else if pc == 0x67 then Decoded(CmpXchgEdx(4), 0x6c)
    else if pc == 0x6c then Decoded(LoadTid, 0x73)
    else if pc == 0x73 then Decoded(Jne(0x87), 0x75)
    else if pc == 0x75 then Decoded(StoreEdx(0xc), 0x78)
    else if pc == 0x78 then Decoded(StoreImm(8, 1), 0x7f)
    else if pc == 0x7f then Decoded(MovEax(1), 0x84)
    else if pc == 0x84 then Decoded(Ret, 0x87)
    else if pc == 0x87 then Decoded(CmpEdx(0xc), 0x8a)
    else if pc == 0x8a then Decoded(Jne(0x9b), 0x8c)
    else if pc == 0x8c then Decoded(IncField(4), 0x90)
    else if pc == 0x90 then Decoded(IncField(8), 0x93)
    else if pc == 0x93 then Decoded(MovEax(1), 0x98)
    else if pc == 0x98 then Decoded(Ret, 0x9b)
    else if pc == 0x9b then Decoded(ZeroEax, 0x9d)
    else if pc == 0x9d then Decoded(Ret, 0xa0)
    else Undecodable
  }

  function Listing(pc: int): Decoded {
    if pc < LEAVE then EnterListing(pc) else if pc < TRY_ENTER then LeaveListing(pc) else TryListing(pc)
  }

  // At every offset of the listing the bytes decode to the listed instruction.

  lemma EnterBytesClaim()
    ensures At(0x00) == Listing(0x00)
    ensures At(0x04) == Listing(0x04)
    ensures At(0x0b) == Listing(0x0b)
    ensures At(0x0f) == Listing(0x0f)
  {
  }

  lemma EnterBytesOwn()
    ensures At(0x11) == Listing(0x11)
    ensures At(0x14) == Listing(0x14)
    ensures At(0x1b) == Listing(0x1b)
    ensures At(0x1d) == Listing(0x1d)
  {
  }

  lemma EnterBytesRecurse()
    ensures At(0x20) == Listing(0x20)
    ensures At(0x23) == Listing(0x23)
  {
  }

  lemma EnterBytesCount()
    ensures At(0x25) == Listing(0x25)
    ensures At(0x28) == Listing(0x28)
    ensures At(0x2a) == Listing(0x2a)
  {
  }

  lemma EnterBytesWait()
    ensures At(0x2d) == Listing(0x2d)
    ensures At(0x2f) == Listing(0x2f)
  {
  }

  lemma LeaveBytesRelease()
    ensures At(0x31) == Listing(0x31)
    ensures At(0x35) == Listing(0x35)
    ensures At(0x38) == Listing(0x38)
    ensures At(0x3a) == Listing(0x3a)
  {
  }

  lemma LeaveBytesFree()
    ensures At(0x41) == Listing(0x41)
    ensures At(0x45) == Listing(0x45)
    ensures At(0x47) == Listing(0x47)
    ensures At(0x49) == Listing(0x49)
  {
  }

  lemma LeaveBytesNested()
    ensures At(0x4c) == Listing(0x4c)
    ensures At(0x50) == Listing(0x50)
    ensures At(0x52) == Listing(0x52)
  {
  }

  lemma LeaveBytesWake()
    ensures At(0x55) == Listing(0x55)
    ensures At(0x57) == Listing(0x57)
    ensures At(0x59) == Listing(0x59)
  {
  }

  lemma TryBytesClaim()
    ensures At(0x5c) == Listing(0x5c)
    ensures At(0x60) == Listing(0x60)
    ensures At(0x65) == Listing(0x65)
    ensures At(0x67) == Listing(0x67)
  {
  }

  lemma TryBytesBranch()
    ensures At(0x6c) == Listing(0x6c)
    ensures At(0x73) == Listing(0x73)
    ensures At(0x75) == Listing(0x75)
  {
  }

  lemma TryBytesOwn()
    ensures At(0x78) == Listing(0x78)
  {
  }

  lemma TryBytesReturn()
    ensures At(0x7f) == Listing(0x7f)
    ensures At(0x84) == Listing(0x84)
  {
  }

  lemma TryBytesRecurse()
    ensures At(0x87) == Listing(0x87)
    ensures At(0x8a) == Listing(0x8a)
  {
  }

  lemma TryBytesCount()
    ensures At(0x8c) == Listing(0x8c)
    ensures At(0x90) == Listing(0x90)
  {
  }

  lemma TryBytesGrant()
    ensures At(0x93) == Listing(0x93)
    ensures At(0x98) == Listing(0x98)
  {
  }

  lemma TryBytesFail()
    ensures At(0x9b) == Listing(0x9b)
    ensures At(0x9d) == Listing(0x9d)
  {
  }

  lemma EnterDecodes(pc: int)
    requires Listing(pc).Decoded? && pc < LEAVE
    ensures At(pc) == Listing(pc)
  {
    hide At;
    EnterBytesClaim();
    EnterBytesOwn();
    EnterBytesRecurse();
    EnterBytesCount();
    EnterBytesWait();
  }

  lemma LeaveDecodes(pc: int)
    requires Listing(pc).Decoded? && LEAVE <= pc < TRY_ENTER
    ensures At(pc) == Listing(pc)
  {
    hide At;
    LeaveBytesRelease();
    LeaveBytesFree();
    LeaveBytesNested();
    LeaveBytesWake();
  }

  lemma TryDecodes(pc: int)
    requires Listing(pc).Decoded? && TRY_ENTER <= pc
    ensures At(pc) == Listing(pc)
  {
    hide At;
    TryBytesClaim();
    TryBytesBranch();
    TryBytesOwn();
    TryBytesReturn();
    TryBytesRecurse();
    TryBytesCount();
    TryBytesGrant();
    TryBytesFail();
  }

  /** Wherever the listing has an instruction, it is the one the bytes decode to. */
  lemma BytesDecode(pc: int)
    requires Listing(pc).Decoded?
    ensures At(pc) == Listing(pc)
  {
    hide At, EnterListing, LeaveListing, TryListing;
    if pc < LEAVE { EnterDecodes(pc); } else if pc < TRY_ENTER { LeaveDecodes(pc); } else { TryDecodes(pc); }
  }
}
