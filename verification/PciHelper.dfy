/** The 14-word AArch64 helper that picks a PCI slot, run on a step machine.  Instruction encodings and
    semantics: section C6.2 of the Arm Architecture Reference Manual, DDI 0487. */
module PciHelper {
  import opened Words
  import opened Wrappers

  const AUTOMATIC := 0x7ff
  const SLOTS := 256
  const TABLE := 0x48

  /** `pci_address_helper_words` */
  const WORDS: seq<nat> := [
    0xF11FFD1F, 0x54000080, 0x8B080F08, 0xF940250A, 0xB400012A, 0xAA1803E8, 0xD280200B,
    0xF940250A, 0xB40000AA, 0x91002108, 0xF100056B, 0x54FFFF81, 0xAA1803E8, 0xD65F03C0]

  /** The 64-bit instructions the helper uses; branch offsets count words. */
  datatype Insn =
    | SubsImm(d: nat, n: nat, imm: nat)
    | AddImm(d: nat, n: nat, imm: nat)
    | AddShifted(d: nat, n: nat, m: nat, shift: nat)
    | Mov(d: nat, m: nat)
    | MovWide(d: nat, imm: nat)
    | Load(t: nat, n: nat, offset: nat)
    | BranchIfZero(t: nat, hop: int)
    | BranchIf(equal: bool, hop: int)
    | Return

  /** The bits `lo` to `lo + len - 1` of a word, with `size` = 2^len and `unit` = 2^lo. */
  function Bits(w: nat, unit: nat, size: nat): (b: nat)
    requires unit > 0 && size > 0
    ensures b < size
  {
    w / unit % size
  }

  /** A branch offset: 19 bits, signed. */
  function Signed19(b: nat): int { if b < 0x40000 then b else b - 0x80000 }

  /** Decodes a word, if it is one of these instructions on registers that are not the stack pointer. */
  function Decode(w: nat): Option<Insn>
  {
    var d, n, m := Bits(w, 1, 32), Bits(w, 0x20, 32), Bits(w, 0x10000, 32);
    var imm12, imm19 := Bits(w, 0x400, 4096), Signed19(Bits(w, 0x20, 0x80000));
    if w / 0x400000 == 0x3C4 && n != 31 then Some(SubsImm(d, n, imm12))
    else if w / 0x400000 == 0x244 && n != 31 && d != 31 then Some(AddImm(d, n, imm12))
    else if w / 0x200000 == 0x458 then Some(AddShifted(d, n, m, Bits(w, 0x400, 64)))
    else if w / 0x200000 == 0x550 && n == 31 && Bits(w, 0x400, 64) == 0 then Some(Mov(d, m))
    else if w / 0x200000 == 0x694 then Some(MovWide(d, Bits(w, 0x20, 0x10000)))
    else if w / 0x400000 == 0x3E5 && n != 31 then Some(Load(d, n, 8 * imm12))
    else if w / 0x1000000 == 0xB4 then Some(BranchIfZero(d, imm19))
    else if w / 0x1000000 == 0x54 && Bits(w, 1, 32) == 0 then Some(BranchIf(true, imm19))
    else if w / 0x1000000 == 0x54 && Bits(w, 1, 32) == 1 then Some(BranchIf(false, imm19))
    else if w == 0xD65F03C0 then Some(Return)
    else None
  }

  /** The registers, the zero flag, the index of the next word, the addresses read so far, and whether the
      helper has returned.  There is no way to write memory. */
  datatype Machine = Machine(x: seq<Word>, zero: bool, pc: int, loads: seq<nat>, returned: bool)

  type Word = v: nat | v < WORD64

  type Memory = nat -> Word

  function Reg(s: Machine, n: nat): Word
    requires |s.x| == 31 && n <= 31
  {
    if n == 31 then 0 else s.x[n]
  }

  function SetReg(s: Machine, d: nat, v: int): Machine
    requires |s.x| == 31 && d <= 31
  {
    if d == 31 then s else s.(x := s.x[d := v % WORD64])
  }

  /** One instruction. */
  function Execute(mem: Memory, s: Machine, i: Insn): Machine
    requires |s.x| == 31
    requires i.SubsImm? || i.AddImm? ==> i.d <= 31 && i.n <= 31
    requires i.AddShifted? ==> i.d <= 31 && i.n <= 31 && i.m <= 31
    requires i.Mov? ==> i.d <= 31 && i.m <= 31
    requires i.MovWide? ==> i.d <= 31
    requires i.Load? ==> i.t <= 31 && i.n <= 31
    requires i.BranchIfZero? ==> i.t <= 31
  {
    var s1 := s.(pc := s.pc + 1);
    match i
    case SubsImm(d, n, imm) => SetReg(s1, d, Reg(s, n) - imm).(zero := Reg(s, n) == imm)
    case AddImm(d, n, imm) => SetReg(s1, d, Reg(s, n) + imm)
    case AddShifted(d, n, m, shift) => SetReg(s1, d, Reg(s, n) + Reg(s, m) * Pow2(shift))
    case Mov(d, m) => SetReg(s1, d, Reg(s, m))
    case MovWide(d, imm) => SetReg(s1, d, imm)
    case Load(t, n, offset) =>
      var address := (Reg(s, n) + offset) % WORD64;
      SetReg(s1, t, mem(address)).(loads := s.loads + [address])
    case BranchIfZero(t, hop) => if Reg(s, t) == 0 then s.(pc := s.pc + hop) else s1
    case BranchIf(equal, hop) => if s.zero == equal then s.(pc := s.pc + hop) else s1
    case Return => s.(returned := true)
  }

  /** One step: fetch, decode, execute; None when the helper has returned or runs into anything else. */
  function Step(mem: Memory, s: Machine): (r: Option<Machine>)
    requires |s.x| == 31
  {
    if s.returned || !(0 <= s.pc < |WORDS|) || Decode(WORDS[s.pc]) == None then None
    else Some(Execute(mem, s, Decode(WORDS[s.pc]).value))
  }

  /** The machine goes from `s` to `s'` in exactly `n` steps. */
  ghost predicate Reaches(mem: Memory, s: Machine, n: nat, s': Machine)
    decreases n
  {
    |s.x| == 31 && if n == 0 then s == s' else Step(mem, s).Some? && Reaches(mem, Step(mem, s).value, n - 1, s')
  }

  lemma {:induction false} ReachesOn(mem: Memory, s: Machine, n: nat, s1: Machine, m: nat, s2: Machine)
    requires Reaches(mem, s, n, s1) && Reaches(mem, s1, m, s2)
    ensures Reaches(mem, s, n + m, s2)
    decreases n
  {
    hide Step;
    if n > 0 { ReachesOn(mem, Step(mem, s).value, n - 1, s1, m, s2); }
  }

  /** The program the words encode. */
  const PROGRAM: seq<Insn> := [
    SubsImm(31, 8, AUTOMATIC), BranchIf(true, 4), AddShifted(8, 24, 8, 3), Load(10, 8, TABLE), BranchIfZero(10, 9),
    Mov(8, 24), MovWide(11, SLOTS),
    Load(10, 8, TABLE), BranchIfZero(10, 5), AddImm(8, 8, 8), SubsImm(11, 11, 1), BranchIf(false, -4),
    Mov(8, 24), Return]

  lemma EntryDecodes(i: nat)
    requires i < 3
    ensures |WORDS| == |PROGRAM| == 14 && Decode(WORDS[i]) == Some(PROGRAM[i])
  {
  }

  lemma RequestDecodes(i: nat)
    requires 3 <= i < 7
    ensures |WORDS| == |PROGRAM| == 14 && Decode(WORDS[i]) == Some(PROGRAM[i])
  {
  }

  lemma LoopDecodes(i: nat)
    requires 7 <= i < 11
    ensures |WORDS| == |PROGRAM| == 14 && Decode(WORDS[i]) == Some(PROGRAM[i])
  {
  }

  lemma ExitDecodes(i: nat)
    requires 11 <= i < 14
    ensures |WORDS| == |PROGRAM| == 14 && Decode(WORDS[i]) == Some(PROGRAM[i])
  {
  }

  lemma WordsDecode(i: nat)
    requires i < 14
    ensures |WORDS| == |PROGRAM| == 14 && Decode(WORDS[i]) == Some(PROGRAM[i])
  {
    hide Decode;
    if i < 3 { EntryDecodes(i); } else if i < 7 { RequestDecodes(i); } else if i < 11 { LoopDecodes(i); }
    else { ExitDecodes(i); }
  }

  lemma StepExecutes(mem: Memory, s: Machine)
    requires |s.x| == 31 && !s.returned && 0 <= s.pc < 14
    ensures |PROGRAM| == 14 && Step(mem, s) == Some(Execute(mem, s, PROGRAM[s.pc]))
  {
    hide Decode, Execute;
    WordsDecode(s.pc);
  }

  // -------------------------------------------------------------- the slot table

  /** The address of slot `i` of the table at `base`, less the offset of the table. */
  function SlotAt(base: nat, i: nat): nat { (base + 8 * i) % WORD64 }

  function EntryAddress(base: nat, i: nat): nat { (SlotAt(base, i) + TABLE) % WORD64 }

  predicate Free(mem: Memory, base: nat, i: nat) { mem(EntryAddress(base, i)) == 0 }

  /** The least free slot from `i` on, if there is one. */
  function LeastFree(mem: Memory, base: nat, i: nat): (r: Option<nat>)
    requires i <= SLOTS
    ensures r.Some? ==> i <= r.value < SLOTS && Free(mem, base, r.value)
    ensures forall j :: i <= j < (if r.Some? then r.value else SLOTS) ==> !Free(mem, base, j)
    decreases SLOTS - i
  {
    if i == SLOTS then None else if Free(mem, base, i) then Some(i) else LeastFree(mem, base, i + 1)
  }

  /** What the helper is for: the requested slot if it is explicit and free, else the least free slot, else
      slot 0. */
  function Choice(mem: Memory, base: nat, request: nat): nat
  {
    if request != AUTOMATIC && Free(mem, base, request) then request
    else match LeastFree(mem, base, 0) case Some(i) => i case None => 0
  }

  /** The table addresses read by a scan that starts at slot `i`. */
  function ScanLoads(mem: Memory, base: nat, i: nat): seq<nat>
    requires i <= SLOTS
    decreases SLOTS - i
  {
    if i == SLOTS then [] else if Free(mem, base, i) then [EntryAddress(base, i)]
    else [EntryAddress(base, i)] + ScanLoads(mem, base, i + 1)
  }

  // -------------------------------------------------------------- the run

  /** Only the scratch registers x8, x10 and x11 differ. */
  ghost predicate Keeps(s: Machine, s': Machine)
  {
    |s.x| == |s'.x| == 31 && forall r :: 0 <= r < 31 && r != 8 && r != 10 && r != 11 ==> s'.x[r] == s.x[r]
  }

  lemma TwoSteps(mem: Memory, s: Machine, s1: Machine, s2: Machine)
    requires |s.x| == |s1.x| == |s2.x| == 31 && Step(mem, s) == Some(s1) && Step(mem, s1) == Some(s2)
    ensures Reaches(mem, s, 2, s2)
  {
    hide Step;
    assert Reaches(mem, s2, 0, s2);
    assert Reaches(mem, s1, 1, s2);
  }

  lemma ThreeSteps(mem: Memory, s: Machine, s1: Machine, s2: Machine, s3: Machine)
    requires |s.x| == |s1.x| == |s2.x| == |s3.x| == 31
    requires Step(mem, s) == Some(s1) && Step(mem, s1) == Some(s2) && Step(mem, s2) == Some(s3)
    ensures Reaches(mem, s, 3, s3)
  {
    hide Step;
    TwoSteps(mem, s1, s2, s3);
  }

  /** The test of one slot. */
  lemma TestSlot(mem: Memory, s: Machine, base: nat, i: nat) returns (s': Machine)
    requires |s.x| == 31 && !s.returned && s.pc == 7 && s.x[8] == SlotAt(base, i)
    ensures Reaches(mem, s, 2, s') && Keeps(s, s') && |s'.x| == 31 && s'.x[24] == s.x[24] && !s'.returned
    ensures s'.loads == s.loads + [EntryAddress(base, i)]
    ensures s'.pc == (if Free(mem, base, i) then 13 else 9) && s'.x[8] == s.x[8] && s'.x[11] == s.x[11]
  {
    hide Step, Decode, Reaches;
    StepExecutes(mem, s);
    var s1 := Step(mem, s).value;
    StepExecutes(mem, s1);
    s' := Step(mem, s1).value;
    TwoSteps(mem, s, s1, s');
  }

  /** On to the next slot, or out of the loop after the last one. */
  lemma NextSlot(mem: Memory, s: Machine, base: nat, i: nat) returns (s': Machine)
    requires |s.x| == 31 && !s.returned && s.pc == 9 && i < SLOTS && s.x[8] == SlotAt(base, i) && s.x[11] == SLOTS - i
    ensures Reaches(mem, s, 3, s') && Keeps(s, s') && |s'.x| == 31 && s'.x[24] == s.x[24] && !s'.returned
    ensures s'.loads == s.loads
    ensures s'.pc == (if i + 1 == SLOTS then 12 else 7) && s'.x[8] == SlotAt(base, i + 1) && s'.x[11] == SLOTS - (i + 1)
  {
    hide Step, Decode, Reaches;
    StepExecutes(mem, s);
    var s1 := Step(mem, s).value;
    StepExecutes(mem, s1);
    var s2 := Step(mem, s1).value;
    StepExecutes(mem, s2);
    s' := Step(mem, s2).value;
    ThreeSteps(mem, s, s1, s2, s');
  }

  /** One round of the loop on a slot that is taken. */
  lemma Round(mem: Memory, s: Machine, base: nat, i: nat) returns (s': Machine)
    requires |s.x| == 31 && !s.returned && s.pc == 7 && i < SLOTS && s.x[8] == SlotAt(base, i) && s.x[11] == SLOTS - i
    requires !Free(mem, base, i)
    ensures Reaches(mem, s, 5, s') && Keeps(s, s') && |s'.x| == 31 && s'.x[24] == s.x[24] && !s'.returned
    ensures s'.loads == s.loads + [EntryAddress(base, i)]
    ensures s'.pc == (if i + 1 == SLOTS then 12 else 7) && s'.x[8] == SlotAt(base, i + 1) && s'.x[11] == SLOTS - (i + 1)
  {
    hide Step, Decode, Execute, Reaches, Keeps, Free, SlotAt, EntryAddress;
    var s1 := TestSlot(mem, s, base, i);
    s' := NextSlot(mem, s1, base, i);
    ReachesOn(mem, s, 2, s1, 3, s');
    KeepsOn(s, s1, s');
  }

  /** The machine is back at the call with the outcome of a scan from slot `i`. */
  ghost predicate Scanned(mem: Memory, s: Machine, base: nat, i: nat, s': Machine)
    requires i <= SLOTS
  {
    && Keeps(s, s') && !s'.returned && s'.pc == 13 && |s'.x| == 31
    && s'.x[8] == SlotAt(base, match LeastFree(mem, base, i) case Some(f) => f case None => 0)
    && s'.loads == s.loads + ScanLoads(mem, base, i)
  }

  /** The scan from slot `i`: the least free slot, or the first slot of a full table. */
  lemma {:induction false} Scan(mem: Memory, s: Machine, base: nat, i: nat) returns (s': Machine, n: nat)
    requires |s.x| == 31 && !s.returned && s.pc == 7 && i < SLOTS && s.x[8] == SlotAt(base, i) && s.x[11] == SLOTS - i
    requires s.x[24] == base
    ensures Reaches(mem, s, n, s') && n <= 5 * (SLOTS - i) + 1 && Scanned(mem, s, base, i, s')
    decreases SLOTS - i
  {
    hide Step, Decode, Execute, Reaches, Keeps, Free, SlotAt, EntryAddress, Scanned;
    if Free(mem, base, i) {
      s' := TestSlot(mem, s, base, i);
      n := 2;
      ScannedFree(mem, s, base, i, s');
    } else {
      var s1 := Round(mem, s, base, i);
      var m;
      if i + 1 == SLOTS {
        s' := TakeFirst(mem, s1, base);
        m := 1;
        ScannedNothing(mem, s1, base, s');
      } else {
        s', m := Scan(mem, s1, base, i + 1);
      }
      ReachesOn(mem, s, 5, s1, m, s');
      ScannedOn(mem, s, base, i, s1, s');
      n := 5 + m;
    }
  }

  lemma ScannedFree(mem: Memory, s: Machine, base: nat, i: nat, s': Machine)
    requires i < SLOTS && Free(mem, base, i) && Keeps(s, s') && |s'.x| == 31 && !s'.returned && s'.pc == 13
    requires s'.x[8] == SlotAt(base, i) && s'.loads == s.loads + [EntryAddress(base, i)]
    ensures Scanned(mem, s, base, i, s')
  {
    hide Keeps, Free, SlotAt, EntryAddress;
  }

  lemma ScannedNothing(mem: Memory, s: Machine, base: nat, s': Machine)
    requires Keeps(s, s') && !s'.returned && s'.pc == 13 && |s'.x| == 31 && s'.x[8] == SlotAt(base, 0)
    requires s'.loads == s.loads
    ensures Scanned(mem, s, base, SLOTS, s')
  {
    hide Keeps, Free, SlotAt, EntryAddress;
  }

  lemma ScannedOn(mem: Memory, s: Machine, base: nat, i: nat, s1: Machine, s': Machine)
    requires i < SLOTS && !Free(mem, base, i) && Keeps(s, s1) && s1.loads == s.loads + [EntryAddress(base, i)]
    requires Scanned(mem, s1, base, i + 1, s')
    ensures Scanned(mem, s, base, i, s')
  {
    hide Keeps, Free, SlotAt, EntryAddress, LeastFree;
    KeepsOn(s, s1, s');
    LeastFreeStep(mem, base, i);
    var e, rest := [EntryAddress(base, i)], ScanLoads(mem, base, i + 1);
    assert (s.loads + e) + rest == s.loads + (e + rest);
  }

  lemma LeastFreeStep(mem: Memory, base: nat, i: nat)
    requires i < SLOTS && !Free(mem, base, i)
    ensures LeastFree(mem, base, i) == LeastFree(mem, base, i + 1)
  {
    hide Free;
  }

  lemma KeepsOn(s: Machine, s1: Machine, s2: Machine)
    requires Keeps(s, s1) && Keeps(s1, s2)
    ensures Keeps(s, s2)
  {
  }

  lemma TakeFirst(mem: Memory, s: Machine, base: nat) returns (s': Machine)
    requires |s.x| == 31 && !s.returned && s.pc == 12 && s.x[24] == base
    ensures Reaches(mem, s, 1, s') && Keeps(s, s') && |s'.x| == 31 && !s'.returned && s'.loads == s.loads
    ensures s'.pc == 13 && s'.x[8] == SlotAt(base, 0)
  {
    hide Step, Decode;
    StepExecutes(mem, s);
    s' := Step(mem, s).value;
    assert Reaches(mem, s', 0, s');
  }

  /** The comparison with the automatic address. */
  lemma TestRequest(mem: Memory, s: Machine) returns (s': Machine)
    requires |s.x| == 31 && !s.returned && s.pc == 0
    ensures Reaches(mem, s, 2, s') && s'.x == s.x && !s'.returned && s'.loads == s.loads
    ensures s'.pc == if s.x[8] == AUTOMATIC then 5 else 2
  {
    hide Step, Decode, Reaches;
    StepExecutes(mem, s);
    var s1 := Step(mem, s).value;
    StepExecutes(mem, s1);
    s' := Step(mem, s1).value;
    TwoSteps(mem, s, s1, s');
  }

  /** The test of an explicit slot. */
  lemma TryRequest(mem: Memory, s: Machine, base: nat, request: nat) returns (s': Machine)
    requires |s.x| == 31 && !s.returned && s.pc == 2 && s.x[8] == request && s.x[24] == base
    ensures Reaches(mem, s, 3, s') && Keeps(s, s') && |s'.x| == 31 && s'.x[24] == base && !s'.returned
    ensures s'.loads == s.loads + [EntryAddress(base, request)]
    ensures if Free(mem, base, request) then s'.pc == 13 && s'.x[8] == SlotAt(base, request) else s'.pc == 5
  {
    hide Step, Decode, Reaches;
    assert Pow2(3) == 8;
    StepExecutes(mem, s);
    var s1 := Step(mem, s).value;
    StepExecutes(mem, s1);
    var s2 := Step(mem, s1).value;
    StepExecutes(mem, s2);
    s' := Step(mem, s2).value;
    ThreeSteps(mem, s, s1, s2, s');
  }

  /** The start of the scan. */
  lemma StartScan(mem: Memory, s: Machine, base: nat) returns (s': Machine)
    requires |s.x| == 31 && !s.returned && s.pc == 5 && s.x[24] == base
    ensures Reaches(mem, s, 2, s') && Keeps(s, s') && |s'.x| == 31 && s'.x[24] == base && !s'.returned
    ensures s'.loads == s.loads
    ensures s'.pc == 7 && s'.x[8] == SlotAt(base, 0) && s'.x[11] == SLOTS
  {
    hide Step, Decode, Reaches;
    StepExecutes(mem, s);
    var s1 := Step(mem, s).value;
    StepExecutes(mem, s1);
    s' := Step(mem, s1).value;
    TwoSteps(mem, s, s1, s');
  }

  lemma Finish(mem: Memory, s: Machine) returns (s': Machine)
    requires |s.x| == 31 && !s.returned && s.pc == 13
    ensures Reaches(mem, s, 1, s') && s'.x == s.x && s'.loads == s.loads && s'.returned && |s'.x| == 31
    ensures Step(mem, s') == None
  {
    hide Decode;
    StepExecutes(mem, s);
    s' := Step(mem, s).value;
    assert Reaches(mem, s', 0, s');
  }

  /** The addresses the helper reads. */
  function HelperLoads(mem: Memory, base: nat, request: nat): seq<nat>
  {
    if request == AUTOMATIC then ScanLoads(mem, base, 0)
    else if Free(mem, base, request) then [EntryAddress(base, request)]
    else [EntryAddress(base, request)] + ScanLoads(mem, base, 0)
  }

  /** From the request test to the return instruction. */
  lemma Choose(mem: Memory, s: Machine, base: nat, request: nat) returns (s': Machine, n: nat)
    requires |s.x| == 31 && !s.returned && s.pc == 0 && s.loads == [] && s.x[8] == request && s.x[24] == base
    ensures Reaches(mem, s, n, s') && n <= 5 * SLOTS + 8 && Keeps(s, s') && |s'.x| == 31 && !s'.returned && s'.pc == 13
    ensures s'.x[8] == SlotAt(base, Choice(mem, base, request)) && s'.loads == HelperLoads(mem, base, request)
  {
    hide Step, Decode, Execute, Reaches, Keeps, Free, SlotAt, EntryAddress, LeastFree, ScanLoads;
    var s1 := TestRequest(mem, s);
    SameKeeps(s, s1);
    var s2, k := s1, 2;
    if request != AUTOMATIC {
      s2 := TryRequest(mem, s1, base, request);
      ReachesOn(mem, s, 2, s1, 3, s2);
      KeepsOn(s, s1, s2);
      k := 5;
      if Free(mem, base, request) { return s2, 5; }
    }
    var s3 := StartScan(mem, s2, base);
    ReachesOn(mem, s, k, s2, 2, s3);
    KeepsOn(s, s2, s3);
    var m;
    s', m := Scan(mem, s3, base, 0);
    ReachesOn(mem, s, k + 2, s3, m, s');
    KeepsOn(s, s3, s');
    n := k + 2 + m;
  }

  lemma SameKeeps(s: Machine, s': Machine)
    requires |s.x| == 31 && s'.x == s.x
    ensures Keeps(s, s')
  {
  }

  /** The helper returns within 1289 steps on every memory and every request, with x8 at the slot of choice and
      every register but x8, x10 and x11 as it was. */
  lemma HelperChooses(mem: Memory, s: Machine) returns (s': Machine, n: nat)
    requires |s.x| == 31 && !s.returned && s.pc == 0 && s.loads == []
    ensures Reaches(mem, s, n, s') && n <= 1289 && s'.returned && |s'.x| == 31 && Step(mem, s') == None
    ensures Keeps(s, s') && s'.x[8] == SlotAt(s.x[24], Choice(mem, s.x[24], s.x[8]))
    ensures s'.loads == HelperLoads(mem, s.x[24], s.x[8])
  {
    hide Step, Decode, Execute, Reaches, Choice, HelperLoads, SlotAt;
    var s1, m := Choose(mem, s, s.x[24], s.x[8]);
    s' := Finish(mem, s1);
    ReachesOn(mem, s, m, s1, 1, s');
    SameKeeps(s1, s');
    KeepsOn(s, s1, s');
    n := m + 1;
  }

  // -------------------------------------------------------------- reads

  /** All eight bytes at the address belong to the table of 256 entries. */
  predicate InTable(base: nat, address: nat)
  {
    (address - base - TABLE) % WORD64 + 8 <= 8 * SLOTS
  }

  const WORD61 := 0x2000_0000_0000_0000

  lemma EntryIsInTableIff(base: nat, i: nat)
    ensures InTable(base, EntryAddress(base, i)) <==> i % WORD61 < SLOTS
  {
    EntryOffset(base, i);
    EightTimes(i);
  }

  lemma EightTimes(i: nat)
    ensures (8 * i) % WORD64 == 8 * (i % WORD61)
  {
    var q, r := i / WORD61, i % WORD61;
    assert 8 * i == q * WORD64 + 8 * r;
  }

  lemma EntryOffset(base: nat, i: nat)
    ensures (EntryAddress(base, i) - base - TABLE) % WORD64 == (8 * i) % WORD64
  {
    var x := base + 8 * i;
    var y := x % WORD64 + TABLE;
    var q, p, t := x / WORD64, y / WORD64, (8 * i) / WORD64;
    assert EntryAddress(base, i) - base - TABLE == (8 * i) % WORD64 + (t - q - p) * WORD64;
  }

  lemma {:induction false} ScanStaysInside(mem: Memory, base: nat, i: nat)
    requires i <= SLOTS
    ensures forall a <- ScanLoads(mem, base, i) :: InTable(base, a)
    decreases SLOTS - i
  {
    hide InTable, EntryAddress;
    if i < SLOTS {
      EntryIsInTableIff(base, i);
      ScanStaysInside(mem, base, i + 1);
    }
  }

  /** The helper reads inside the table only, if and only if the request is automatic or names one of its slots,
      up to the wrap of the address arithmetic. */
  lemma ReadsStayInsideIff(mem: Memory, base: nat, request: nat)
    ensures (forall a <- HelperLoads(mem, base, request) :: InTable(base, a)) <==>
              request == AUTOMATIC || request % WORD61 < SLOTS
  {
    hide InTable, EntryAddress, ScanLoads, Free;
    ScanStaysInside(mem, base, 0);
    EntryIsInTableIff(base, request);
    if request != AUTOMATIC { assert EntryAddress(base, request) == HelperLoads(mem, base, request)[0]; }
  }

  /** A request for slot 256 reads the word behind the table. */
  lemma RequestReadsPastTheTable(mem: Memory)
    ensures EntryAddress(0, SLOTS) in HelperLoads(mem, 0, SLOTS) && EntryAddress(0, SLOTS) == TABLE + 8 * SLOTS
  {
    assert EntryAddress(0, SLOTS) == HelperLoads(mem, 0, SLOTS)[0];
  }

  // -------------------------------------------------------------- the call

  /** `encode_bl`; None is the ValueError. */
  function EncodeBl(source: nat, target: nat): (w: Option<nat>)
  {
    var delta := target - source;
    if delta % 4 != 0 || !(-0x8000000 <= delta < 0x8000000) then None else Some(0x94000000 + delta / 4 % 0x4000000)
  }

  /** Where a BL word at `pc` jumps to. */
  function BlTarget(pc: nat, w: nat): (t: Option<int>)
  {
    if w / 0x4000000 != 0x25 then None
    else Some(pc + 4 * (if w % 0x4000000 < 0x2000000 then w % 0x4000000 else w % 0x4000000 - 0x4000000))
  }

  lemma EncodedBlDecodes(source: nat, target: nat)
    requires EncodeBl(source, target).Some?
    ensures EncodeBl(source, target).value < 0x1_0000_0000
    ensures BlTarget(source, EncodeBl(source, target).value) == Some(target)
  {
    var d := (target - source) / 4;
    assert d % 0x4000000 == if d < 0 then d + 0x4000000 else d;
  }

  lemma BlIsEncodable(source: nat, target: nat, w: nat)
    requires w < 0x1_0000_0000 && BlTarget(source, w) == Some(target)
    ensures EncodeBl(source, target) == Some(w)
  {
    var m := w % 0x4000000;
    var k := if m < 0x2000000 then m else m - 0x4000000;
    assert target - source == 4 * k && (target - source) / 4 == k && k % 0x4000000 == m;
  }

  /** Encoding succeeds exactly for the targets a BL can reach, and the word is the only one that calls it. */
  lemma BlReaches(source: nat, target: nat)
    ensures EncodeBl(source, target).Some? <==>
              exists w: nat :: w < 0x1_0000_0000 && BlTarget(source, w) == Some(target)
  {
    hide EncodeBl, BlTarget;
    if EncodeBl(source, target).Some? { EncodedBlDecodes(source, target); }
    if w: nat :| w < 0x1_0000_0000 && BlTarget(source, w) == Some(target) { BlIsEncodable(source, target, w); }
  }

  const CALL_SITE := 0x179DF0
  const HELPER := 0x1A5F4A + 2

  /** The word the patch writes at the call site calls the helper. */
  lemma CallSiteCallsHelper()
    ensures EncodeBl(CALL_SITE, HELPER).Some? && BlTarget(CALL_SITE, EncodeBl(CALL_SITE, HELPER).value) == Some(HELPER)
  {
    EncodedBlDecodes(CALL_SITE, HELPER);
  }
}
