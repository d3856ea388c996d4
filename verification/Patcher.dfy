/**
 * The patch installer of `loader/patcher.c`: jump encodings, blobs copied behind BIOS table B, and hook words
 * redirected to them. Memory is word by word, addressed through any of the processor's mirrors of RAM.
 */
module Patcher {
  import opened Bits

  // ---------- Instructions ----------

  /** `encode_j` */
  function EncodeJ(dest: Word): Word {
    0x0800_0000 + dest / 4 % 0x400_0000
  }

  /** `encode_jal` */
  function EncodeJal(dest: Word): Word {
    0x0C00_0000 + dest / 4 % 0x400_0000
  }

  /** Where a jump word leads when it stands in the 256 MB segment of `pc`, as `parse_warmboot_jal` reads it. */
  function JumpTarget(pc: Word, w: Word): Word {
    pc / 0x1000_0000 * 0x1000_0000 + w % 0x400_0000 * 4
  }

  predicate SameSegment(a: Word, b: Word) {
    a / 0x1000_0000 == b / 0x1000_0000
  }

  lemma JumpField(op: nat, index: nat)
    requires index < 0x400_0000
    ensures (op * 0x400_0000 + index) % 0x400_0000 == index
  {}

  /** An encoded jump leads where it was meant to exactly when that is a word address in its own segment. */
  lemma DecodeAfterEncode(pc: Word, dest: Word)
    ensures JumpTarget(pc, EncodeJ(dest)) == dest <==> dest % 4 == 0 && SameSegment(pc, dest)
    ensures JumpTarget(pc, EncodeJal(dest)) == JumpTarget(pc, EncodeJ(dest))
  {
    var index := dest / 4 % 0x400_0000;
    JumpField(2, index);
    JumpField(3, index);
    var segment := dest / 0x1000_0000;
    assert dest == segment * 0x1000_0000 + index * 4 + dest % 4;
  }

  /** `encode_li`: a load of the upper half and an or of the lower half into the same register. */
  function EncodeLi(register: nat, value: Word): (code: seq<Word>)
    requires register < 32
    ensures |code| == 2
  {
    [0x3C00_0000 + register * 0x1_0000 + value / 0x1_0000,
     0x3400_0000 + register * 0x20_0000 + register * 0x1_0000 + value % 0x1_0000]
  }

  const LUI: nat := 0x0F
  const ORI: nat := 0x0D

  /** The general registers. Register 0 always reads as zero, whatever is written to it. */
  type Registers = nat -> Word

  function Get(registers: Registers, r: nat): Word {
    if r == 0 then 0 else registers(r)
  }

  function Set(registers: Registers, r: nat, value: Word): Registers {
    (k: nat) => if k == r then value else registers(k)
  }

  /** One `lui` or `ori`; oring into a word whose lower half is clear is adding. */
  function Execute(w: Word, registers: Registers): Registers {
    var op, rs, rt, immediate := w / 0x400_0000, w / 0x20_0000 % 32, w / 0x1_0000 % 32, w % 0x1_0000;
    if op == LUI then Set(registers, rt, immediate * 0x1_0000)
    else if op == ORI && Get(registers, rs) % 0x1_0000 == 0 then Set(registers, rt, Get(registers, rs) + immediate)
    else registers
  }

  /** The fields of an instruction with an immediate. */
  lemma ImmediateFields(op: nat, rs: nat, rt: nat, immediate: nat)
    requires op < 64 && rs < 32 && rt < 32 && immediate < 0x1_0000
    ensures var w := op * 0x400_0000 + rs * 0x20_0000 + rt * 0x1_0000 + immediate;
            w / 0x400_0000 == op && w / 0x20_0000 % 32 == rs && w / 0x1_0000 % 32 == rt && w % 0x1_0000 == immediate
  {
    var w := op * 0x400_0000 + rs * 0x20_0000 + rt * 0x1_0000 + immediate;
    assert w / 0x1_0000 == op * 0x400 + rs * 0x20 + rt;
    assert w / 0x20_0000 == op * 0x20 + rs;
  }

  /**
   * The two instructions leave the value in the register, except that register 0 stays zero, and no other register
   * reads differently.
   */
  lemma LoadImmediateLoads(register: nat, value: Word, registers: Registers)
    requires register < 32
    ensures var code := EncodeLi(register, value);
            var after := Execute(code[1], Execute(code[0], registers));
      && (Get(after, register) == value <==> register != 0 || value == 0)
      && forall r: nat :: r != register ==> Get(after, r) == Get(registers, r)
  {
    ImmediateFields(LUI, 0, register, value / 0x1_0000);
    ImmediateFields(ORI, register, register, value % 0x1_0000);
  }

  // ---------- What a jump does ----------

  /** The address of the instruction after the one at `pc`, which is executed before a jump is taken. */
  function DelaySlot(pc: Word): Word {
    (pc + 4) % 0x1_0000_0000
  }

  /** Where execution goes on after an instruction, with these registers; or the instruction is no jump. */
  datatype Effect = Goes(pc: Word, registers: Registers) | NoJump

  const J: nat := 2
  const JAL: nat := 3
  const RA: nat := 31

  /** `j` leads to its target; `jal` also puts the address behind its delay slot into register 31. */
  function ExecuteJump(w: Word, pc: Word, registers: Registers): Effect {
    if w / 0x400_0000 == J then Goes(JumpTarget(DelaySlot(pc), w), registers)
    else if w / 0x400_0000 == JAL then
      Goes(JumpTarget(DelaySlot(pc), w), Set(registers, RA, (pc + 8) % 0x1_0000_0000))
    else NoJump
  }

  /** The words in figures: the two opcodes and the word address below them. */
  lemma JumpFields(dest: Word)
    ensures EncodeJ(dest) / 0x400_0000 == 2 && EncodeJal(dest) / 0x400_0000 == 3
    ensures EncodeJ(dest) % 0x400_0000 == EncodeJal(dest) % 0x400_0000 == dest / 4 % 0x400_0000
    ensures EncodeJ(0x8000_1000) == 0x0800_0400 && EncodeJal(0x8000_1000) == 0x0C00_0400
  {
    var index := dest / 4 % 0x400_0000;
    JumpField(2, index);
    JumpField(3, index);
  }

  /** `encode_j` makes a jump that leaves every register alone, and arrives exactly when a jump can reach. */
  lemma {:induction false} JumpArrives(pc: Word, dest: Word, registers: Registers)
    ensures var e := ExecuteJump(EncodeJ(dest), pc, registers);
      && e.Goes? && e.registers == registers
      && (e.pc == dest <==> dest % 4 == 0 && dest / 0x1000_0000 == (pc + 4) % 0x1_0000_0000 / 0x1000_0000)
  {
    hide JumpTarget, EncodeJ, EncodeJal;
    JumpFields(dest);
    DecodeAfterEncode(DelaySlot(pc), dest);
  }

  /** `encode_jal` makes a call: it arrives under the same condition, and only register 31 is changed. */
  lemma {:induction false} CallArrives(pc: Word, dest: Word, registers: Registers)
    ensures var e := ExecuteJump(EncodeJal(dest), pc, registers);
      && e.Goes? && Get(e.registers, 31) == (pc + 8) % 0x1_0000_0000
      && (forall r: nat :: r != 31 ==> Get(e.registers, r) == Get(registers, r))
      && (e.pc == dest <==> dest % 4 == 0 && dest / 0x1000_0000 == (pc + 4) % 0x1_0000_0000 / 0x1000_0000)
  {
    hide JumpTarget, EncodeJ, EncodeJal;
    JumpFields(dest);
    DecodeAfterEncode(DelaySlot(pc), dest);
  }

  // ---------- Memory ----------

  type Memory = seq<Word>

  /** The word of memory an address stands for: the top three bits select a mirror. */
  function Index(address: Word): nat {
    address % 0x2000_0000 / 4
  }

  predicate IsWordIn(mem: Memory, address: Word) {
    address % 4 == 0 && Index(address) < |mem|
  }

  function Read(mem: Memory, address: Word): Word
    requires IsWordIn(mem, address)
  {
    mem[Index(address)]
  }

  /** `ws` stored from word `at` on. */
  function Stored(mem: Memory, at: nat, ws: seq<Word>): (r: Memory)
    requires at + |ws| <= |mem|
    ensures |r| == |mem|
    ensures forall i :: 0 <= i < |mem| ==> r[i] == if at <= i < at + |ws| then ws[i - at] else mem[i]
  {
    mem[..at] + ws + mem[at + |ws|..]
  }

  /** Word `n` after an address, as long as RAM reaches that far. */
  lemma IndexPlus(address: Word, n: nat)
    requires address % 4 == 0 && Index(address) + n <= 0x7FF_FFFF
    ensures address + 4 * n < 0x1_0000_0000 && (address + 4 * n) % 4 == 0 && Index(address + 4 * n) == Index(address) + n
    ensures (address + 4 * n) / 0x2000_0000 == address / 0x2000_0000
  {
    var mirror, offset := address / 0x2000_0000, address % 0x2000_0000;
    assert address == mirror * 0x2000_0000 + offset && offset % 4 == 0;
    assert offset + 4 * n < 0x2000_0000;
    assert address + 4 * n == mirror * 0x2000_0000 + (offset + 4 * n);
  }

  const RAM_WORDS: nat := 0x8_0000

  /** `parse_warmboot_jal`: the target of the jump at opcode `n` of the code at `start`, in the segment of `start`. */
  function ParseWarmbootJal(mem: Memory, start: Word, n: nat): Word
    requires start % 4 == 0 && Index(start) + n < |mem|
  {
    JumpTarget(start, mem[Index(start) + n])
  }

  /** It reads back what `encode_jal` stored there, exactly when that is a word address in the segment of `start`. */
  lemma WarmbootJalReadsBack(mem: Memory, start: Word, n: nat, dest: Word)
    requires start % 4 == 0 && Index(start) + n < |mem|
    ensures ParseWarmbootJal(mem[Index(start) + n := EncodeJal(dest)], start, n) == dest <==>
            dest % 4 == 0 && SameSegment(start, dest)
  {
    DecodeAfterEncode(start, dest);
  }

  // ---------- What is installed ----------

  /** A patch as it lies in the loader, with the places of the jumps that are filled in when it is installed. */
  datatype Antipiracy = Antipiracy(words: seq<Word>, skip: nat, success: nat)

  datatype Vandal = Vandal(words: seq<Word>, exit: nat)

  datatype Patches = Patches(antipiracy: Antipiracy, vandal: Vandal, fpb: seq<Word>)

  predicate PatchesOk(p: Patches) {
    && p.antipiracy.skip < |p.antipiracy.words| && p.antipiracy.success < |p.antipiracy.words|
    && p.antipiracy.skip != p.antipiracy.success
    && p.vandal.exit < |p.vandal.words|
  }

  /** What the BIOS calls return: tables B and C. */
  datatype Bios = Bios(b0Table: Word, c0Table: Word)

  const FPB_HOOK: Word := 0x5B40

  predicate Readable(mem: Memory, address: nat) {
    address < 0x1_0000_0000 && IsWordIn(mem, address)
  }

  /** The handler `bios_get_syscall_handler` extracts from the code that installs it. */
  function SyscallHandler(mem: Memory, bios: Bios): nat
    requires Readable(mem, bios.c0Table + 4) && Readable(mem, Read(mem, bios.c0Table + 4) + 16)
  {
    Read(mem, Read(mem, bios.c0Table + 4) + 16) % 0x1_0000
  }

  /** Every pointer on the way to opcode 20 of the handler's verifier is good. */
  predicate LookupOk(mem: Memory, bios: Bios) {
    && Readable(mem, bios.c0Table + 4) && Readable(mem, Read(mem, bios.c0Table + 4) + 16)
    && Readable(mem, SyscallHandler(mem, bios) + 8)
    && Readable(mem, Read(mem, SyscallHandler(mem, bios) + 8) + 80)
  }

  /** The opcode that loads from the array of syscall cases. */
  function CasesOpcode(mem: Memory, bios: Bios): Word
    requires LookupOk(mem, bios)
  {
    Read(mem, Read(mem, SyscallHandler(mem, bios) + 8) + 80)
  }

  predicate KnownOpcode(opcode: Word) {
    opcode / 0x1_0000 == 0x8C39
  }

  /** The array of syscall cases lies in the first 64 KB. */
  function CasesArray(opcode: Word): nat {
    opcode % 0x1_0000
  }

  /** Memory has the room for `n` words at an address, and that address names words. */
  predicate Room(mem: Memory, at: Word, n: nat) {
    |mem| == RAM_WORDS && at % 4 == 0 && Index(at) + n <= |mem|
  }

  /**
   * What installing the antipiracy patch makes of memory, store by store: `at` is the address that goes into the
   * hook, `base` the word it stands for, and `case1` and `case0` are the words of the two syscall cases.
   */
  function AfterAntipiracy(mem: Memory, p: Antipiracy, at: Word, base: nat, case1: nat, case0: nat): (r: Memory)
    requires base + |p.words| <= |mem| && p.skip < |p.words| && p.success < |p.words| && case1 < |mem| && case0 < |mem|
    ensures |r| == |mem|
  {
    var m1 := Stored(mem, base, p.words);
    var m2 := m1[base + p.skip := EncodeJ(m1[case1])];
    var m3 := m2[base + p.success := EncodeJ(m2[case0])];
    m3[case1 := at]
  }

  function AfterVandal(mem: Memory, p: Vandal, at: Word, base: nat, hook: nat): (r: Memory)
    requires base + |p.words| <= |mem| && p.exit < |p.words| && hook < |mem|
    ensures |r| == |mem|
  {
    var m1 := Stored(mem, base, p.words);
    m1[base + p.exit := EncodeJ(m1[hook])][hook := at]
  }

  function AfterFpb(mem: Memory, words: seq<Word>, at: Word, base: nat, hook: nat): (r: Memory)
    requires base + |words| <= |mem| && hook < |mem|
    ensures |r| == |mem|
  {
    Stored(mem, base, words)[hook := EncodeJal(at)]
  }

  predicate Within(i: nat, base: nat, n: nat) {
    base <= i < base + n
  }

  /** With the cases outside the new code, its jumps are made from what the cases held before. */
  lemma AntipiracyMemory(mem: Memory, p: Antipiracy, at: Word, base: nat, case1: nat, case0: nat)
    requires base + |p.words| <= |mem| && p.skip < |p.words| && p.success < |p.words| && case1 < |mem| && case0 < |mem|
    requires p.skip != p.success && !Within(case1, base, |p.words|) && !Within(case0, base, |p.words|)
    ensures var r := AfterAntipiracy(mem, p, at, base, case1, case0);
      && r[base + p.skip] == EncodeJ(mem[case1]) && r[base + p.success] == EncodeJ(mem[case0]) && r[case1] == at
      && (forall k | 0 <= k < |p.words| && k != p.skip && k != p.success :: r[base + k] == p.words[k])
      && (forall i | 0 <= i < |mem| && !Within(i, base, |p.words|) && i != case1 :: r[i] == mem[i])
  {
    hide EncodeJ;
  }

  lemma VandalMemory(mem: Memory, p: Vandal, at: Word, base: nat, hook: nat)
    requires base + |p.words| <= |mem| && p.exit < |p.words| && hook < |mem|
    requires !Within(hook, base, |p.words|)
    ensures var r := AfterVandal(mem, p, at, base, hook);
      && r[base + p.exit] == EncodeJ(mem[hook]) && r[hook] == at
      && (forall k | 0 <= k < |p.words| && k != p.exit :: r[base + k] == p.words[k])
      && (forall i | 0 <= i < |mem| && !Within(i, base, |p.words|) && i != hook :: r[i] == mem[i])
  {
    hide EncodeJ;
  }

  lemma FpbMemory(mem: Memory, words: seq<Word>, at: Word, base: nat, hook: nat)
    requires base + |words| <= |mem| && hook < |mem| && !Within(hook, base, |words|)
    ensures var r := AfterFpb(mem, words, at, base, hook);
      && r[hook] == EncodeJal(at)
      && (forall k | 0 <= k < |words| :: r[base + k] == words[k])
      && (forall i | 0 <= i < |mem| && !Within(i, base, |words|) && i != hook :: r[i] == mem[i])
  {
    hide EncodeJal;
  }

  // ---------- Everything `patcher_apply` does ----------

  /** What decides which patches go in: the memory found, the BIOS, the game and the console. */
  datatype Setting = Setting(mem: Memory, bios: Bios, patches: Patches, vandalGame: bool, ps1: bool)

  /** The first patch: the game's own, the generic one, or none when the generic one gives up. */
  function FirstWords(s: Setting): seq<Word>
    requires !s.vandalGame ==> LookupOk(s.mem, s.bios)
  {
    if s.vandalGame then s.patches.vandal.words
    else if KnownOpcode(CasesOpcode(s.mem, s.bios)) then s.patches.antipiracy.words
    else []
  }

  function FpbWords(s: Setting): seq<Word> {
    if s.ps1 then s.patches.fpb else []
  }

  /** The first free entry behind table B. */
  function InstallAddress(bios: Bios): nat {
    bios.b0Table + 0x5E * 4
  }

  /** The table entry that is redirected to the first patch. */
  function FirstHook(s: Setting): nat
    requires !s.vandalGame ==> LookupOk(s.mem, s.bios)
  {
    if s.vandalGame then s.bios.b0Table + 0x16 * 4 else CasesArray(CasesOpcode(s.mem, s.bios)) + 4
  }

  /** Every word the installers touch is in RAM, and there is room behind table B. */
  predicate SettingOk(s: Setting) {
    && PatchesOk(s.patches)
    && (!s.vandalGame ==> LookupOk(s.mem, s.bios))
    && InstallAddress(s.bios) < 0x1_0000_0000
    && Room(s.mem, InstallAddress(s.bios), |FirstWords(s)| + |FpbWords(s)|)
    && (FirstWords(s) != [] ==>
          && Readable(s.mem, FirstHook(s))
          && (!s.vandalGame ==> FirstHook(s) >= 4 && Readable(s.mem, FirstHook(s) - 4)))
  }

  // The words of memory these addresses stand for.

  function Base(s: Setting): nat
    requires InstallAddress(s.bios) < 0x1_0000_0000
  {
    Index(InstallAddress(s.bios))
  }

  function HookWord(s: Setting): (w: nat)
    requires SettingOk(s) && FirstWords(s) != []
    ensures w < |s.mem|
  {
    Index(FirstHook(s))
  }

  /** Syscall case 0, the entry before the hook. */
  function OtherWord(s: Setting): (w: nat)
    requires SettingOk(s) && FirstWords(s) != [] && !s.vandalGame
    ensures w < |s.mem|
  {
    Index(FirstHook(s) - 4)
  }

  const FPB_WORD: nat := 0x5B40 / 4

  /** Where the second patch goes: right behind the first. */
  function SecondAddress(s: Setting): (a: Word)
    requires SettingOk(s)
    ensures a == InstallAddress(s.bios) + 4 * |FirstWords(s)|
    ensures a % 4 == 0 && Index(a) == Base(s) + |FirstWords(s)|
  {
    IndexPlus(InstallAddress(s.bios), |FirstWords(s)|);
    InstallAddress(s.bios) + 4 * |FirstWords(s)|
  }

  function AfterFirst(s: Setting): (r: Memory)
    requires SettingOk(s)
    ensures |r| == |s.mem|
  {
    var at := InstallAddress(s.bios);
    if FirstWords(s) == [] then s.mem
    else if s.vandalGame then AfterVandal(s.mem, s.patches.vandal, at, Base(s), HookWord(s))
    else AfterAntipiracy(s.mem, s.patches.antipiracy, at, Base(s), HookWord(s), OtherWord(s))
  }

  function AfterApply(s: Setting): (r: Memory)
    requires SettingOk(s)
    ensures |r| == |s.mem|
  {
    if s.ps1 then AfterFpb(AfterFirst(s), s.patches.fpb, SecondAddress(s), Base(s) + |FirstWords(s)|, FPB_WORD)
    else AfterFirst(s)
  }

  predicate InArea(s: Setting, i: nat)
    requires SettingOk(s)
  {
    Within(i, Base(s), |FirstWords(s)| + |FpbWords(s)|)
  }

  /** The hooks that are written, and the entry the antipiracy patch reads beside its own, lie outside the new code and apart. */
  predicate HooksApart(s: Setting)
    requires SettingOk(s)
  {
    && (s.ps1 ==> !InArea(s, FPB_WORD))
    && (FirstWords(s) != [] ==>
          && !InArea(s, HookWord(s)) && (s.ps1 ==> HookWord(s) != FPB_WORD)
          && (!s.vandalGame ==> !InArea(s, OtherWord(s))))
  }

  /** The words of the first patch that are filled in when it is installed. */
  predicate IsJump(s: Setting, k: nat) {
    if s.vandalGame then k == s.patches.vandal.exit
    else k == s.patches.antipiracy.skip || k == s.patches.antipiracy.success
  }

  /** What the first installer leaves: its hook, and no change outside its code. */
  lemma {:induction false} FirstMemory(s: Setting)
    requires SettingOk(s) && HooksApart(s)
    ensures FirstWords(s) != [] ==> AfterFirst(s)[HookWord(s)] == InstallAddress(s.bios)
    ensures forall i | 0 <= i < |s.mem| && !Within(i, Base(s), |FirstWords(s)|) && (FirstWords(s) != [] ==> i != HookWord(s)) ::
              AfterFirst(s)[i] == s.mem[i]
    ensures forall k | 0 <= k < |FirstWords(s)| && !IsJump(s, k) :: AfterFirst(s)[Base(s) + k] == FirstWords(s)[k]
  {
    hide AfterVandal, AfterAntipiracy, Index, IsWordIn, LookupOk, CasesOpcode, KnownOpcode, CasesArray, EncodeJ;
    if FirstWords(s) != [] {
      if s.vandalGame {
        VandalMemory(s.mem, s.patches.vandal, InstallAddress(s.bios), Base(s), HookWord(s));
      } else {
        AntipiracyMemory(s.mem, s.patches.antipiracy, InstallAddress(s.bios), Base(s), HookWord(s), OtherWord(s));
      }
    }
  }

  /** What the second installer leaves on top of the first. */
  lemma {:induction false} SecondMemory(s: Setting)
    requires SettingOk(s) && HooksApart(s)
    ensures s.ps1 ==> AfterApply(s)[FPB_WORD] == EncodeJal(SecondAddress(s))
    ensures forall k | 0 <= k < |FpbWords(s)| :: AfterApply(s)[Base(s) + |FirstWords(s)| + k] == FpbWords(s)[k]
    ensures forall i | 0 <= i < |s.mem| && !Within(i, Base(s) + |FirstWords(s)|, |FpbWords(s)|) && (s.ps1 ==> i != FPB_WORD) ::
              AfterApply(s)[i] == AfterFirst(s)[i]
  {
    hide AfterFirst, AfterFpb, Index, IsWordIn, LookupOk, CasesOpcode, KnownOpcode, CasesArray, EncodeJal, FirstWords;
    if s.ps1 {
      FpbMemory(AfterFirst(s), s.patches.fpb, SecondAddress(s), Base(s) + |FirstWords(s)|, FPB_WORD);
    }
  }

  /** Nothing changes but the words behind table B and the hooks of the patches that went in. */
  lemma {:induction false} OnlyHooksAndAreaChange(s: Setting, i: nat)
    requires SettingOk(s) && HooksApart(s) && i < |s.mem|
    requires !(Base(s) <= i < Base(s) + |FirstWords(s)| + |FpbWords(s)|)
    requires (FirstWords(s) != [] ==> i != HookWord(s)) && (s.ps1 ==> i != FPB_WORD)
    ensures AfterApply(s)[i] == s.mem[i]
  {
    hide AfterFirst, AfterApply, Index, IsWordIn, LookupOk, CasesOpcode, KnownOpcode, CasesArray, FirstWords;
    FirstMemory(s);
    SecondMemory(s);
  }

  /** The first patch lies at the start of the area word for word, but for its jumps; the second follows at once. */
  lemma {:induction false} PatchesInPlace(s: Setting)
    requires SettingOk(s) && HooksApart(s)
    ensures forall k | 0 <= k < |FirstWords(s)| && !IsJump(s, k) :: AfterApply(s)[Base(s) + k] == FirstWords(s)[k]
    ensures forall k | 0 <= k < |FpbWords(s)| :: AfterApply(s)[Base(s) + |FirstWords(s)| + k] == FpbWords(s)[k]
  {
    hide AfterFirst, AfterApply, Index, IsWordIn, LookupOk, CasesOpcode, KnownOpcode, CasesArray, FirstWords, IsJump;
    FirstMemory(s);
    SecondMemory(s);
  }

  /** The hooks lead into the patches: the table entry holds the first one's address, the BIOS code jumps to the second. */
  lemma {:induction false} HooksLeadToPatches(s: Setting)
    requires SettingOk(s) && HooksApart(s)
    ensures FirstWords(s) != [] ==> AfterApply(s)[HookWord(s)] == InstallAddress(s.bios)
    ensures s.ps1 ==>
      forall registers: Registers ::
        var e := ExecuteJump(AfterApply(s)[FPB_WORD], FPB_HOOK, registers);
        && e.Goes? && Get(e.registers, 31) == 0x5B48
        && (forall r: nat :: r != 31 ==> Get(e.registers, r) == Get(registers, r))
        && (e.pc == SecondAddress(s) <==> SecondAddress(s) < 0x1000_0000)
  {
    hide AfterFirst, AfterApply, Index, IsWordIn, LookupOk, CasesOpcode, KnownOpcode, CasesArray, FirstWords, ExecuteJump,
         EncodeJal;
    FirstMemory(s);
    SecondMemory(s);
    forall registers: Registers | s.ps1
      ensures var e := ExecuteJump(AfterApply(s)[FPB_WORD], FPB_HOOK, registers);
        && e.Goes? && Get(e.registers, 31) == 0x5B48
        && (forall r: nat :: r != 31 ==> Get(e.registers, r) == Get(registers, r))
        && (e.pc == SecondAddress(s) <==> SecondAddress(s) < 0x1000_0000)
    {
      CallArrives(FPB_HOOK, SecondAddress(s), registers);
    }
  }

  /** The address of word `k` of the first patch. */
  function AddressOf(s: Setting, k: nat): Word
    requires SettingOk(s) && k < |FirstWords(s)|
  {
    IndexPlus(InstallAddress(s.bios), k);
    InstallAddress(s.bios) + 4 * k
  }

  /** What executing word `k` of the first patch does, once everything is installed. */
  function WayOut(s: Setting, k: nat, registers: Registers): Effect
    requires SettingOk(s) && k < |FirstWords(s)|
  {
    ExecuteJump(AfterApply(s)[Base(s) + k], AddressOf(s, k), registers)
  }

  predicate Reachable(s: Setting, k: nat, target: Word)
    requires SettingOk(s) && k < |FirstWords(s)|
  {
    target % 4 == 0 && SameSegment(AddressOf(s, k), target)
  }

  /** RAM does not reach the end of a segment, so a jump and its delay slot lie in one. */
  lemma DelaySlotInSegment(pc: Word)
    requires Index(pc) < RAM_WORDS
    ensures SameSegment(DelaySlot(pc), pc)
  {
    var mirror, offset := pc / 0x2000_0000, pc % 0x2000_0000;
    assert pc == mirror * 0x2000_0000 + offset && offset + 4 < 0x1000_0000;
  }

  /** The place of word `k` of the first patch. */
  lemma AddressInRam(s: Setting, k: nat)
    requires SettingOk(s) && k < |FirstWords(s)|
    ensures Index(AddressOf(s, k)) == Base(s) + k < RAM_WORDS
  {
    hide FirstWords, LookupOk, IsWordIn;
    IndexPlus(InstallAddress(s.bios), k);
  }

  /**
   * A jump of the first patch survives the second, is a plain jump that leaves every register alone, and leads to
   * `target` exactly when a jump can reach it.
   */
  ghost predicate LeavesFor(s: Setting, k: nat, target: Word)
    requires SettingOk(s) && k < |FirstWords(s)|
  {
    forall registers: Registers ::
      var e := WayOut(s, k, registers);
      e.Goes? && e.registers == registers && (e.pc == target <==> Reachable(s, k, target))
  }

  lemma {:induction false} JumpLeadsTo(s: Setting, k: nat, target: Word)
    requires SettingOk(s) && HooksApart(s) && k < |FirstWords(s)|
    requires AfterFirst(s)[Base(s) + k] == EncodeJ(target)
    ensures LeavesFor(s, k, target)
  {
    hide AfterFirst, AfterApply, Index, IsWordIn, LookupOk, CasesOpcode, KnownOpcode, CasesArray, FirstWords, ExecuteJump,
         EncodeJ, AddressOf;
    SecondMemory(s);
    AddressInRam(s, k);
    DelaySlotInSegment(AddressOf(s, k));
    forall registers: Registers
      ensures var e := WayOut(s, k, registers);
        e.Goes? && e.registers == registers && (e.pc == target <==> Reachable(s, k, target))
    {
      JumpArrives(AddressOf(s, k), target, registers);
    }
  }

  /** The game's patch leaves to the function it replaced. */
  lemma {:induction false} VandalChainsOn(s: Setting)
    requires SettingOk(s) && HooksApart(s) && s.vandalGame
    ensures LeavesFor(s, s.patches.vandal.exit, s.mem[HookWord(s)])
  {
    hide AfterVandal, Index, IsWordIn, EncodeJ, LeavesFor;
    VandalMemory(s.mem, s.patches.vandal, InstallAddress(s.bios), Base(s), HookWord(s));
    JumpLeadsTo(s, s.patches.vandal.exit, s.mem[HookWord(s)]);
  }

  /** The antipiracy patch leaves to the two syscall cases it found. */
  lemma {:induction false} AntipiracyChainsOn(s: Setting)
    requires SettingOk(s) && HooksApart(s) && !s.vandalGame && FirstWords(s) != []
    ensures LeavesFor(s, s.patches.antipiracy.skip, s.mem[HookWord(s)])
    ensures LeavesFor(s, s.patches.antipiracy.success, s.mem[OtherWord(s)])
  {
    hide AfterAntipiracy, Index, IsWordIn, EncodeJ, LeavesFor, LookupOk, CasesOpcode, KnownOpcode, CasesArray;
    var p := s.patches.antipiracy;
    AntipiracyMemory(s.mem, p, InstallAddress(s.bios), Base(s), HookWord(s), OtherWord(s));
    JumpLeadsTo(s, p.skip, s.mem[HookWord(s)]);
    JumpLeadsTo(s, p.success, s.mem[OtherWord(s)]);
  }

  // ---------- The places in figures ----------

  /** Table B is extended from entry 0x5E on, a game is hooked at entry 0x16, and the BIOS code at word 0x16D0. */
  lemma {:induction false} PlacesInTables(s: Setting)
    requires SettingOk(s)
    ensures s.bios.b0Table + 376 == InstallAddress(s.bios) && s.bios.b0Table % 4 == 0
    ensures s.vandalGame && FirstWords(s) != [] ==> FirstHook(s) == s.bios.b0Table + 88
    ensures FPB_WORD == 5840 && FPB_HOOK == 4 * FPB_WORD && |s.mem| == 524288
    ensures FirstWords(s) == if s.vandalGame then s.patches.vandal.words
                             else if KnownOpcode(CasesOpcode(s.mem, s.bios)) then s.patches.antipiracy.words else []
  {
    hide LookupOk, CasesOpcode, KnownOpcode, CasesArray;
  }

  lemma SmallAddress(n: nat)
    requires n < RAM_WORDS
    ensures Index(4 * n) == n
  {}

  lemma UpperHalf(low: nat)
    requires low < 0x1_0000
    ensures (0x8C39_0000 + low) / 0x1_0000 == 0x8C39 && (0x8C39_0000 + low) % 0x1_0000 == low
  {}

  /**
   * The way to the syscall cases, word by word: from entry 1 of table C to the code that installs the handler, from
   * the lower half of its fifth word to the handler, from the handler's third word to its verifier, and from the
   * lower half of the verifier's twenty-first word, if that is a load through register 25, to the cases, of which
   * case 0 stands first and case 1 next to it.
   */
  lemma {:induction false} CasesLookup(s: Setting, c0: nat, code: nat, handler: nat, verifier: nat, cases: nat)
    requires SettingOk(s) && !s.vandalGame && |s.mem| == RAM_WORDS
    requires s.bios.c0Table == 4 * c0 && c0 + 1 < RAM_WORDS && s.mem[c0 + 1] == 4 * code
    requires code + 4 < RAM_WORDS && s.mem[code + 4] % 0x1_0000 == 4 * handler
    requires handler + 2 < RAM_WORDS && s.mem[handler + 2] == 4 * verifier
    requires verifier + 20 < RAM_WORDS && s.mem[verifier + 20] == 0x8C39_0000 + 4 * cases && 4 * cases < 0x1_0000
    ensures FirstWords(s) == s.patches.antipiracy.words
    ensures FirstWords(s) != [] ==> HookWord(s) == cases + 1 && OtherWord(s) == cases
  {
    SmallAddress(c0 + 1);
    SmallAddress(code + 4);
    SmallAddress(handler + 2);
    SmallAddress(verifier + 20);
    SmallAddress(cases);
    SmallAddress(cases + 1);
    hide Index;
    assert CasesOpcode(s.mem, s.bios) == 0x8C39_0000 + 4 * cases;
    UpperHalf(4 * cases);
  }

  /** Word `n` of RAM, in the segment from 0x80000000 on. */
  predicate IsKernelWord(address: nat, n: nat) {
    n < 524288 && address == 0x8000_0000 + 4 * n
  }

  lemma KernelWord(n: nat)
    requires n < RAM_WORDS
    ensures Index(0x8000_0000 + 4 * n) == n && (0x8000_0000 + 4 * n) % 4 == 0
  {
    assert (0x8000_0000 + 4 * n) % 0x2000_0000 == 4 * n;
  }

  /** The conditions asked for in words: with a game to be hooked, table B in RAM and room for the patches behind it. */
  lemma {:induction false} GameSettingOk(s: Setting, b0: nat)
    requires s.vandalGame && |s.mem| == 524288 && PatchesOk(s.patches)
    requires IsKernelWord(s.bios.b0Table, b0)
    requires b0 + 94 + |s.patches.vandal.words| + (if s.ps1 then |s.patches.fpb| else 0) <= 524288
    ensures SettingOk(s) && Base(s) == b0 + 94 && HookWord(s) == b0 + 22
  {
    if b0 + 94 < RAM_WORDS {
      KernelWord(b0 + 94);
    }
    KernelWord(b0 + 22);
    hide Index, LookupOk;
  }

  /** And with the generic patch: the pointers on the way to the syscall cases as well. */
  lemma {:induction false} GenericSettingOk(s: Setting, b0: nat, c0: nat, code: nat, handler: nat, verifier: nat, cases: nat)
    requires !s.vandalGame && |s.mem| == 524288 && PatchesOk(s.patches)
    requires IsKernelWord(s.bios.b0Table, b0) && s.bios.c0Table == 4 * c0
    requires b0 + 94 + |s.patches.antipiracy.words| + (if s.ps1 then |s.patches.fpb| else 0) <= 524288
    requires c0 + 1 < 524288 && s.mem[c0 + 1] == 4 * code
    requires code + 4 < 524288 && s.mem[code + 4] % 0x1_0000 == 4 * handler
    requires handler + 2 < 524288 && s.mem[handler + 2] == 4 * verifier
    requires verifier + 20 < 524288 && s.mem[verifier + 20] == 0x8C39_0000 + 4 * cases && 4 * cases < 0x1_0000
    ensures SettingOk(s) && Base(s) == b0 + 94 && FirstWords(s) == s.patches.antipiracy.words
    ensures FirstWords(s) != [] ==> HookWord(s) == cases + 1 && OtherWord(s) == cases
  {
    if b0 + 94 < RAM_WORDS {
      KernelWord(b0 + 94);
    }
    SmallAddress(c0 + 1);
    SmallAddress(code + 4);
    SmallAddress(handler + 2);
    SmallAddress(verifier + 20);
    SmallAddress(cases);
    SmallAddress(cases + 1);
    UpperHalf(4 * cases);
    hide Index;
    assert LookupOk(s.mem, s.bios);
    assert CasesOpcode(s.mem, s.bios) == 0x8C39_0000 + 4 * cases;
  }

  /** Any other opcode there, and nothing of the first patch goes in. */
  lemma UnknownOpcodeInstallsNothing(s: Setting)
    requires SettingOk(s) && !s.vandalGame && CasesOpcode(s.mem, s.bios) / 0x1_0000 != 0x8C39
    ensures FirstWords(s) == [] && AfterFirst(s) == s.mem && SecondAddress(s) == InstallAddress(s.bios)
  {}

  // ---------- The installers ----------

  class Kernel {
    const ram: array<Word>

    constructor ()
      ensures fresh(ram) && ram.Length == RAM_WORDS
    {
      ram := new Word[RAM_WORDS](_ => 0);
    }

    ghost predicate Valid()
      reads this
    {
      ram.Length == RAM_WORDS
    }

    /** `memcpy` of a blob of instructions. */
    method CopyBlob(at: Word, words: seq<Word>)
      requires Valid() && at % 4 == 0 && Index(at) + |words| <= RAM_WORDS
      modifies ram
      ensures ram[..] == Stored(old(ram[..]), Index(at), words)
    {
      for k := 0 to |words|
        invariant forall i :: 0 <= i < ram.Length ==>
          ram[i] == if Index(at) <= i < Index(at) + k then words[i - Index(at)] else old(ram[i])
      {
        ram[Index(at) + k] := words[k];
      }
    }

    /** `install_generic_antipiracy_patch`: nothing is installed when the verifier's opcode is not the known one. */
    method InstallGenericAntipiracyPatch(bios: Bios, p: Antipiracy, at: Word) returns (next: nat)
      requires Valid() && LookupOk(ram[..], bios)
      requires KnownOpcode(CasesOpcode(ram[..], bios)) ==>
                 && Room(ram[..], at, |p.words|) && p.skip < |p.words| && p.success < |p.words|
                 && Readable(ram[..], CasesArray(CasesOpcode(ram[..], bios)))
                 && Readable(ram[..], CasesArray(CasesOpcode(ram[..], bios)) + 4)
      modifies ram
      ensures var opcode := CasesOpcode(old(ram[..]), bios);
              if !KnownOpcode(opcode) then next == at && ram[..] == old(ram[..])
              else next == at + 4 * |p.words| && ram[..] == AfterAntipiracy(old(ram[..]), p, at, Index(at), Index(CasesArray(opcode) + 4), Index(CasesArray(opcode)))
    {
      var handler := ram[Index(ram[Index(bios.c0Table + 4)] + 16)] % 0x1_0000;
      var verifier := ram[Index(handler + 8)];
      var lwOp := ram[Index(verifier + 80)];
      if lwOp / 0x1_0000 != 0x8C39 {
        return at;
      }
      var cases: Word := lwOp % 0x1_0000;
      CopyBlob(at, p.words);
      ram[Index(at) + p.skip] := EncodeJ(ram[Index(cases + 4)]);
      ram[Index(at) + p.success] := EncodeJ(ram[Index(cases)]);
      ram[Index(cases + 4)] := at;
      return at + 4 * |p.words|;
    }

    /** `install_vandal_patch` */
    method InstallVandalPatch(bios: Bios, p: Vandal, at: Word) returns (next: nat)
      requires Valid() && Room(ram[..], at, |p.words|) && p.exit < |p.words| && Readable(ram[..], bios.b0Table + 0x16 * 4)
      modifies ram
      ensures next == at + 4 * |p.words| && ram[..] == AfterVandal(old(ram[..]), p, at, Index(at), Index(bios.b0Table + 0x16 * 4))
    {
      CopyBlob(at, p.words);
      ram[Index(at) + p.exit] := EncodeJ(ram[Index(bios.b0Table + 0x16 * 4)]);
      ram[Index(bios.b0Table + 0x16 * 4)] := at;
      return at + 4 * |p.words|;
    }

    /** `install_fpb_patch` */
    method InstallFpbPatch(words: seq<Word>, at: Word) returns (next: nat)
      requires Valid() && Room(ram[..], at, |words|)
      modifies ram
      ensures next == at + 4 * |words| && ram[..] == AfterFpb(old(ram[..]), words, at, Index(at), FPB_WORD)
    {
      CopyBlob(at, words);
      ram[Index(FPB_HOOK)] := EncodeJal(at);
      return at + 4 * |words|;
    }

    /** `patcher_apply`: the address where the next patch goes is threaded through the installers. */
    method PatcherApply(bios: Bios, patches: Patches, bootFile: string, ps1: bool)
      requires Valid() && SettingOk(Setting(ram[..], bios, patches, bootFile == "cdrom:\\SLUS_009.40;1", ps1))
      modifies ram
      ensures ram[..] == AfterApply(Setting(old(ram[..]), bios, patches, bootFile == "cdrom:\\SLUS_009.40;1", ps1))
    {
      hide AfterAntipiracy, AfterVandal, AfterFpb, LookupOk, CasesOpcode, KnownOpcode, CasesArray;
      ghost var s := Setting(ram[..], bios, patches, bootFile == "cdrom:\\SLUS_009.40;1", ps1);
      ghost var second := SecondAddress(s);
      var installAddr := bios.b0Table + 0x5E * 4;
      if bootFile == "cdrom:\\SLUS_009.40;1" {
        installAddr := InstallVandalPatch(bios, patches.vandal, installAddr);
      } else {
        installAddr := InstallGenericAntipiracyPatch(bios, patches.antipiracy, installAddr);
      }
      assert ram[..] == AfterFirst(s) && installAddr == second;
      if ps1 {
        installAddr := InstallFpbPatch(patches.fpb, installAddr);
      }
    }
  }
}
