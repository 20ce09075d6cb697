/** A small AArch64 machine: the instructions the relocator rewrites and the ones it emits,
    with the semantics of section C6.2 of the Arm Architecture Reference Manual (DDI 0487).
    Every other word is an arbitrary step that cannot see the program counter. */
module A64 {
  import opened Bits

  type Regs = r: seq<U64> | |r| == 31 witness seq(31, i => 0)

  datatype Flags = Flags(n: bool, z: bool, c: bool, v: bool)

  /** `rest` stands for everything the branch instructions do not touch: SP, memory, vectors. */
  datatype Cpu<+D> = Cpu(x: Regs, flags: Flags, rest: D, pc: U64)

  /** Instruction memory: the word at each address. */
  type Text = U64 -> Word

  /** The position-independent instructions, left open. */
  type Other<!D> = (Word, Regs, Flags, D) -> (Regs, Flags, D)

  const NOP: Word := 0xd503201f
  const BTI_C: Word := 0xd503245f
  const BTI_J: Word := 0xd503249f
  const BTI_JC: Word := 0xd50324df
  const PACIASP: Word := 0xd503233f
  const PACIBSP: Word := 0xd503237f

  // The fixed opcode bits of each instruction.
  predicate IsB(w: Word) { w / 0x400_0000 == 0x05 }
  predicate IsBl(w: Word) { w / 0x400_0000 == 0x25 }
  predicate IsBc(w: Word) { w / 0x100_0000 == 0x54 && (w / 16) % 2 == 0 }
  predicate IsCb(w: Word) { (w / 0x200_0000) % 64 == 0x1A }
  predicate IsTb(w: Word) { (w / 0x200_0000) % 64 == 0x1B }
  predicate IsAdr(w: Word) { w / 0x8000_0000 == 0 && (w / 0x100_0000) % 32 == 0x10 }
  predicate IsAdrp(w: Word) { w / 0x8000_0000 == 1 && (w / 0x100_0000) % 32 == 0x10 }
  predicate IsLdrLit64(w: Word) { w / 0x100_0000 == 0x58 }
  predicate IsBr(w: Word) { w / 0x400 == 0x3587C0 && w % 32 == 0 }
  predicate IsRet(w: Word) { w / 0x400 == 0x3597C0 && w % 32 == 0 }
  predicate IsHint(w: Word) { w == NOP || w == BTI_C || w == BTI_J || w == BTI_JC }

  /** ADD Xd, Xn, #imm12 with neither register being SP. */
  predicate IsAddImm(w: Word) { w / 0x40_0000 == 0x244 && Rt(w) != 31 && Rn(w) != 31 }

  function Rt(w: Word): nat { w % 32 }
  function Rn(w: Word): nat { (w / 32) % 32 }

  /** The signed value of an unsigned field below 2 * half. */
  function SInt(n: nat, half: nat): int { if n >= half then n - 2 * half else n }

  function Imm26(w: Word): int { 4 * SInt(w % 0x400_0000, 0x200_0000) }
  function Imm19(w: Word): int { 4 * SInt((w / 32) % 0x8_0000, 0x4_0000) }
  function Imm14(w: Word): int { 4 * SInt((w / 32) % 0x4000, 0x2000) }
  function ImmAdr(w: Word): int {
    SInt(4 * ((w / 32) % 0x8_0000) + (w / 0x2000_0000) % 4, 0x10_0000)
  }

  function Wrap(a: int): U64 { a % TWO64 }

  /** X[i], where register 31 reads as zero. */
  function Read(x: Regs, i: nat): U64 { if i < 31 then x[i] else 0 }
  function Write(x: Regs, i: nat, v: U64): Regs { if i < 31 then x[i := v] else x }

  /** ConditionHolds of the Arm pseudocode. */
  predicate ConditionHolds(cond: nat, f: Flags) {
    var base := match cond / 2
                case 0 => f.z
                case 1 => f.c
                case 2 => f.n
                case 3 => f.v
                case 4 => f.c && !f.z
                case 5 => f.n == f.v
                case 6 => f.n == f.v && !f.z
                case _ => true;
    if cond % 2 == 1 && cond != 15 then !base else base
  }

  /** CBZ and CBNZ: bit 31 selects the width, bit 24 the sense. */
  predicate CbTaken(w: Word, x: Regs) {
    var v := Read(x, Rt(w));
    var zero := if w / 0x8000_0000 == 1 then v == 0 else v % TWO32 == 0;
    if (w / 0x100_0000) % 2 == 0 then zero else !zero
  }

  /** TBZ and TBNZ: the bit number is b5:b40. */
  predicate TbTaken(w: Word, x: Regs) {
    var bitpos := 32 * (w / 0x8000_0000) + (w / 0x8_0000) % 32;
    var isSet := (Read(x, Rt(w)) / Pow2(bitpos)) % 2 == 1;
    if (w / 0x100_0000) % 2 == 0 then !isSet else isSet
  }

  /** A 64-bit little-endian load of two words of text. */
  function LoadText(text: Text, a: U64): U64 {
    text(Wrap(a + 4)) * TWO32 + text(a)
  }

  function Exec<D>(f: Other<D>, text: Text, w: Word, s: Cpu<D>): Cpu<D> {
    var next := Wrap(s.pc + 4);
    if IsB(w) then s.(pc := Wrap(s.pc + Imm26(w)))
    else if IsBl(w) then s.(x := s.x[30 := next], pc := Wrap(s.pc + Imm26(w)))
    else if IsBc(w) then s.(pc := if ConditionHolds(w % 16, s.flags) then Wrap(s.pc + Imm19(w)) else next)
    else if IsCb(w) then s.(pc := if CbTaken(w, s.x) then Wrap(s.pc + Imm19(w)) else next)
    else if IsTb(w) then s.(pc := if TbTaken(w, s.x) then Wrap(s.pc + Imm14(w)) else next)
    else if IsAdr(w) then s.(x := Write(s.x, Rt(w), Wrap(s.pc + ImmAdr(w))), pc := next)
    else if IsAdrp(w) then
      s.(x := Write(s.x, Rt(w), Wrap(s.pc - s.pc % 4096 + ImmAdr(w) * 4096)), pc := next)
    else if IsLdrLit64(w) then
      s.(x := Write(s.x, Rt(w), LoadText(text, Wrap(s.pc + Imm19(w)))), pc := next)
    else if IsBr(w) || IsRet(w) then s.(pc := Read(s.x, Rn(w)))
    else if IsAddImm(w) then
      s.(x := Write(s.x, Rt(w), Wrap(Read(s.x, Rn(w)) + (w / 0x400) % 0x1000)), pc := next)
    else if IsHint(w) then s.(pc := next)
    else var (x, flags, rest) := f(w, s.x, s.flags, s.rest); Cpu(x, flags, rest, next)
  }

  // The opcode spaces do not overlap, so each instruction executes as itself.

  /** Every opcode field lies in, or agrees with, the top byte. */
  lemma TopByte(w: Word)
    ensures var top := w / 0x100_0000;
            && w / 0x400_0000 == top / 4 && w / 0x200_0000 % 64 == top / 2 % 64 && w / 0x8000_0000 == top / 128
            && w / 0x40_0000 / 4 == top && w / 0x400 / 0x4000 == top
  {
  }

  lemma ExecB<D>(f: Other<D>, text: Text, w: Word, s: Cpu<D>)
    requires IsB(w)
    ensures Exec(f, text, w, s) == s.(pc := Wrap(s.pc + Imm26(w)))
  {
    hide Imm26;
  }

  lemma ExecBl<D>(f: Other<D>, text: Text, w: Word, s: Cpu<D>)
    requires IsBl(w)
    ensures Exec(f, text, w, s) == s.(x := s.x[30 := Wrap(s.pc + 4)], pc := Wrap(s.pc + Imm26(w)))
  {
    hide Imm26;
  }

  lemma ExecAdrp<D>(f: Other<D>, text: Text, w: Word, s: Cpu<D>)
    requires IsAdrp(w)
    ensures Exec(f, text, w, s)
         == s.(x := Write(s.x, Rt(w), Wrap(s.pc - s.pc % 4096 + ImmAdr(w) * 4096)), pc := Wrap(s.pc + 4))
  {
    hide Read, Imm26, Imm19, Imm14, ImmAdr, ConditionHolds, CbTaken, TbTaken, Write, LoadText;
    TopByte(w);
  }

  lemma ExecBc<D>(f: Other<D>, text: Text, w: Word, s: Cpu<D>)
    requires IsBc(w)
    ensures Exec(f, text, w, s)
         == s.(pc := if ConditionHolds(w % 16, s.flags) then Wrap(s.pc + Imm19(w)) else Wrap(s.pc + 4))
  {
    hide Imm19, ConditionHolds;
  }

  lemma ExecCb<D>(f: Other<D>, text: Text, w: Word, s: Cpu<D>)
    requires IsCb(w)
    ensures Exec(f, text, w, s) == s.(pc := if CbTaken(w, s.x) then Wrap(s.pc + Imm19(w)) else Wrap(s.pc + 4))
  {
    hide Imm19, CbTaken;
  }

  lemma ExecTb<D>(f: Other<D>, text: Text, w: Word, s: Cpu<D>)
    requires IsTb(w)
    ensures Exec(f, text, w, s) == s.(pc := if TbTaken(w, s.x) then Wrap(s.pc + Imm14(w)) else Wrap(s.pc + 4))
  {
    hide Imm14, TbTaken;
  }

  lemma ExecAdr<D>(f: Other<D>, text: Text, w: Word, s: Cpu<D>)
    requires IsAdr(w)
    ensures Exec(f, text, w, s) == s.(x := Write(s.x, Rt(w), Wrap(s.pc + ImmAdr(w))), pc := Wrap(s.pc + 4))
  {
    hide Read, Imm26, Imm19, Imm14, ImmAdr, ConditionHolds, CbTaken, TbTaken, Write, LoadText;
    TopByte(w);
  }

  lemma ExecLdrLit64<D>(f: Other<D>, text: Text, w: Word, s: Cpu<D>)
    requires IsLdrLit64(w)
    ensures Exec(f, text, w, s)
         == s.(x := Write(s.x, Rt(w), LoadText(text, Wrap(s.pc + Imm19(w)))), pc := Wrap(s.pc + 4))
  {
    hide Imm19, LoadText;
  }

  lemma ExecJumpReg<D>(f: Other<D>, text: Text, w: Word, s: Cpu<D>)
    requires IsBr(w) || IsRet(w)
    ensures Exec(f, text, w, s) == s.(pc := Read(s.x, Rn(w)))
  {
    hide Read, Imm26, Imm19, Imm14, ImmAdr, ConditionHolds, CbTaken, TbTaken, Write, LoadText;
    TopByte(w);
    var top := w / 0x100_0000;
    assert top == 0xD6;
  }

  lemma ExecAddImm<D>(f: Other<D>, text: Text, w: Word, s: Cpu<D>)
    requires IsAddImm(w)
    ensures Exec(f, text, w, s)
         == s.(x := Write(s.x, Rt(w), Wrap(Read(s.x, Rn(w)) + w / 0x400 % 0x1000)), pc := Wrap(s.pc + 4))
  {
    hide Read, Imm26, Imm19, Imm14, ImmAdr, ConditionHolds, CbTaken, TbTaken, Write, LoadText;
    TopByte(w);
    var top := w / 0x100_0000;
    assert top == 0x91;
  }

  lemma ExecHint<D>(f: Other<D>, text: Text, w: Word, s: Cpu<D>)
    requires IsHint(w)
    ensures Exec(f, text, w, s) == s.(pc := Wrap(s.pc + 4))
  {
  }

  /** The transition function of a machine over a given instruction memory. */
  type Machine<!D> = Cpu<D> -> Cpu<D>

  function MachineOf<D>(f: Other<D>, text: Text): Machine<D> {
    (s: Cpu<D>) => Exec(f, text, text(s.pc), s)
  }

  function Run<D>(step: Machine<D>, s: Cpu<D>, n: nat): Cpu<D>
    decreases n
  {
    if n == 0 then s else Run(step, step(s), n - 1)
  }

  lemma {:induction false} RunSplit<D>(step: Machine<D>, s: Cpu<D>, m: nat, n: nat)
    ensures Run(step, s, m + n) == Run(step, Run(step, s, m), n)
    decreases m
  {
    if m > 0 {
      RunSplit(step, step(s), m - 1, n);
    }
  }
}
