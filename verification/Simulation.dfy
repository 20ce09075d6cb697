/** Meaning preservation of the relocator: running the relocated words matches running the
    original ones until control leaves the overwritten window. */
module Simulation {
  import opened Bits
  import opened A64
  import opened Relocator

  /** `code` lies in instruction memory from address `a`. */
  ghost predicate PlacedAt(text: Text, a: nat, code: seq<Word>) {
    a + 4 * |code| <= TWO64 && forall j :: 0 <= j < |code| ==> text(a + 4 * j) == code[j]
  }

  lemma FirstWords(text: Text, a: nat, code: seq<Word>)
    requires PlacedAt(text, a, code)
    ensures |code| > 0 ==> text(a) == code[0]
    ensures |code| > 1 ==> text(a + 4) == code[1]
    ensures |code| > 2 ==> text(a + 8) == code[2]
    ensures |code| > 3 ==> text(a + 12) == code[3]
    ensures |code| > 4 ==> text(a + 16) == code[4]
    ensures |code| > 5 ==> text(a + 20) == code[5]
    ensures |code| > 6 ==> text(a + 24) == code[6]
    ensures |code| > 7 ==> text(a + 28) == code[7]
  {
  }

  ghost predicate AgreeBut<D>(s: Cpu<D>, t: Cpu<D>, skip: set<nat>) {
    s.flags == t.flags && s.rest == t.rest && forall i: nat :: i < 31 && i !in skip ==> s.x[i] == t.x[i]
  }

  // ---------- the emitted words, decoded ----------

  /** B #12, B #20 and B #24 */
  lemma ExecSkip<D>(f: Other<D>, text: Text, s: Cpu<D>, words: nat)
    requires words < 16
    ensures Exec(f, text, 0x14000000 + words, s) == s.(pc := Wrap(s.pc + 4 * words))
  {
    hide Exec;
    ExecB(f, text, 0x14000000 + words, s);
  }

  /** RET X17 and BR X17 */
  lemma ExecJump17<D>(f: Other<D>, text: Text, w: Word, s: Cpu<D>)
    requires w == 0xD65F0220 || w == 0xD61F0220
    ensures Exec(f, text, w, s) == s.(pc := s.x[17])
  {
    hide Exec;
    ExecJumpReg(f, text, w, s);
  }

  /** ADR X30, . */
  lemma ExecLinkHere<D>(f: Other<D>, text: Text, s: Cpu<D>)
    ensures Exec(f, text, 0x1000001E, s) == s.(x := s.x[30 := s.pc], pc := Wrap(s.pc + 4))
  {
    hide Exec;
    ExecAdr(f, text, 0x1000001E, s);
  }

  /** ADD X30, X30, #12 */
  lemma ExecLinkOn<D>(f: Other<D>, text: Text, s: Cpu<D>)
    ensures Exec(f, text, 0x910033DE, s) == s.(x := s.x[30 := Wrap(s.x[30] as int + 12)], pc := Wrap(s.pc + 4))
  {
    hide Exec, Wrap;
    LinkOnFields();
    hide IsAddImm, Rt, Rn;
    ExecAddImm(f, text, 0x910033DE, s);
  }

  lemma LinkOnFields()
    ensures var w := 0x910033DE; IsAddImm(w) && Rt(w) == 30 && Rn(w) == 30 && w / 0x400 % 0x1000 == 12
  {
  }

  /** LDR Xd, #8 */
  lemma ExecLoad<D>(f: Other<D>, text: Text, s: Cpu<D>, d: Word)
    requires d < 32
    ensures Exec(f, text, Or32(0x58000040, d), s)
         == s.(x := Write(s.x, d, LoadText(text, Wrap(s.pc + 8))), pc := Wrap(s.pc + 4))
  {
    LoadWord(d);
    hide Exec, Or32, Write, LoadText, Wrap;
    ExecLdrLit64(f, text, Or32(0x58000040, d), s);
  }

  lemma LoadWord(d: Word)
    requires d < 32
    ensures var w := Or32(0x58000040, d); IsLdrLit64(w) && Rt(w) == d && Imm19(w) == 8
  {
    Powers();
    hide Or, Pow2;
    OrDisjoint(0x58000040 / 32, 5, d);
  }

  /** The conditional word with its offset replaced by 8. */
  lemma ShortForm(w: Word)
    ensures var v := Or32(And32(w, 0xFF00001F), 0x40);
            v / 0x100_0000 == w / 0x100_0000 && v % 32 == w % 32 && v / 32 % 0x8_0000 == 2
  {
    hide And, Or, Pow2;
    MaskFields(w);
    Powers();
    OrSplit(24, w / 0x100_0000, w % 32, 0, 64);
    OrZero(w / 0x100_0000);
    OrDisjoint(1, 6, w % 32);
    ShortParts(w / 0x100_0000, w % 32);
  }

  lemma ShortParts(top: nat, low: nat)
    requires low < 32
    ensures var v := top * 0x100_0000 + (64 + low); v / 0x100_0000 == top && v % 32 == low && v / 32 % 0x8_0000 == 2
  {
  }

  lemma ShortTest(w: Word)
    ensures var v := Or32(And32(w, 0xFFF8001F), 0x40);
            v / 0x8_0000 == w / 0x8_0000 && v % 32 == w % 32 && v / 32 % 0x4000 == 2
  {
    MaskFields(w);
    Powers();
    hide And, Or, Pow2;
    OrSplit(19, w / 0x8_0000, w % 32, 0, 64);
    OrZero(w / 0x8_0000);
    OrDisjoint(1, 6, w % 32);
  }

  lemma ExecShortBc<D>(f: Other<D>, text: Text, s: Cpu<D>, w: Word)
    requires IsBc(w)
    ensures Exec(f, text, Or32(And32(w, 0xFF00001F), 0x40), s)
         == s.(pc := Wrap(s.pc + (if ConditionHolds(w % 16, s.flags) then 8 else 4)))
  {
    var v := Or32(And32(w, 0xFF00001F), 0x40);
    ShortForm(w);
    hide Exec, And, Or, And32, Or32, ConditionHolds, Wrap;
    SameCondition(w, v);
    ExecBc(f, text, v, s);
  }

  lemma SameCondition(w: Word, v: Word)
    requires IsBc(w) && v / 0x100_0000 == w / 0x100_0000 && v % 32 == w % 32 && v / 32 % 0x8_0000 == 2
    ensures IsBc(v) && v % 16 == w % 16 && Imm19(v) == 8
  {
    hide SInt;
    LowHalf(v);
    LowHalf(w);
    EightAhead();
  }

  lemma LowHalf(v: nat)
    ensures v % 16 == v % 32 % 16
  {
    var q, r := v / 32, v % 32;
    DivModUnique(v, 16, 2 * q + r / 16, r % 16);
  }

  lemma EightAhead()
    ensures 4 * SInt(2, 0x4_0000) == 8
  {
  }

  lemma ExecShortCb<D>(f: Other<D>, text: Text, s: Cpu<D>, w: Word)
    requires IsCb(w)
    ensures Exec(f, text, Or32(And32(w, 0xFF00001F), 0x40), s)
         == s.(pc := Wrap(s.pc + (if CbTaken(w, s.x) then 8 else 4)))
  {
    hide Exec, And, Or;
    ShortForm(w);
    ExecCb(f, text, Or32(And32(w, 0xFF00001F), 0x40), s);
  }

  lemma SameTest(w: Word, v: Word, x: Regs)
    requires IsTb(w) && v / 0x8_0000 == w / 0x8_0000 && v % 32 == w % 32 && v / 32 % 0x4000 == 2
    ensures IsTb(v) && TbTaken(v, x) == TbTaken(w, x) && Imm14(v) == 8
  {
    hide Pow2, Read;
    var hv, hw := v / 0x8_0000, w / 0x8_0000;
    assert v / 0x100_0000 == hv / 0x20 && v / 0x200_0000 == hv / 0x40 && v / 0x8000_0000 == hv / 0x1000;
    assert w / 0x100_0000 == hw / 0x20 && w / 0x200_0000 == hw / 0x40 && w / 0x8000_0000 == hw / 0x1000;
  }

  lemma ExecShortTb<D>(f: Other<D>, text: Text, s: Cpu<D>, w: Word)
    requires IsTb(w)
    ensures Exec(f, text, Or32(And32(w, 0xFFF8001F), 0x40), s)
         == s.(pc := Wrap(s.pc + (if TbTaken(w, s.x) then 8 else 4)))
  {
    hide Exec, And, Or, Pow2, And32, Or32;
    ShortTest(w);
    SameTest(w, Or32(And32(w, 0xFFF8001F), 0x40), s.x);
    ExecTb(f, text, Or32(And32(w, 0xFFF8001F), 0x40), s);
  }

  // ---------- the emitted sequences ----------

  lemma OneStep<D>(f: Other<D>, text: Text, s: Cpu<D>)
    ensures MachineOf(f, text)(s) == Exec(f, text, text(s.pc), s)
    ensures Run(MachineOf(f, text), s, 1) == Exec(f, text, text(s.pc), s)
  {
    hide Exec;
  }

  lemma LoadLiteral(text: Text, a: U64, to: U64)
    requires a + 4 < TWO64 && text(a) == LowWord(to) && text(a + 4) == HighWord(to)
    ensures LoadText(text, a) == to
  {
    WrapSmall(a + 4);
  }

  lemma WrapSmall(a: nat)
    requires a < TWO64
    ensures Wrap(a) == a
  {
  }

  /** A literal load over its own data: LDR Xd, #8; B #12; lo; hi. */
  lemma LoadOver<D>(f: Other<D>, text: Text, t: Cpu<D>, d: Word, to: U64)
    requires d < 32 && t.pc + 16 < TWO64
    requires text(t.pc) == Or32(0x58000040, d) && text(t.pc + 4) == 0x14000003
    requires text(t.pc + 8) == LowWord(to) && text(t.pc + 12) == HighWord(to)
    ensures Run(MachineOf(f, text), t, 2) == t.(x := Write(t.x, d, to), pc := t.pc + 16)
  {
    hide Exec, Or32, LowWord, HighWord, LoadText, Wrap, Run, MachineOf, Write;
    LoadLiteral(text, t.pc + 8, to);
    WrapSmall(t.pc + 4);
    WrapSmall(t.pc + 8);
    WrapSmall(t.pc + 16);
    ExecLoad(f, text, t, d);
    var u := t.(x := Write(t.x, d, to), pc := t.pc + 4);
    assert Exec(f, text, text(t.pc), t) == u;
    ExecSkip(f, text, u, 3);
    assert Exec(f, text, text(u.pc), u) == u.(pc := t.pc + 16);
    OneStep(f, text, t);
    OneStep(f, text, u);
    RunSplit(MachineOf(f, text), t, 1, 1);
  }

  /** LDR X17, #8; RET or BR X17; lo; hi. */
  lemma FarJump<D>(f: Other<D>, text: Text, t: Cpu<D>, to: U64)
    requires t.pc + 16 <= TWO64
    requires text(t.pc) == 0x58000051 && (text(t.pc + 4) == 0xD65F0220 || text(t.pc + 4) == 0xD61F0220)
    requires text(t.pc + 8) == LowWord(to) && text(t.pc + 12) == HighWord(to)
    ensures Run(MachineOf(f, text), t, 2) == t.(x := t.x[17 := to], pc := to)
  {
    hide Exec, Or32, LowWord, HighWord, LoadText, Wrap;
    LoadIs17();
    LoadLiteral(text, t.pc + 8, to);
    WrapSmall(t.pc + 4);
    WrapSmall(t.pc + 8);
    ExecLoad(f, text, t, 17);
    var u := Exec(f, text, text(t.pc), t);
    ExecJump17(f, text, text(u.pc), u);
    OneStep(f, text, t);
    OneStep(f, text, u);
    RunSplit(MachineOf(f, text), t, 1, 1);
  }

  lemma LoadIs17()
    ensures Or32(0x58000040, 17) == 0x58000051
  {
    Powers();
    OrDisjoint(0x58000040 / 32, 5, 17);
  }

  // ---------- one slot ----------

  lemma Then<D>(f: Other<D>, text: Text, t: Cpu<D>, m: nat, u: Cpu<D>, n: nat, v: Cpu<D>)
    requires Run(MachineOf(f, text), t, m) == u && Run(MachineOf(f, text), u, n) == v
    ensures Run(MachineOf(f, text), t, m + n) == v
  {
    hide Exec;
    RunSplit(MachineOf(f, text), t, m, n);
  }

  lemma RunB<D>(f: Other<D>, text: Text, t: Cpu<D>, w: Word, to: U64)
    requires PlacedAt(text, t.pc, CodeB(w, INST_B, to)) && t.pc + 24 < TWO64
    ensures Run(MachineOf(f, text), t, 3) == t.(x := t.x[17 := to], pc := to)
  {
    hide Exec, Run, And32, Or32, LowWord, HighWord;
    FirstWords(text, t.pc, CodeB(w, INST_B, to));
    LoadIs17();
    assert CodeB(w, INST_B, to) == [0x58000051, 0x14000003, LowWord(to), HighWord(to), 0xD65F0220, NOP];
    LoadOver(f, text, t, 17, to);
    var u := t.(x := t.x[17 := to], pc := t.pc + 16);
    OneStep(f, text, u);
    ExecJump17(f, text, text(u.pc), u);
    Then(f, text, t, 2, u, 1, u.(pc := to));
  }

  lemma RunBl<D>(f: Other<D>, text: Text, t: Cpu<D>, w: Word, to: U64)
    requires PlacedAt(text, t.pc, CodeB(w, INST_BL, to)) && t.pc + 32 < TWO64
    ensures Run(MachineOf(f, text), t, 5) == t.(x := t.x[17 := to][30 := t.pc + 28], pc := to)
  {
    hide Exec, Run, And32, Or32, LowWord, HighWord;
    FirstWords(text, t.pc, CodeB(w, INST_BL, to));
    LoadIs17();
    assert CodeB(w, INST_BL, to)
        == [0x58000051, 0x14000003, LowWord(to), HighWord(to), 0x1000001E, 0x910033DE, 0xD65F0220, NOP];
    LoadOver(f, text, t, 17, to);
    var u := t.(x := t.x[17 := to], pc := t.pc + 16);
    CallLinked(f, text, u, to);
    Then(f, text, t, 2, u, 3, u.(x := u.x[30 := u.pc + 12], pc := to));
  }

  /** ADR X30, . and ADD X30, X30, #12 and RET X17 */
  lemma CallLinked<D>(f: Other<D>, text: Text, u: Cpu<D>, to: U64)
    requires u.pc + 16 < TWO64 && u.x[17] == to
    requires text(u.pc) == 0x1000001E && text(u.pc + 4) == 0x910033DE && text(u.pc + 8) == 0xD65F0220
    ensures Run(MachineOf(f, text), u, 3) == u.(x := u.x[30 := u.pc + 12], pc := to)
  {
    hide Exec, Run, MachineOf, Wrap;
    WrapSmall(u.pc + 4);
    WrapSmall(u.pc + 8);
    WrapSmall(u.pc + 12);
    var v := u.(x := u.x[30 := u.pc], pc := u.pc + 4);
    var y := v.(x := v.x[30 := u.pc + 12], pc := u.pc + 8);
    OneStep(f, text, u);
    ExecLinkHere(f, text, u);
    OneStep(f, text, v);
    ExecLinkOn(f, text, v);
    OneStep(f, text, y);
    ExecJump17(f, text, text(y.pc), y);
    Then(f, text, u, 1, v, 1, y);
    Then(f, text, u, 2, y, 1, y.(pc := to));
    assert v.x[30 := u.pc + 12] == u.x[30 := u.pc + 12];
  }

  lemma RunBc<D>(f: Other<D>, text: Text, t: Cpu<D>, w: Word, to: U64) returns (n: nat)
    requires IsBc(w) && PlacedAt(text, t.pc, CodeB(w, INST_BC, to)) && t.pc + 32 < TWO64
    ensures n > 0
    ensures Run(MachineOf(f, text), t, n)
         == if ConditionHolds(w % 16, t.flags) then t.(x := t.x[17 := to], pc := to) else t.(pc := t.pc + 32)
  {
    hide Exec, Run, And32, Or32, LowWord, HighWord, ConditionHolds;
    FirstWords(text, t.pc, CodeB(w, INST_BC, to));
    LoadIs17();
    assert CodeB(w, INST_BC, to)
        == [Or32(And32(w, 0xFF00001F), 0x40), 0x14000006, 0x58000051, 0x14000003, LowWord(to), HighWord(to), 0xD65F0220, NOP];
    OneStep(f, text, t);
    ExecShortBc(f, text, t, w);
    if ConditionHolds(w % 16, t.flags) {
      var s := t.(pc := t.pc + 8);
      LoadOver(f, text, s, 17, to);
      var u := s.(x := s.x[17 := to], pc := s.pc + 16);
      OneStep(f, text, u);
      ExecJump17(f, text, text(u.pc), u);
      Then(f, text, t, 1, s, 2, u);
      Then(f, text, t, 3, u, 1, u.(pc := to));
      n := 4;
    } else {
      var s := t.(pc := t.pc + 4);
      var u := t.(pc := t.pc + 28);
      OneStep(f, text, s);
      ExecSkip(f, text, s, 6);
      OneStep(f, text, u);
      ExecHint(f, text, NOP, u);
      Then(f, text, t, 1, s, 1, u);
      Then(f, text, t, 2, u, 1, t.(pc := t.pc + 32));
      n := 3;
    }
  }

  lemma RunAdr<D>(f: Other<D>, text: Text, t: Cpu<D>, w: Word, to: U64)
    requires PlacedAt(text, t.pc, CodeAdr(w, to)) && t.pc + 16 < TWO64
    ensures Run(MachineOf(f, text), t, 2) == t.(x := Write(t.x, Rt(w), to), pc := t.pc + 16)
  {
    hide Exec, Run, Or32, LowWord, HighWord;
    FirstWords(text, t.pc, CodeAdr(w, to));
    LoadOver(f, text, t, Register(w), to);
  }

  /** The common shape of the compare-and-branch and test-and-branch slots. */
  lemma RunTest<D>(f: Other<D>, text: Text, t: Cpu<D>, taken: bool, to: U64) returns (n: nat)
    requires t.pc + 24 < TWO64 && text(t.pc + 4) == 0x14000005 && text(t.pc + 8) == 0x58000051
    requires text(t.pc + 12) == 0xD65F0220 || text(t.pc + 12) == 0xD61F0220
    requires text(t.pc + 16) == LowWord(to) && text(t.pc + 20) == HighWord(to)
    requires Exec(f, text, text(t.pc), t) == t.(pc := t.pc + (if taken then 8 else 4))
    ensures n > 0
    ensures Run(MachineOf(f, text), t, n)
         == if taken then t.(x := t.x[17 := to], pc := to) else t.(pc := t.pc + 24)
  {
    hide Exec, Run, LowWord, HighWord;
    OneStep(f, text, t);
    if taken {
      var s := t.(pc := t.pc + 8);
      FarJump(f, text, s, to);
      Then(f, text, t, 1, s, 2, s.(x := s.x[17 := to], pc := to));
      n := 3;
    } else {
      var s := t.(pc := t.pc + 4);
      OneStep(f, text, s);
      ExecSkip(f, text, s, 5);
      Then(f, text, t, 1, s, 1, t.(pc := t.pc + 24));
      n := 2;
    }
  }

  lemma RunCb<D>(f: Other<D>, text: Text, t: Cpu<D>, w: Word, to: U64) returns (n: nat)
    requires IsCb(w) && PlacedAt(text, t.pc, CodeCb(w, to)) && t.pc + 24 < TWO64
    ensures n > 0
    ensures Run(MachineOf(f, text), t, n)
         == if CbTaken(w, t.x) then t.(x := t.x[17 := to], pc := to) else t.(pc := t.pc + 24)
  {
    hide Exec, Run, And32, Or32, LowWord, HighWord, CbTaken;
    FirstWords(text, t.pc, CodeCb(w, to));
    ExecShortCb(f, text, t, w);
    n := RunTest(f, text, t, CbTaken(w, t.x), to);
  }

  lemma RunTb<D>(f: Other<D>, text: Text, t: Cpu<D>, w: Word, to: U64) returns (n: nat)
    requires IsTb(w) && PlacedAt(text, t.pc, CodeTb(w, to)) && t.pc + 24 < TWO64
    ensures n > 0
    ensures Run(MachineOf(f, text), t, n)
         == if TbTaken(w, t.x) then t.(x := t.x[17 := to], pc := to) else t.(pc := t.pc + 24)
  {
    hide Exec, Run, And32, Or32, LowWord, HighWord, TbTaken;
    FirstWords(text, t.pc, CodeTb(w, to));
    ExecShortTb(f, text, t, w);
    n := RunTest(f, text, t, TbTaken(w, t.x), to);
  }

  /** A copied word, followed by its NOP. */
  lemma RunCopied<D>(f: Other<D>, text: Text, t: Cpu<D>, w: Word)
    requires PlacedAt(text, t.pc, [w, NOP]) && t.pc + 8 < TWO64
    requires Exec(f, text, w, t).pc == t.pc + 4
    ensures Run(MachineOf(f, text), t, 2) == Exec(f, text, w, t).(pc := t.pc + 8)
  {
    hide Exec, Run;
    FirstWords(text, t.pc, [w, NOP]);
    OneStep(f, text, t);
    var u := Exec(f, text, w, t);
    OneStep(f, text, u);
    ExecHint(f, text, NOP, u);
    Then(f, text, t, 1, u, 1, u.(pc := t.pc + 8));
  }

  // ---------- which words may be moved ----------

  /** Executing `w` neither depends on the skipped registers nor lets them leak; the link register
      comes out equal or untouched. */
  ghost predicate Blind<D(!new)>(f: Other<D>, text: Text, w: Word, skip: set<nat>) {
    forall s: Cpu<D>, t: Cpu<D> :: s.pc == t.pc && AgreeBut(s, t, skip) ==>
      var a, b := Exec(f, text, w, s), Exec(f, text, w, t);
      a.pc == b.pc && AgreeBut(a, b, skip) && (a.x[30] == b.x[30] || (a.x[30] == s.x[30] && b.x[30] == t.x[30]))
  }

  /** A word of the branch, exception and system space that no class of the relocator covers and that is no system
      instruction: register branches such as BR, BLR, RET and ERET, exception calls, and newer branches. */
  predicate OtherBranch(w: Word) {
    w / 0x400_0000 % 8 == 5 && TypeOf(w) == INST_IGNORE && w / 0x100_0000 != 0xD5
  }

  /** The words the theorem covers: data loads relative to the PC and branches without a class are excluded. */
  predicate Movable(w: Word) {
    !IsLdrType(TypeOf(w)) && !OtherBranch(w)
  }

  /** So copied words are no register branches; BLR, ERET, exception calls and BC.cond are not moved either. */
  lemma NoRegisterBranch(w: Word)
    requires Movable(w) && TypeOf(w) == INST_IGNORE
    ensures !IsBr(w) && !IsRet(w)
    ensures w / 0x200_0000 != 0x6B && w / 0x100_0000 != 0xD4 && w / 0x100_0000 != 0x54
  {
    TopByte(w);
    hide TypeOf;
    var top := w / 0x100_0000;
    assert w / 0x400_0000 == top / 4;
  }

  lemma TypeOpcode(w: Word)
    ensures TypeOf(w) == INST_B ==> IsB(w)
    ensures TypeOf(w) == INST_BL ==> IsBl(w)
    ensures TypeOf(w) == INST_BC ==> IsBc(w)
    ensures TypeOf(w) == INST_ADR ==> IsAdr(w)
    ensures TypeOf(w) == INST_ADRP ==> IsAdrp(w)
    ensures TypeOf(w) == INST_CBZ || TypeOf(w) == INST_CBNZ ==> IsCb(w)
    ensures TypeOf(w) == INST_TBZ || TypeOf(w) == INST_TBNZ ==> IsTb(w)
    ensures TypeOf(w) == INST_IGNORE ==>
      !IsB(w) && !IsBl(w) && !IsBc(w) && !IsAdr(w) && !IsAdrp(w) && !IsCb(w) && !IsTb(w) && !IsLdrLit64(w)
  {
    TopByte(w);
  }

  /** A PC-relative branch or address computation never looks at the skipped registers, unless it tests one. */
  lemma BranchesAreBlind<D(!new)>(f: Other<D>, text: Text, w: Word, skip: set<nat>)
    requires Movable(w) && TypeOf(w) != INST_IGNORE
    requires IsCb(w) || IsTb(w) ==> Rt(w) !in skip
    ensures Blind(f, text, w, skip)
  {
    TypeOpcode(w);
    forall s: Cpu<D>, t: Cpu<D> | s.pc == t.pc && AgreeBut(s, t, skip)
      ensures var a, b := Exec(f, text, w, s), Exec(f, text, w, t);
              a.pc == b.pc && AgreeBut(a, b, skip) && (a.x[30] == b.x[30] || (a.x[30] == s.x[30] && b.x[30] == t.x[30]))
    {
      BranchIsBlind(f, text, w, skip, s, t);
    }
  }

  lemma BranchIsBlind<D(!new)>(f: Other<D>, text: Text, w: Word, skip: set<nat>, s: Cpu<D>, t: Cpu<D>)
    requires s.pc == t.pc && AgreeBut(s, t, skip)
    requires IsB(w) || IsBl(w) || IsBc(w) || IsAdr(w) || IsAdrp(w) || ((IsCb(w) || IsTb(w)) && Rt(w) !in skip)
    ensures var a, b := Exec(f, text, w, s), Exec(f, text, w, t);
            a.pc == b.pc && AgreeBut(a, b, skip) && (a.x[30] == b.x[30] || (a.x[30] == s.x[30] && b.x[30] == t.x[30]))
  {
    hide Exec, Imm26, Imm19, Imm14, ImmAdr, ConditionHolds, Pow2;
    if IsB(w) {
      ExecB(f, text, w, s);
      ExecB(f, text, w, t);
    } else if IsBl(w) {
      ExecBl(f, text, w, s);
      ExecBl(f, text, w, t);
    } else if IsBc(w) {
      ExecBc(f, text, w, s);
      ExecBc(f, text, w, t);
    } else if IsAdr(w) {
      ExecAdr(f, text, w, s);
      ExecAdr(f, text, w, t);
    } else if IsAdrp(w) {
      ExecAdrp(f, text, w, s);
      ExecAdrp(f, text, w, t);
    } else if IsCb(w) {
      ExecCb(f, text, w, s);
      ExecCb(f, text, w, t);
    } else {
      ExecTb(f, text, w, s);
      ExecTb(f, text, w, t);
    }
  }

  /** A copied word does the same wherever it runs and falls through. */
  lemma ExecCopied<D>(f: Other<D>, text: Text, text': Text, w: Word, s: Cpu<D>, pc: U64)
    requires Movable(w) && TypeOf(w) == INST_IGNORE
    ensures Exec(f, text, w, s.(pc := pc)) == Exec(f, text', w, s).(pc := Wrap(pc + 4))
    ensures Exec(f, text', w, s).pc == Wrap(s.pc + 4)
  {
    TypeOpcode(w);
    NoRegisterBranch(w);
    hide TypeOf, OtherBranch, IsBr, IsRet, IsB, IsBl, IsBc, IsAdr, IsAdrp, IsCb, IsTb, IsLdrLit64, Write, Read;
  }

  // ---------- one instruction of the window ----------

  function SlotAddr(win: Window, k: nat): nat
    requires win.Valid() && k <= win.n
  {
    win.relo + 4 * Pos(win.insts, k)
  }

  /** `e` is the state after the original word k, `u` the state after its slot. */
  ghost predicate SlotDone<D>(win: Window, k: nat, e: Cpu<D>, u: Cpu<D>)
    requires win.Valid() && k < win.n
  {
    && AgreeBut(e, u, {17, 30})
    && (u.x[30] == e.x[30]
        || (TypeOf(win.insts[k]) == INST_BL && e.x[30] == win.origin + 4 * k + 4 && u.x[30] == SlotAddr(win, k) + 28))
    && (u.pc == Fix(win, e.pc)
        || (e.pc == win.origin + 4 * k + 4 && u.pc == SlotAddr(win, k) + 4 * Len(win.insts[k])))
  }

  /** The processor stands at slot k, whose words are in place. */
  ghost predicate SlotReady<D>(win: Window, text': Text, k: nat, t: Cpu<D>) {
    && win.Valid() && k < win.n && win.origin + 4 * win.n < TWO64
    && Movable(win.insts[k]) && t.pc == SlotAddr(win, k)
    && PlacedAt(text', t.pc, Code(win, win.insts[k], win.origin + 4 * k))
    && t.pc + 4 * Len(win.insts[k]) < TWO64
  }

  lemma CodeShape(win: Window, w: Word, a: U64)
    requires win.Valid() && Movable(w)
    ensures var ty, to := TypeOf(w), Target(w, TypeOf(w), a);
            && (ty == INST_B || ty == INST_BL || ty == INST_BC ==> Code(win, w, a) == CodeB(w, ty, Fix(win, to)))
            && (ty == INST_ADR || ty == INST_ADRP ==> Code(win, w, a) == CodeAdr(w, to) && Len(w) == 4)
            && (ty == INST_CBZ || ty == INST_CBNZ ==> Code(win, w, a) == CodeCb(w, Fix(win, to)) && Len(w) == 6)
            && (ty == INST_TBZ || ty == INST_TBNZ ==> Code(win, w, a) == CodeTb(w, Fix(win, to)) && Len(w) == 6)
            && (ty == INST_IGNORE ==> Code(win, w, a) == [w, NOP] && Len(w) == 2)
            && (ty == INST_B ==> Len(w) == 6) && (ty == INST_BL || ty == INST_BC ==> Len(w) == 8)
  {
    hide Fix, Target, CodeB, CodeAdr, CodeCb, CodeTb, TypeOf;
  }

  lemma SlotJump<D>(win: Window, f: Other<D>, text: Text, text': Text, k: nat, t: Cpu<D>) returns (n: nat)
    requires SlotReady(win, text', k, t)
    requires var ty := TypeOf(win.insts[k]); ty == INST_B || ty == INST_BL || ty == INST_BC
    ensures n > 0
    ensures SlotDone(win, k, Exec(f, text, win.insts[k], t.(pc := win.origin + 4 * k)), Run(MachineOf(f, text'), t, n))
  {
    hide Exec, Run, Fix, Target, Code, CodeB, CodeAdr, CodeCb, CodeTb, Imm26, Imm19, Imm14, ImmAdr, ConditionHolds,
      CbTaken, TbTaken, Write, TypeOf, LenOfType, Pos, IsB, IsBl, IsBc, IsCb, IsTb, IsAdr, IsAdrp, IsLdrType, IsBr,
      IsRet, Wrap, Rt, PlacedAt;
    var w, a := win.insts[k], win.origin + 4 * k;
    var ty, s := TypeOf(w), t.(pc := a);
    TypeOpcode(w);
    TargetMeaning(w, a);
    CodeShape(win, w, a);
    WrapSmall(a + 4);
    WrapSmall(t.pc + 4);
    var to := Fix(win, Target(w, ty, a));
    if ty == INST_B {
      ExecB(f, text, w, s);
      RunB(f, text', t, w, to);
      n := 3;
    } else if ty == INST_BL {
      ExecBl(f, text, w, s);
      RunBl(f, text', t, w, to);
      n := 5;
    } else {
      ExecBc(f, text, w, s);
      n := RunBc(f, text', t, w, to);
    }
  }

  lemma SlotTest<D>(win: Window, f: Other<D>, text: Text, text': Text, k: nat, t: Cpu<D>) returns (n: nat)
    requires SlotReady(win, text', k, t)
    requires IsCb(win.insts[k]) || IsTb(win.insts[k])
    ensures n > 0
    ensures SlotDone(win, k, Exec(f, text, win.insts[k], t.(pc := win.origin + 4 * k)), Run(MachineOf(f, text'), t, n))
  {
    hide Exec, Run, Fix, Target, Code, CodeB, CodeAdr, CodeCb, CodeTb, Imm26, Imm19, Imm14, ImmAdr, ConditionHolds,
      CbTaken, TbTaken, Write, TypeOf, LenOfType, Pos, IsB, IsBl, IsBc, IsCb, IsTb, IsAdr, IsAdrp, IsLdrType, IsBr,
      IsRet, Wrap, Rt, PlacedAt;
    var w, a := win.insts[k], win.origin + 4 * k;
    var ty, s := TypeOf(w), t.(pc := a);
    TypeOpcode(w);
    TargetMeaning(w, a);
    CodeShape(win, w, a);
    WrapSmall(a + 4);
    WrapSmall(t.pc + 4);
    var to := Fix(win, Target(w, ty, a));
    if IsCb(w) {
      CbType(w);
      ExecCb(f, text, w, s);
      n := RunCb(f, text', t, w, to);
    } else {
      TbType(w);
      ExecTb(f, text, w, s);
      n := RunTb(f, text', t, w, to);
    }
  }

  lemma SlotPlain<D>(win: Window, f: Other<D>, text: Text, text': Text, k: nat, t: Cpu<D>) returns (n: nat)
    requires SlotReady(win, text', k, t)
    requires var ty := TypeOf(win.insts[k]); ty == INST_ADR || ty == INST_ADRP || ty == INST_IGNORE
    ensures n > 0
    ensures SlotDone(win, k, Exec(f, text, win.insts[k], t.(pc := win.origin + 4 * k)), Run(MachineOf(f, text'), t, n))
  {
    hide Exec, Run, Fix, Target, Code, CodeB, CodeAdr, CodeCb, CodeTb, Imm26, Imm19, Imm14, ImmAdr, ConditionHolds,
      CbTaken, TbTaken, Write, TypeOf, LenOfType, Pos, IsB, IsBl, IsBc, IsCb, IsTb, IsAdr, IsAdrp, IsLdrType, IsBr,
      IsRet, Wrap, Rt, PlacedAt;
    var w, a := win.insts[k], win.origin + 4 * k;
    var ty, s := TypeOf(w), t.(pc := a);
    TypeOpcode(w);
    TargetMeaning(w, a);
    CodeShape(win, w, a);
    WrapSmall(a + 4);
    WrapSmall(t.pc + 4);
    var to := Fix(win, Target(w, ty, a));
    if ty == INST_ADR {
      ExecAdr(f, text, w, s);
      RunAdr(f, text', t, w, Target(w, ty, a));
    } else if ty == INST_ADRP {
      ExecAdrp(f, text, w, s);
      RunAdr(f, text', t, w, Target(w, ty, a));
    } else {
      ExecCopied(f, text, text', w, t, a);
      RunCopied(f, text', t, w);
    }
    n := 2;
  }

  lemma CbType(w: Word)
    requires IsCb(w)
    ensures TypeOf(w) == INST_CBZ || TypeOf(w) == INST_CBNZ
  {
    TopByte(w);
  }

  lemma TbType(w: Word)
    requires IsTb(w)
    ensures TypeOf(w) == INST_TBZ || TypeOf(w) == INST_TBNZ
  {
    TopByte(w);
    var top := w / 0x100_0000;
    assert top % 128 == 0x36 || top % 128 == 0x37;
    hide And;
    MaskFields(w);
    RowNamesType(w, 0x7F000000, top % 128 * 0x100_0000);
  }

  lemma SlotStep<D>(win: Window, f: Other<D>, text: Text, text': Text, k: nat, t: Cpu<D>) returns (n: nat)
    requires SlotReady(win, text', k, t)
    ensures n > 0
    ensures SlotDone(win, k, Exec(f, text, win.insts[k], t.(pc := win.origin + 4 * k)), Run(MachineOf(f, text'), t, n))
  {
    var ty := TypeOf(win.insts[k]);
    AllTypes(win.insts[k]);
    TypeOpcode(win.insts[k]);
    hide TypeOf, IsCb, IsTb, Exec, Run, SlotDone, Code, Pos, PlacedAt, IsBr, IsRet;
    if ty == INST_B || ty == INST_BL || ty == INST_BC {
      n := SlotJump(win, f, text, text', k, t);
    } else if ty == INST_ADR || ty == INST_ADRP || ty == INST_IGNORE {
      n := SlotPlain(win, f, text, text', k, t);
    } else {
      n := SlotTest(win, f, text, text', k, t);
    }
  }

  lemma AllTypes(w: Word)
    ensures var ty := TypeOf(w);
            || ty == INST_B || ty == INST_BL || ty == INST_BC || ty == INST_ADR || ty == INST_ADRP || IsLdrType(ty)
            || ty == INST_CBZ || ty == INST_CBNZ || ty == INST_TBZ || ty == INST_TBNZ || ty == INST_IGNORE
  {
  }

  // ---------- the whole run ----------

  /** The original words are in `text`, the relocated ones in `text'`. */
  ghost predicate Moved(win: Window, text: Text, text': Text) {
    && win.Valid() && win.origin + 4 * win.n < TWO64 && |Relocated(win)| <= RELOCATE_INST_NUM
    && PlacedAt(text, win.origin, win.insts[..win.n]) && PlacedAt(text', win.relo, Relocated(win))
  }

  /** Every moved word is of a covered class and does not read X17, the register the slots clobber. */
  ghost predicate Relocatable<D(!new)>(win: Window, f: Other<D>, text: Text)
    requires win.Valid()
  {
    forall k: nat :: k < win.n ==> Movable(win.insts[k]) && Blind(f, text, win.insts[k], {17})
  }

  /** X30 is the same, or names the return point of one call in the original and in its slot. */
  ghost predicate SameLink(win: Window, x: U64, x': U64)
    requires win.Valid()
  {
    || x == x'
    || exists k: nat :: k < win.n && TypeOf(win.insts[k]) == INST_BL
         && x == win.origin + 4 * k + 4 && x' == SlotAddr(win, k) + 28
  }

  ghost predicate Related<D>(win: Window, s: Cpu<D>, t: Cpu<D>)
    requires win.Valid()
  {
    && AgreeBut(s, t, {17, 30}) && SameLink(win, s.x[30], t.x[30]) && t.pc == Fix(win, s.pc)
    && (InTramp(win, s.pc) ==> (s.pc - win.origin) % 4 == 0)
  }

  lemma {:induction false} SlotInSlots(win: Window, k: nat, m: nat)
    requires win.Valid() && k < m <= win.n
    ensures Pos(win.insts, k) + Len(win.insts[k]) <= Pos(win.insts, m)
    ensures Slots(win, m)[Pos(win.insts, k)..Pos(win.insts, k) + Len(win.insts[k])]
         == Code(win, win.insts[k], win.origin + 4 * k)
    decreases m
  {
    hide Code, Len, Slots, Pos;
    NextSlot(win, m - 1);
    var before, last := Slots(win, m - 1), Code(win, win.insts[m - 1], win.origin + 4 * (m - 1));
    if k < m - 1 {
      SlotInSlots(win, k, m - 1);
      InFront(before, last, Pos(win.insts, k), Pos(win.insts, k) + Len(win.insts[k]));
    } else {
      AtEnd(before, last);
    }
  }

  lemma InFront(s: seq<Word>, t: seq<Word>, i: nat, j: nat)
    requires i <= j <= |s|
    ensures (s + t)[i..j] == s[i..j]
  {
  }

  lemma AtEnd(s: seq<Word>, t: seq<Word>)
    ensures (s + t)[|s|..|s| + |t|] == t
  {
  }

  lemma PlacedPart(text: Text, a: nat, code: seq<Word>, at: nat, part: seq<Word>)
    requires PlacedAt(text, a, code) && at + |part| <= |code| && code[at..at + |part|] == part
    ensures PlacedAt(text, a + 4 * at, part)
  {
    forall j | 0 <= j < |part|
      ensures text(a + 4 * at + 4 * j) == part[j]
    {
      assert part[j] == code[at + j];
    }
  }

  /** The slot of word k, and the jump back after the last one, are where the layout says. */
  lemma SlotsPlaced(win: Window, text: Text, text': Text, k: nat)
    requires Moved(win, text, text') && k <= win.n
    ensures SlotAddr(win, k) + 16 <= TWO64
    ensures k < win.n ==>
      && PlacedAt(text', SlotAddr(win, k), Code(win, win.insts[k], win.origin + 4 * k))
      && SlotAddr(win, k) + 4 * Len(win.insts[k]) < TWO64
      && SlotAddr(win, k + 1) == SlotAddr(win, k) + 4 * Len(win.insts[k])
    ensures k == win.n ==> PlacedAt(text', SlotAddr(win, k), JumpTo(win.origin + 4 * win.n))
  {
    hide Code, Len, Fix, PlacedAt;
    PosMonotone(win.insts, k, win.n);
    var all := Relocated(win);
    if k < win.n {
      SlotInSlots(win, k, win.n);
      NextSlot(win, k);
      PlacedPart(text', win.relo, all, Pos(win.insts, k), Code(win, win.insts[k], win.origin + 4 * k));
    } else {
      PlacedPart(text', win.relo, all, Pos(win.insts, k), JumpTo(win.origin + 4 * win.n));
    }
  }

  lemma FixSlot(win: Window, k: nat)
    requires win.Valid() && k < win.n && SlotAddr(win, k) < TWO64
    ensures Fix(win, win.origin + 4 * k) == SlotAddr(win, k)
  {
    hide Pos;
    WrapSmall(SlotAddr(win, k));
  }

  /** Past slot k the processor stands where the word after k was moved to, at once or by the jump back. */
  lemma FallThrough<D>(win: Window, f: Other<D>, text: Text, text': Text, k: nat, u: Cpu<D>) returns (n: nat)
    requires Moved(win, text, text') && k < win.n && u.pc == SlotAddr(win, k + 1)
    ensures var v := Run(MachineOf(f, text'), u, n);
            v.pc == Fix(win, win.origin + 4 * (k + 1)) && AgreeBut(u, v, {17}) && u.x[30] == v.x[30]
  {
    hide Exec, Pos, Code, Len, PlacedAt, Relocated, Slots, LowWord, HighWord;
    SlotsPlaced(win, text, text', k + 1);
    if k + 1 < win.n {
      FixSlot(win, k + 1);
      n := 0;
    } else {
      var back := win.origin + 4 * win.n;
      FirstWords(text', u.pc, JumpTo(back));
      FarJump(f, text', u, back);
      n := 2;
    }
  }

  lemma WrapAligned(a: U64, m: int)
    ensures (Wrap(a + 4 * m) - a) % 4 == 0
  {
    var b := a + 4 * m;
    var q := b / TWO64;
    assert Wrap(b) - a == 4 * (m - q * 0x4000_0000_0000_0000);
  }

  lemma PcStaysAligned<D>(f: Other<D>, text: Text, w: Word, s: Cpu<D>)
    requires Movable(w)
    ensures (Exec(f, text, w, s).pc - s.pc) % 4 == 0
  {
    hide Exec, TypeOf, IsB, IsBl, IsBc, IsCb, IsTb, IsAdr, IsAdrp, IsBr, IsRet, ConditionHolds, CbTaken, TbTaken, SInt, ImmAdr, Wrap, Read, Write, Rt;
    WrapAligned(s.pc, 1);
    WrapAligned(s.pc, SInt(w % 0x400_0000, 0x200_0000));
    WrapAligned(s.pc, SInt(w / 32 % 0x8_0000, 0x4_0000));
    WrapAligned(s.pc, SInt(w / 32 % 0x4000, 0x2000));
    TypeOpcode(w);
    AllTypes(w);
    var ty := TypeOf(w);
    if ty == INST_B {
      ExecB(f, text, w, s);
    } else if ty == INST_BL {
      ExecBl(f, text, w, s);
    } else if ty == INST_BC {
      ExecBc(f, text, w, s);
    } else if ty == INST_ADR {
      ExecAdr(f, text, w, s);
    } else if ty == INST_ADRP {
      ExecAdrp(f, text, w, s);
    } else if ty == INST_CBZ || ty == INST_CBNZ {
      ExecCb(f, text, w, s);
    } else if ty == INST_TBZ || ty == INST_TBNZ {
      ExecTb(f, text, w, s);
    } else {
      ExecCopied(f, text, text, w, s, s.pc);
    }
  }

  lemma WindowIndex(win: Window, a: U64) returns (k: nat)
    requires win.Valid() && InTramp(win, a) && (a - win.origin) % 4 == 0
    ensures k < win.n && a == win.origin + 4 * k
  {
    k := (a - win.origin) / 4;
  }

  /** One original instruction is matched by one or more relocated ones. */
  lemma StepMatched<D(!new)>(win: Window, f: Other<D>, text: Text, text': Text, s: Cpu<D>, t: Cpu<D>) returns (n: nat)
    requires Moved(win, text, text') && Relocatable(win, f, text)
    requires Related(win, s, t) && InTramp(win, s.pc)
    requires t.x[30] == s.x[30] || Blind(f, text, text(s.pc), {17, 30})
    ensures n > 0
    ensures Related(win, MachineOf(f, text)(s), Run(MachineOf(f, text'), t, n))
    ensures t.x[30] == s.x[30] && TypeOf(text(s.pc)) != INST_BL ==>
      MachineOf(f, text)(s).x[30] == Run(MachineOf(f, text'), t, n).x[30]
  {
    hide Exec, Run, Fix, Pos, Code, Len, TypeOf, Relocated, InTramp, IsBr, IsRet, IsLdrType;
    var k := WindowIndex(win, s.pc);
    var w := win.insts[k];
    assert text(s.pc) == w by {
      assert win.insts[..win.n][k] == w;
    }
    SlotsPlaced(win, text, text', k);
    FixSlot(win, k);
    n := SlotStep(win, f, text, text', k, t);
    var e, e', u := Exec(f, text, w, s), Exec(f, text, w, t.(pc := s.pc)), Run(MachineOf(f, text'), t, n);
    OneStep(f, text, s);
    SlotFollows(win, f, text, k, s, t, u);
    PcStaysAligned(f, text, w, s);
    StillAligned(win, s.pc, e.pc);
    if u.pc != Fix(win, e.pc) {
      var m := FallThrough(win, f, text, text', k, u);
      Then(f, text', t, n, u, m, Run(MachineOf(f, text'), u, m));
      n := n + m;
    }
  }

  lemma StillAligned(win: Window, a: U64, b: U64)
    requires win.Valid() && (a - win.origin) % 4 == 0 && (b - a) % 4 == 0
    ensures (b - win.origin) % 4 == 0
  {
  }

  /** What the slot leaves agrees with what the original word leaves in the original state. */
  lemma SlotFollows<D(!new)>(win: Window, f: Other<D>, text: Text, k: nat, s: Cpu<D>, t: Cpu<D>, u: Cpu<D>)
    requires win.Valid() && k < win.n && AgreeBut(s, t, {17, 30}) && SameLink(win, s.x[30], t.x[30])
    requires s.pc == win.origin + 4 * k && Blind(f, text, win.insts[k], {17})
    requires t.x[30] == s.x[30] || Blind(f, text, win.insts[k], {17, 30})
    requires SlotDone(win, k, Exec(f, text, win.insts[k], t.(pc := s.pc)), u)
    ensures var e := Exec(f, text, win.insts[k], s);
            && AgreeBut(e, u, {17, 30}) && SameLink(win, e.x[30], u.x[30])
            && (u.pc == Fix(win, e.pc)
                || (e.pc == win.origin + 4 * k + 4 && u.pc == SlotAddr(win, k) + 4 * Len(win.insts[k])))
            && (t.x[30] == s.x[30] && TypeOf(win.insts[k]) != INST_BL ==> e.x[30] == u.x[30])
  {
    hide Exec, Fix, Pos, Len, TypeOf, Imm26, IsBl, IsB, IsBc, IsAdr, IsAdrp, IsCb, IsTb, IsLdrLit64;
    var t' := t.(pc := s.pc);
    TypeOpcode(win.insts[k]);
    if TypeOf(win.insts[k]) == INST_BL {
      ExecBl(f, text, win.insts[k], s);
      ExecBl(f, text, win.insts[k], t');
    }
    if t.x[30] == s.x[30] {
      assert AgreeBut(s, t', {17});
    } else {
      assert AgreeBut(s, t', {17, 30});
    }
  }

  /** No call in the window stays in it, or no moved word looks at the link register. */
  ghost predicate LinkSafe<D(!new)>(win: Window, f: Other<D>, text: Text)
    requires win.Valid()
  {
    || (forall k: nat :: k < win.n && TypeOf(win.insts[k]) == INST_BL ==>
          !InTramp(win, Wrap(win.origin + 4 * k + Imm26(win.insts[k]))))
    || (forall k: nat :: k < win.n ==> Blind(f, text, win.insts[k], {17, 30}))
  }

  /** Meaning preservation: as long as the original run has stayed in the window, the relocated run
      reaches a related state, after at least as many steps. */
  lemma {:induction false} RunMatched<D(!new)>(
    win: Window, f: Other<D>, text: Text, text': Text, s: Cpu<D>, t: Cpu<D>, m: nat) returns (n: nat)
    requires Moved(win, text, text') && Relocatable(win, f, text) && LinkSafe(win, f, text)
    requires Related(win, s, t)
    requires t.x[30] == s.x[30] || (forall k: nat :: k < win.n ==> Blind(f, text, win.insts[k], {17, 30}))
    requires forall j: nat :: j < m ==> InTramp(win, Run(MachineOf(f, text), s, j).pc)
    ensures n >= m
    ensures Related(win, Run(MachineOf(f, text), s, m), Run(MachineOf(f, text'), t, n))
    decreases m
  {
    hide Exec, Fix, Pos, Relocated, InTramp, Blind, TypeOf, Imm26;
    if m == 0 {
      n := 0;
    } else {
      assert InTramp(win, Run(MachineOf(f, text), s, 0).pc);
      var s' := MachineOf(f, text)(s);
      WordAt(win, text, text', s.pc);
      var a := StepMatched(win, f, text, text', s, t);
      var t' := Run(MachineOf(f, text'), t, a);
      forall j: nat | j < m - 1
        ensures InTramp(win, Run(MachineOf(f, text), s', j).pc)
      {
        assert Run(MachineOf(f, text), s', j) == Run(MachineOf(f, text), s, j + 1);
      }
      if m == 1 {
        n := a;
      } else {
        assert InTramp(win, Run(MachineOf(f, text), s', 0).pc);
        if !(forall k: nat :: k < win.n ==> Blind(f, text, win.insts[k], {17, 30})) {
          LinkKept(win, f, text, text', s, s');
        }
        var b := RunMatched(win, f, text, text', s', t', m - 1);
        Then(f, text', t, a, t', b, Run(MachineOf(f, text'), t', b));
        n := a + b;
      }
    }
  }

  lemma WordAt(win: Window, text: Text, text': Text, a: U64)
    requires Moved(win, text, text') && InTramp(win, a) && (a - win.origin) % 4 == 0
    ensures exists k: nat :: k < win.n && a == win.origin + 4 * k && text(a) == win.insts[k]
  {
    hide Pos, Relocated;
    var k := WindowIndex(win, a);
    assert win.insts[..win.n][k] == win.insts[k];
  }

  /** A call that stays in the window is not the step just taken, when calls leave it. */
  lemma LinkKept<D(!new)>(win: Window, f: Other<D>, text: Text, text': Text, s: Cpu<D>, s': Cpu<D>)
    requires Moved(win, text, text') && InTramp(win, s.pc) && (s.pc - win.origin) % 4 == 0
    requires s' == MachineOf(f, text)(s) && InTramp(win, s'.pc)
    requires forall k: nat :: k < win.n && TypeOf(win.insts[k]) == INST_BL ==>
               !InTramp(win, Wrap(win.origin + 4 * k + Imm26(win.insts[k])))
    ensures TypeOf(text(s.pc)) != INST_BL
  {
    hide Exec, Pos, Relocated, Imm26, TypeOf, InTramp;
    WordAt(win, text, text', s.pc);
    TypeOpcode(text(s.pc));
    OneStep(f, text, s);
    if TypeOf(text(s.pc)) == INST_BL {
      ExecBl(f, text, text(s.pc), s);
    }
  }

  /** After a covered call the relocated return address leads to the slot of the next word. */
  lemma ReturnPoint<D>(win: Window, f: Other<D>, text: Text, text': Text, k: nat, t: Cpu<D>) returns (n: nat)
    requires Moved(win, text, text') && k < win.n && TypeOf(win.insts[k]) == INST_BL
    requires t.pc == SlotAddr(win, k) + 28
    ensures var u := Run(MachineOf(f, text'), t, n);
            AgreeBut(t, u, {17}) && u.x[30] == t.x[30] && u.pc == Fix(win, win.origin + 4 * (k + 1))
  {
    hide Exec, Pos, Run, Relocated, And32, Or32, LowWord, HighWord, Fix, Target, TypeOf, Slots;
    SlotsPlaced(win, text, text', k);
    CodeBlShape(win, k);
    FirstWords(text', SlotAddr(win, k), Code(win, win.insts[k], win.origin + 4 * k));
    OneStep(f, text', t);
    ExecHint(f, text', NOP, t);
    var u := t.(pc := t.pc + 4);
    n := FallThrough(win, f, text, text', k, u);
    Then(f, text', t, 1, u, n, Run(MachineOf(f, text'), u, n));
    n := 1 + n;
  }

  lemma CodeBlShape(win: Window, k: nat)
    requires win.Valid() && k < win.n && win.origin + 4 * k < TWO64 && TypeOf(win.insts[k]) == INST_BL
    ensures var c := Code(win, win.insts[k], win.origin + 4 * k);
            |c| == 8 && c[7] == NOP
  {
    hide TypeOf, And32, Or32, LowWord, HighWord, Fix, Target;
  }

  /** The trampoline carries control to the replacement and changes nothing but X17. */
  lemma TrampolineJumps<D>(f: Other<D>, text: Text, s: Cpu<D>, first: Word, replace: U64) returns (n: nat)
    requires PlacedAt(text, s.pc, Trampoline(first, replace))
    ensures Run(MachineOf(f, text), s, n) == s.(x := s.x[17 := replace], pc := replace)
  {
    hide Exec, Run, LowWord, HighWord;
    FirstWords(text, s.pc, Trampoline(first, replace));
    if SignsReturn(first) {
      OneStep(f, text, s);
      ExecHint(f, text, BTI_JC, s);
      var u := s.(pc := s.pc + 4);
      FarJump(f, text, u, replace);
      Then(f, text, s, 1, u, 2, u.(x := u.x[17 := replace], pc := replace));
      n := 3;
    } else {
      FarJump(f, text, s, replace);
      n := 2;
    }
  }
}
