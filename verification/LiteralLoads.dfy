/** What the slots of literal loads do: exactly when the emitted load gets the address it is meant for. */
module LiteralLoads {
  import opened Bits
  import opened A64
  import opened Relocator
  import opened Simulation

  predicate IsGeneralLoad(ty: Word) { ty == INST_LDR_32 || ty == INST_LDR_64 || ty == INST_LDRSW_LIT }

  /** What the slot's literal load picks up: the padding word below the low half of the address. */
  function PickedUp(to: U64): U64 { LowWord(to) * TWO32 + NOP }

  /** The two agree for one value only, in which both halves are the padding word. */
  lemma PickedUpExactly(to: U64)
    ensures PickedUp(to) == to <==> LowWord(to) == NOP && HighWord(to) == NOP
    ensures to % 4 == 0 ==> PickedUp(to) != to
  {
  }

  /** The pointer register of a general slot after its first word: the base of the load that follows. */
  lemma GeneralBase<D>(f: Other<D>, text: Text, t: Cpu<D>, w: Word, ty: Word, to: U64)
    requires IsGeneralLoad(ty) && PlacedAt(text, t.pc, CodeLdr(w, ty, to)) && Register(w) < 31
    ensures Run(MachineOf(f, text), t, 1) == t.(x := t.x[Register(w) := PickedUp(to)], pc := t.pc + 4)
    ensures Run(MachineOf(f, text), t, 1).x[Register(w)] == to <==> LowWord(to) == NOP && HighWord(to) == NOP
  {
    hide Exec, Run, Or32, LowWord, HighWord, LoadText, Register;
    FirstWords(text, t.pc, CodeLdr(w, ty, to));
    OneStep(f, text, t);
    ExecLoadNear(f, text, t, Register(w));
    WrapSmall(t.pc + 4);
    WrapSmall(t.pc + 12);
    LoadPadding(text, t.pc + 12, to);
    PickedUpExactly(to);
  }

  /** X17 in a vector or prefetch slot after its second word: the base of the access that follows. */
  lemma VectorBase<D>(f: Other<D>, text: Text, t: Cpu<D>, w: Word, ty: Word, to: U64, a: U64)
    requires IsLdrType(ty) && !IsGeneralLoad(ty) && PlacedAt(text, a, CodeLdr(w, ty, to)) && t.pc == a + 4
    ensures Run(MachineOf(f, text), t, 1) == t.(x := t.x[17 := PickedUp(to)], pc := t.pc + 4)
    ensures Run(MachineOf(f, text), t, 1).x[17] == to <==> LowWord(to) == NOP && HighWord(to) == NOP
  {
    hide Exec, Run, Or32, LowWord, HighWord, LoadText;
    FirstWords(text, a, CodeLdr(w, ty, to));
    OneStep(f, text, t);
    hide IsLdrType;
    ExecLdrLit64(f, text, 0x58000091, t);
    WrapSmall(t.pc + 4);
    WrapSmall(t.pc + 16);
    LoadPadding(text, t.pc + 16, to);
    PickedUpExactly(to);
  }

  /** LDR Xd, #12 */
  lemma ExecLoadNear<D>(f: Other<D>, text: Text, s: Cpu<D>, d: Word)
    requires d < 32
    ensures Exec(f, text, Or32(0x58000060, d), s)
         == s.(x := Write(s.x, d, LoadText(text, Wrap(s.pc + 12))), pc := Wrap(s.pc + 4))
  {
    NearWord(d);
    hide Exec, Or32, Write, LoadText, Wrap;
    ExecLdrLit64(f, text, Or32(0x58000060, d), s);
  }

  lemma NearWord(d: Word)
    requires d < 32
    ensures var w := Or32(0x58000060, d); IsLdrLit64(w) && Rt(w) == d && Imm19(w) == 12
  {
    Powers();
    hide Or, Pow2;
    OrDisjoint(0x58000060 / 32, 5, d);
  }

  lemma LoadPadding(text: Text, a: U64, to: U64)
    requires a + 4 < TWO64 && text(a) == NOP && text(a + 4) == LowWord(to)
    ensures LoadText(text, a) == PickedUp(to)
  {
    WrapSmall(a + 4);
  }

  // ---------- no literal load of an aligned function is right ----------

  /** The address a literal load names, moved with the window if it lies inside. */
  function LoadAddr(win: Window, k: nat): U64
    requires win.Valid() && k < win.n && win.origin + 4 * k < TWO64
  {
    Fix(win, Target(win.insts[k], TypeOf(win.insts[k]), win.origin + 4 * k))
  }

  lemma AddrAligned(win: Window, k: nat)
    requires win.Valid() && k < win.n && win.origin % 4 == 0 && win.relo % 4 == 0
    requires win.origin + 4 * k < TWO64 && IsLdrType(TypeOf(win.insts[k]))
    ensures LoadAddr(win, k) % 4 == 0
  {
    hide TypeOf, Pos, Target, Fix, IsLdrType;
    var w, a := win.insts[k], win.origin + 4 * k;
    TargetAligned(w, TypeOf(w), a);
    FixAligned(win, Target(w, TypeOf(w), a));
  }

  lemma TargetAligned(w: Word, ty: Word, a: U64)
    requires IsLdrType(ty) && a % 4 == 0
    ensures Target(w, ty, a) % 4 == 0 && Target(w, ty, a) == Wrap(a + Imm19(w))
  {
    hide Target, IsLdrType, Wrap, Imm19;
    LikeBranch(w, ty, a);
    TargetMeaning(w, a);
    ImmAligned(w);
    SumAligned(a, Imm19(w));
  }

  lemma LikeBranch(w: Word, ty: Word, a: U64)
    requires IsLdrType(ty)
    ensures Target(w, ty, a) == Target(w, INST_BC, a)
  {
  }

  lemma ImmAligned(w: Word)
    ensures Imm19(w) % 4 == 0
  {
  }

  lemma SumAligned(a: nat, i: int)
    requires a % 4 == 0 && i % 4 == 0
    ensures Wrap(a + i) % 4 == 0
  {
    var q := (a + i) / TWO64;
    assert Wrap(a + i) == a + i - q * TWO64;
  }

  lemma FixAligned(win: Window, a: U64)
    requires win.Valid() && a % 4 == 0 && win.relo % 4 == 0
    ensures Fix(win, a) % 4 == 0
  {
    hide Pos;
    if InTramp(win, a) {
      SumAligned(win.relo, 4 * Pos(win.insts, (a - win.origin) / 4));
    }
  }

  /** For every literal load of an aligned function, wherever it stands and whatever it names, the register that
      should hold the address holds something else when the access is made. */
  lemma NeverRight<D>(win: Window, f: Other<D>, text: Text, text': Text, k: nat, t: Cpu<D>)
    requires Moved(win, text, text') && k < win.n && win.origin % 4 == 0 && win.relo % 4 == 0
    requires IsLdrType(TypeOf(win.insts[k])) && t.pc == SlotAddr(win, k)
    ensures var w, ty := win.insts[k], TypeOf(win.insts[k]);
      && (IsGeneralLoad(ty) && Register(w) < 31 ==> Run(MachineOf(f, text'), t, 1).x[Register(w)] != LoadAddr(win, k))
      && (!IsGeneralLoad(ty) ==> Run(MachineOf(f, text'), t, 2).x[17] != LoadAddr(win, k))
  {
    hide Exec, Run, Pos, Relocated, And32, Or32, LowWord, HighWord, Fix, Target, TypeOf, Slots, CodeLdr, PickedUp, Register;
    var w, ty, to := win.insts[k], TypeOf(win.insts[k]), LoadAddr(win, k);
    SlotsPlaced(win, text, text', k);
    LoadCode(win, k);
    AddrAligned(win, k);
    PickedUpExactly(to);
    if IsGeneralLoad(ty) && Register(w) < 31 {
      GeneralBase(f, text', t, w, ty, to);
    } else if !IsGeneralLoad(ty) {
      var u := StoreFirst(f, text', t, w, ty, to);
      VectorBase(f, text', u, w, ty, to, t.pc);
      Then(f, text', t, 1, u, 1, u.(x := u.x[17 := PickedUp(to)], pc := u.pc + 4));
    }
  }

  lemma LoadCode(win: Window, k: nat)
    requires win.Valid() && k < win.n && win.origin + 4 * k < TWO64 && IsLdrType(TypeOf(win.insts[k]))
    ensures Code(win, win.insts[k], win.origin + 4 * k) == CodeLdr(win.insts[k], TypeOf(win.insts[k]), LoadAddr(win, k))
  {
    hide TypeOf, Target, Fix, CodeLdr;
  }

  /** The pair store at the head of a vector slot falls through. */
  lemma StoreFirst<D>(f: Other<D>, text: Text, t: Cpu<D>, w: Word, ty: Word, to: U64) returns (u: Cpu<D>)
    requires IsLdrType(ty) && !IsGeneralLoad(ty) && PlacedAt(text, t.pc, CodeLdr(w, ty, to))
    ensures u == Run(MachineOf(f, text), t, 1) && u.pc == t.pc + 4
  {
    FirstWords(text, t.pc, CodeLdr(w, ty, to));
    hide Run, LowWord, HighWord, IsLdrType;
    OneStep(f, text, t);
    WrapSmall(t.pc + 4);
    u := Exec(f, text, 0xA93F47F0, t);
  }

  /** LDR X0, #64 at the entry of a function: the slot is emitted, and the machine that runs it loads from another
      address than the one named. */
  lemma LiteralLoadIsLost<D>(f: Other<D>, text: Text, t: Cpu<D>)
    requires var win := Window(0x1_0000, 0x2_0000, [0x5800_0200, NOP, NOP, NOP, NOP, NOP], 4);
      t.pc == win.relo && PlacedAt(text, t.pc, Code(win, win.insts[0], win.origin))
    ensures var win := Window(0x1_0000, 0x2_0000, [0x5800_0200, NOP, NOP, NOP, NOP, NOP], 4);
      && TypeOf(win.insts[0]) == INST_LDR_64 && !Refused(win, win.insts[0], win.origin)
      && LoadAddr(win, 0) == 0x1_0040 && Register(win.insts[0]) == 0
      && Run(MachineOf(f, text), t, 1).x[0] == 0x1_0040_D503_201F
  {
    var win := Window(0x1_0000, 0x2_0000, [0x5800_0200, NOP, NOP, NOP, NOP, NOP], 4);
    NamedAddress(win);
    LoadCode(win, 0);
    hide TypeOf, Target, Pos, LoadAddr, Code, CodeLdr, Run, Register, Refused, PlacedAt;
    GeneralBase(f, text, t, win.insts[0], INST_LDR_64, 0x1_0040);
  }

  lemma NamedAddress(win: Window)
    requires win == Window(0x1_0000, 0x2_0000, [0x5800_0200, NOP, NOP, NOP, NOP, NOP], 4)
    ensures win.Valid() && TypeOf(win.insts[0]) == INST_LDR_64 && !Refused(win, win.insts[0], win.origin)
    ensures LoadAddr(win, 0) == 0x1_0040 && Register(win.insts[0]) == 0 && PickedUp(0x1_0040) == 0x1_0040_D503_201F
  {
    var w, a := 0x5800_0200, 0x1_0000;
    LoadType();
    hide TypeOf, Target, Pos;
    TargetAligned(w, INST_LDR_64, a);
    assert Imm19(w) == 64;
  }

  lemma LoadType()
    ensures TypeOf(0x5800_0200) == INST_LDR_64
  {
  }
}
