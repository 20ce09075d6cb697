/** The inline-hook relocator: the specification of what it emits, and the hook object whose
    methods emit it word by word. */
module Relocator {
  import opened Bits
  import opened A64

  const TRAMPOLINE_MAX_NUM: nat := 6
  const RELOCATE_INST_NUM: nat := 4 * 8 + 8 - 4

  const INST_B: Word := 0x14000000
  const INST_BC: Word := 0x54000000
  const INST_BL: Word := 0x94000000
  const INST_ADR: Word := 0x10000000
  const INST_ADRP: Word := 0x90000000
  const INST_LDR_32: Word := 0x18000000
  const INST_LDR_64: Word := 0x58000000
  const INST_LDRSW_LIT: Word := 0x98000000
  const INST_PRFM_LIT: Word := 0xD8000000
  const INST_LDR_SIMD_32: Word := 0x1C000000
  const INST_LDR_SIMD_64: Word := 0x5C000000
  const INST_LDR_SIMD_128: Word := 0x9C000000
  const INST_CBZ: Word := 0x34000000
  const INST_CBNZ: Word := 0x35000000
  const INST_TBZ: Word := 0x36000000
  const INST_TBNZ: Word := 0x37000000
  const INST_IGNORE: Word := 0

  const MASKS: seq<Word> := [
    0xFC000000, 0xFF000010, 0xFC000000, 0x9F000000, 0x9F000000, 0xFF000000,
    0xFF000000, 0xFF000000, 0xFF000000, 0xFF000000, 0xFF000000, 0xFF000000,
    0x7F000000, 0x7F000000, 0x7F000000, 0x7F000000, 0]
  const TYPES: seq<Word> := [
    INST_B, INST_BC, INST_BL, INST_ADR, INST_ADRP, INST_LDR_32,
    INST_LDR_64, INST_LDRSW_LIT, INST_PRFM_LIT, INST_LDR_SIMD_32, INST_LDR_SIMD_64, INST_LDR_SIMD_128,
    INST_CBZ, INST_CBNZ, INST_TBZ, INST_TBNZ, INST_IGNORE]
  const RELO_LEN: seq<nat> := [6, 8, 8, 4, 4, 6, 6, 6, 8, 8, 8, 8, 6, 6, 6, 6, 2]

  predicate Match(w: Word, j: nat)
    requires j < 17
  {
    And(w, MASKS[j]) == TYPES[j]
  }

  /** The class of a word, by its opcode fields. */
  function TypeOf(w: Word): Word {
    var top := w / 0x100_0000;
    if IsB(w) then INST_B
    else if IsBc(w) then INST_BC
    else if IsBl(w) then INST_BL
    else if IsAdr(w) then INST_ADR
    else if IsAdrp(w) then INST_ADRP
    else if top == 0x18 then INST_LDR_32
    else if top == 0x58 then INST_LDR_64
    else if top == 0x98 then INST_LDRSW_LIT
    else if top == 0xD8 then INST_PRFM_LIT
    else if top == 0x1C then INST_LDR_SIMD_32
    else if top == 0x5C then INST_LDR_SIMD_64
    else if top == 0x9C then INST_LDR_SIMD_128
    else if top % 128 == 0x34 then INST_CBZ
    else if top % 128 == 0x35 then INST_CBNZ
    else if top % 128 == 0x36 then INST_TBZ
    else if top % 128 == 0x37 then INST_TBNZ
    else INST_IGNORE
  }

  /** Words emitted for each class. */
  function LenOfType(ty: Word): (len: nat)
    ensures 2 <= len <= 8
  {
    if ty == INST_IGNORE then 2
    else if ty == INST_ADR || ty == INST_ADRP then 4
    else if ty == INST_BC || ty == INST_BL || ty == INST_PRFM_LIT || ty == INST_LDR_SIMD_32
            || ty == INST_LDR_SIMD_64 || ty == INST_LDR_SIMD_128 then 8
    else 6
  }

  function Len(w: Word): (len: nat)
    ensures 2 <= len <= 8
  {
    LenOfType(TypeOf(w))
  }

  // ---------- the opcode tables ----------

  /** What each mask of the relocator selects. */
  lemma MaskFields(w: Word)
    ensures And(w, 0xFC000000) == w / 0x400_0000 * 0x400_0000
    ensures And(w, 0xFF000000) == w / 0x100_0000 * 0x100_0000
    ensures And(w, 0x7F000000) == w / 0x100_0000 % 128 * 0x100_0000
    ensures And(w, 0xFF000010) == w / 0x100_0000 * 0x100_0000 + w / 16 % 2 * 16
    ensures And(w, 0x9F000000) == w / 0x8000_0000 * 0x8000_0000 + w / 0x100_0000 % 32 * 0x100_0000
    ensures And(w, 0xFF00001F) == w / 0x100_0000 * 0x100_0000 + w % 32
    ensures And(w, 0xFFF8001F) == w / 0x8_0000 * 0x8_0000 + w % 32
  {
    OneFieldMasks(w);
    TwoFieldMasks(w);
    RegisterMasks(w);
  }

  lemma OneFieldMasks(w: Word)
    ensures And(w, 0xFC000000) == w / 0x400_0000 * 0x400_0000
    ensures And(w, 0xFF000000) == w / 0x100_0000 * 0x100_0000
    ensures And(w, 0x7F000000) == w / 0x100_0000 % 128 * 0x100_0000
  {
    hide And, Pow2;
    Powers();
    AndField(w, 26, 6);
    AndField(w, 24, 8);
    AndField(w, 24, 7);
  }

  lemma TwoFieldMasks(w: Word)
    ensures And(w, 0xFF000010) == w / 0x100_0000 * 0x100_0000 + w / 16 % 2 * 16
    ensures And(w, 0x9F000000) == w / 0x8000_0000 * 0x8000_0000 + w / 0x100_0000 % 32 * 0x100_0000
  {
    hide And, Pow2;
    Powers();
    AndTwoFields(w, 24, 8, 4, 1);
    AndTwoFields(w, 31, 1, 24, 5);
  }

  lemma RegisterMasks(w: Word)
    ensures And(w, 0xFF00001F) == w / 0x100_0000 * 0x100_0000 + w % 32
    ensures And(w, 0xFFF8001F) == w / 0x8_0000 * 0x8_0000 + w % 32
  {
    hide And, Pow2;
    Powers();
    AndTwoFields(w, 24, 8, 0, 5);
    AndTwoFields(w, 19, 13, 0, 5);
  }

  /** The rows of the tables that precede the catch-all. */
  predicate IsRow(m: Word, t: Word) {
    || (m == 0xFC000000 && (t == INST_B || t == INST_BL))
    || (m == 0xFF000010 && t == INST_BC)
    || (m == 0x9F000000 && (t == INST_ADR || t == INST_ADRP))
    || (m == 0x7F000000 && (t == INST_CBZ || t == INST_CBNZ || t == INST_TBZ || t == INST_TBNZ))
    || (m == 0xFF000000 && (t == INST_LDR_32 || t == INST_LDR_64 || t == INST_LDRSW_LIT || t == INST_PRFM_LIT
                            || t == INST_LDR_SIMD_32 || t == INST_LDR_SIMD_64 || t == INST_LDR_SIMD_128))
  }

  lemma TableRow(j: nat)
    requires j < 16
    ensures IsRow(MASKS[j], TYPES[j]) && RELO_LEN[j] == LenOfType(TYPES[j])
  {
  }

  /** A word that fits a row has that row's class. */
  lemma RowNamesType(w: Word, m: Word, t: Word)
    requires IsRow(m, t) && And(w, m) == t
    ensures TypeOf(w) == t
  {
    hide And;
    if m == 0xFF000000 {
      LiteralRow(w, t);
    } else if m == 0x7F000000 {
      CompareRow(w, t);
    } else if m == 0xFC000000 {
      OneFieldMasks(w);
    } else {
      TwoFieldMasks(w);
    }
  }

  lemma LiteralRow(w: Word, t: Word)
    requires IsRow(0xFF000000, t) && And(w, 0xFF000000) == t
    ensures TypeOf(w) == t
  {
    hide And;
    OneFieldMasks(w);
    assert w / 0x100_0000 * 0x100_0000 == t;
    assert w / 0x100_0000 == t / 0x100_0000;
  }

  lemma CompareRow(w: Word, t: Word)
    requires IsRow(0x7F000000, t) && And(w, 0x7F000000) == t
    ensures TypeOf(w) == t
  {
    hide And;
    OneFieldMasks(w);
    assert w / 0x100_0000 % 128 * 0x100_0000 == t;
    assert w / 0x100_0000 % 128 == t / 0x100_0000;
  }

  lemma TableNamesType(w: Word, j: nat)
    requires j < 16 && Match(w, j)
    ensures TYPES[j] == TypeOf(w) && RELO_LEN[j] == Len(w)
  {
    hide And, LenOfType, TypeOf;
    TableRow(j);
    RowNamesType(w, MASKS[j], TYPES[j]);
  }

  lemma TypesDistinct(i: nat, j: nat)
    requires i < j < 16
    ensures TYPES[i] != TYPES[j]
  {
  }

  /** No word fits two rows, so the order in which the tables are searched does not matter. */
  lemma PatternsDisjoint(w: Word, i: nat, j: nat)
    requires i < j < 16 && Match(w, i)
    ensures !Match(w, j)
  {
    hide And, TypeOf;
    if Match(w, j) {
      TableNamesType(w, i);
      TableNamesType(w, j);
      TypesDistinct(i, j);
    }
  }

  lemma NoRowIsIgnored(w: Word)
    requires forall i: nat :: i < 16 ==> !Match(w, i)
    ensures TypeOf(w) == INST_IGNORE
  {
    hide And;
    MaskFields(w);
    assert !Match(w, 0) && !Match(w, 1) && !Match(w, 2) && !Match(w, 3) && !Match(w, 4) && !Match(w, 5);
    assert !Match(w, 6) && !Match(w, 7) && !Match(w, 8) && !Match(w, 9) && !Match(w, 10) && !Match(w, 11);
    assert !Match(w, 12) && !Match(w, 13) && !Match(w, 14) && !Match(w, 15);
  }

  /** The table search shared by relo_in_tramp and relocate_inst. */
  method FindRow(w: Word) returns (j: nat)
    ensures j < 17 && TYPES[j] == TypeOf(w) && RELO_LEN[j] == Len(w)
  {
    hide And, TypeOf;
    AndZero(w);
    j := 0;
    while !Match(w, j)
      invariant j <= 16
      invariant forall i: nat :: i < j ==> !Match(w, i)
      decreases 16 - j
    {
      j := j + 1;
    }
    if j < 16 {
      TableNamesType(w, j);
    } else {
      NoRowIsIgnored(w);
    }
  }

  // ---------- the window and the relocated addresses ----------

  /** What relocation sees of a hook: the first `n` of the saved words at `origin` are moved to `relo`. */
  datatype Window = Window(origin: U64, relo: U64, insts: seq<Word>, n: nat) {
    /** Neither the saved words nor the relocation buffer wraps around the address space. */
    predicate Valid() {
      && |insts| == TRAMPOLINE_MAX_NUM && n <= TRAMPOLINE_MAX_NUM
      && origin + 4 * TRAMPOLINE_MAX_NUM <= TWO64 && relo + 4 * RELOCATE_INST_NUM <= TWO64
    }
  }

  /** The first word of slot k in the relocated code. */
  function Pos(insts: seq<Word>, k: nat): (p: nat)
    requires k <= |insts|
    ensures 2 * k <= p <= 8 * k
  {
    if k == 0 then 0 else Pos(insts, k - 1) + Len(insts[k - 1])
  }

  predicate InTramp(win: Window, a: U64) {
    win.origin <= a < win.origin + 4 * win.n
  }

  /** relo_in_tramp: an address inside the overwritten window becomes the address of its slot. */
  function Fix(win: Window, a: U64): U64
    requires win.Valid()
  {
    if !InTramp(win, a) then a else Wrap(win.relo + 4 * Pos(win.insts, (a - win.origin) / 4))
  }

  lemma FirstPos(insts: seq<Word>)
    ensures Pos(insts, 0) == 0
  {
  }

  lemma NextPos(insts: seq<Word>, i: nat, relo: U64)
    requires i < |insts|
    ensures Wrap(Wrap(relo + 4 * Pos(insts, i)) + Len(insts[i]) * 4) == Wrap(relo + 4 * Pos(insts, i + 1))
  {
    hide Len;
    var p := relo + 4 * Pos(insts, i);
    WrapAgain(p, 4 * Len(insts[i]));
  }

  lemma WrapAgain(x: int, y: nat)
    ensures Wrap(Wrap(x) + y) == Wrap(x + y)
  {
    var q, r := x / TWO64, x % TWO64;
    assert x == q * TWO64 + r;
    var q2, r2 := (r + y) / TWO64, (r + y) % TWO64;
    assert r + y == q2 * TWO64 + r2;
    assert x + y == (q + q2) * TWO64 + r2;
    WrapAt(x + y, q + q2, r2);
  }

  // ---------- what each emitter writes ----------

  function Bits32(n: Word, high: nat, low: nat): nat
    requires low <= high <= 31
  {
    n / Pow2(low) % Pow2(high - low + 1)
  }

  /** The bits from `len` up are filled with bit `len - 1`. */
  function SignExtend64(n: nat, len: nat): nat
    requires 1 <= len <= 63
  {
    Pow2Mono(len, 64);
    Powers();
    if n / Pow2(len - 1) % 2 == 1 then Or(n, TWO64 - Pow2(len)) else n
  }

  function Register(w: Word): (r: Word)
    ensures r == w % 32
  {
    Powers();
    Bits32(w, 4, 0)
  }

  function LowWord(a: U64): Word { a % TWO32 }
  function HighWord(a: U64): Word { a / TWO32 }

  /** The absolute address a PC-relative word of class `ty` at address `a` names. */
  function Target(w: Word, ty: Word, a: U64): U64 {
    if ty == INST_B || ty == INST_BL then Wrap(a + SignExtend64(4 * Bits32(w, 25, 0), 28))
    else if ty == INST_TBZ || ty == INST_TBNZ then Wrap(a + SignExtend64(4 * Bits32(w, 18, 5), 16))
    else if ty == INST_ADR then Wrap(a + SignExtend64(Or(4 * Bits32(w, 23, 5), Bits32(w, 30, 29)), 21))
    else if ty == INST_ADRP then
      And64(Wrap(a + SignExtend64(Or(0x4000 * Bits32(w, 23, 5), 0x1000 * Bits32(w, 30, 29)), 33)),
            0xFFFFFFFFFFFFF000)
    else Wrap(a + SignExtend64(4 * Bits32(w, 23, 5), 21))
  }

  lemma FieldMeaning(w: Word)
    ensures Bits32(w, 25, 0) == w % 0x400_0000 && Bits32(w, 23, 5) == w / 32 % 0x8_0000
    ensures Bits32(w, 18, 5) == w / 32 % 0x4000 && Bits32(w, 30, 29) == w / 0x2000_0000 % 4
  {
    Powers();
  }

  lemma OrHigh(n: nat, len: nat)
    requires len <= 64 && n < Pow2(len)
    ensures Pow2(len) <= TWO64 && Or(n, TWO64 - Pow2(len)) == n + TWO64 - Pow2(len)
  {
    Powers();
    Pow2Mono(len, 64);
    Pow2Add(64 - len, len);
    OrDisjoint(Pow2(64 - len) - 1, len, n);
    hide Pow2, Or;
    Distribute(Pow2(64 - len), -1, Pow2(len));
  }

  lemma SignExtendMeaning(a: U64, n: nat, len: nat)
    requires 1 <= len <= 63 && n < Pow2(len)
    ensures Wrap(a + SignExtend64(n, len)) == Wrap(a + SInt(n, Pow2(len - 1)))
  {
    var h := Pow2(len - 1);
    assert Pow2(len) == 2 * h;
    OrHigh(n, len);
    hide Pow2, Or;
    if n >= h {
      DivModUnique(n, h, 1, n - h);
      WrapTurn(a + SInt(n, h));
    } else {
      DivModUnique(n, h, 0, n);
    }
  }

  lemma WrapTurn(a: int)
    ensures Wrap(a + TWO64) == Wrap(a)
  {
  }

  lemma TargetOfBranch(w: Word, a: U64)
    ensures Wrap(a + SignExtend64(4 * Bits32(w, 25, 0), 28)) == Wrap(a + Imm26(w))
    ensures Wrap(a + SignExtend64(4 * Bits32(w, 23, 5), 21)) == Wrap(a + Imm19(w))
    ensures Wrap(a + SignExtend64(4 * Bits32(w, 18, 5), 16)) == Wrap(a + Imm14(w))
  {
    hide Pow2, Bits32, SignExtend64, Wrap;
    FieldMeaning(w);
    Powers();
    SignExtendMeaning(a, 4 * Bits32(w, 25, 0), 28);
    SignExtendMeaning(a, 4 * Bits32(w, 23, 5), 21);
    SignExtendMeaning(a, 4 * Bits32(w, 18, 5), 16);
  }

  lemma TargetOfAdr(w: Word, a: U64)
    ensures Target(w, INST_ADR, a) == Wrap(a + ImmAdr(w))
    ensures Target(w, INST_ADRP, a) == Wrap(a - a % 4096 + ImmAdr(w) * 4096)
  {
    hide Pow2, Or, And, And64, Bits32, SignExtend64, Wrap;
    Powers();
    AdrOffset(w);
    SignExtendMeaning(a, AdrField(w), 21);
    SignExtendMeaning(a, 4096 * AdrField(w), 33);
    PageFloor(a + SInt(4096 * AdrField(w), Pow2(32)));
    PageOf(a, SInt(AdrField(w), 0x10_0000));
  }

  /** The shift-and-or arithmetic of the relocator computes the targets of the architecture. */
  lemma TargetMeaning(w: Word, a: U64)
    ensures Target(w, INST_B, a) == Target(w, INST_BL, a) == Wrap(a + Imm26(w))
    ensures Target(w, INST_BC, a) == Target(w, INST_CBZ, a) == Target(w, INST_CBNZ, a) == Wrap(a + Imm19(w))
    ensures Target(w, INST_TBZ, a) == Target(w, INST_TBNZ, a) == Wrap(a + Imm14(w))
    ensures Target(w, INST_ADR, a) == Wrap(a + ImmAdr(w))
    ensures Target(w, INST_ADRP, a) == Wrap(a - a % 4096 + ImmAdr(w) * 4096)
  {
    hide Pow2, Or, And, And64, Bits32, SignExtend64, Wrap, Imm26, Imm19, Imm14, ImmAdr;
    TargetOfBranch(w, a);
    TargetOfAdr(w, a);
  }

  /** The 21-bit immediate of ADR and ADRP. */
  function AdrField(w: Word): (n: nat)
    ensures n < 0x20_0000
  {
    4 * (w / 32 % 0x8_0000) + w / 0x2000_0000 % 4
  }

  lemma AdrOffset(w: Word)
    ensures Or(4 * Bits32(w, 23, 5), Bits32(w, 30, 29)) == AdrField(w)
    ensures Or(0x4000 * Bits32(w, 23, 5), 0x1000 * Bits32(w, 30, 29)) == 4096 * AdrField(w)
  {
    FieldMeaning(w);
    Powers();
    hide Or, Bits32;
    OrDisjoint(Bits32(w, 23, 5), 2, Bits32(w, 30, 29));
    OrDisjoint(Bits32(w, 23, 5), 14, 0x1000 * Bits32(w, 30, 29));
  }

  lemma PageFloor(t: int)
    ensures And64(Wrap(t), 0xFFFFFFFFFFFFF000) == Wrap(t) - Wrap(t) % 4096
  {
    Powers();
    hide And;
    AndField(Wrap(t), 12, 52);
  }

  lemma PageOf(a: U64, k: int)
    ensures Wrap(a + 4096 * k) - Wrap(a + 4096 * k) % 4096 == Wrap(a - a % 4096 + k * 4096)
  {
    var q, e := a / 4096, a % 4096;
    assert a == 4096 * q + e;
    PageWraps(q + k, e);
  }

  /** Wrapping around keeps the offset in the page. */
  lemma PageWraps(q: int, e: nat)
    requires e < 4096
    ensures Wrap(4096 * q + e) == Wrap(4096 * q) + e && Wrap(4096 * q + e) % 4096 == e
  {
    var t := TWO64 / 4096;
    var r := q % t;
    assert q == q / t * t + r;
    assert 4096 * q == q / t * TWO64 + 4096 * r;
    WrapAt(4096 * q, q / t, 4096 * r);
    WrapAt(4096 * q + e, q / t, 4096 * r + e);
  }

  lemma WrapAt(x: int, q: int, r: nat)
    requires x == q * TWO64 + r && r < TWO64
    ensures Wrap(x) == r
  {
  }

  /** relo_b */
  function CodeB(w: Word, ty: Word, to: U64): seq<Word> {
    (if ty == INST_BC then [Or32(And32(w, 0xFF00001F), 0x40), 0x14000006] else [])
    + [0x58000051, 0x14000003, LowWord(to), HighWord(to)]
    + (if ty == INST_BL then [0x1000001E, 0x910033DE] else [])
    + [0xD65F0220, NOP]
  }

  /** relo_adr */
  function CodeAdr(w: Word, to: U64): seq<Word> {
    [Or32(0x58000040, Register(w)), 0x14000003, LowWord(to), HighWord(to)]
  }

  /** relo_ldr */
  function CodeLdr(w: Word, ty: Word, to: U64): seq<Word> {
    var rt := Register(w);
    if ty == INST_LDR_32 || ty == INST_LDR_64 || ty == INST_LDRSW_LIT then
      var load: Word := if ty == INST_LDR_32 then 0xB9400000
                        else if ty == INST_LDR_64 then 0xF9400000 else 0xB9800000;
      [Or32(0x58000060, rt), Or32(Or32(load, rt), 32 * rt), 0x14000004, NOP, LowWord(to), HighWord(to)]
    else
      var load: Word := if ty == INST_PRFM_LIT then 0xF9800220 else if ty == INST_LDR_SIMD_32 then 0xBD400220
                        else if ty == INST_LDR_SIMD_64 then 0xFD400220 else 0x3DC00220;
      [0xA93F47F0, 0x58000091, Or32(load, rt), 0xF85F83F1, 0x14000004, NOP, LowWord(to), HighWord(to)]
  }

  /** relo_cb */
  function CodeCb(w: Word, to: U64): seq<Word> {
    [Or32(And32(w, 0xFF00001F), 0x40), 0x14000005, 0x58000051, 0xD65F0220, LowWord(to), HighWord(to)]
  }

  /** relo_tb */
  function CodeTb(w: Word, to: U64): seq<Word> {
    [Or32(And32(w, 0xFFF8001F), 0x40), 0x14000005, 0x58000051, 0xD61F0220, LowWord(to), HighWord(to)]
  }

  predicate IsLdrType(ty: Word) {
    || ty == INST_LDR_32 || ty == INST_LDR_64 || ty == INST_LDRSW_LIT || ty == INST_PRFM_LIT
    || ty == INST_LDR_SIMD_32 || ty == INST_LDR_SIMD_64 || ty == INST_LDR_SIMD_128
  }

  /** relocate_inst refuses ADRP and data loads that point into the words being moved. */
  predicate Refused(win: Window, w: Word, a: U64)
    requires win.Valid()
  {
    var ty := TypeOf(w);
    && InTramp(win, Target(w, ty, a))
    && (ty == INST_ADRP || (IsLdrType(ty) && ty != INST_PRFM_LIT))
  }

  /** relocate_inst: the words that replace `w`, taken from address `a`. */
  function Code(win: Window, w: Word, a: U64): (c: seq<Word>)
    requires win.Valid()
    ensures |c| == Len(w)
  {
    var ty := TypeOf(w);
    var to := Target(w, ty, a);
    if ty == INST_B || ty == INST_BC || ty == INST_BL then CodeB(w, ty, Fix(win, to))
    else if ty == INST_ADR || ty == INST_ADRP then CodeAdr(w, to)
    else if IsLdrType(ty) then CodeLdr(w, ty, Fix(win, to))
    else if ty == INST_CBZ || ty == INST_CBNZ then CodeCb(w, Fix(win, to))
    else if ty == INST_TBZ || ty == INST_TBNZ then CodeTb(w, Fix(win, to))
    else [w, NOP]
  }

  /** ret_absolute, the jump both the trampoline and the relocated code end with. */
  function JumpTo(to: U64): seq<Word> {
    [0x58000051, 0xD65F0220, LowWord(to), HighWord(to)]
  }

  /** The slots of the first k moved words, one after another. */
  function Slots(win: Window, k: nat): (c: seq<Word>)
    requires win.Valid() && k <= win.n
    ensures |c| == Pos(win.insts, k)
  {
    if k == 0 then []
    else Slots(win, k - 1) + Code(win, win.insts[k - 1], win.origin + 4 * (k - 1))
  }

  lemma FirstSlot(win: Window)
    requires win.Valid()
    ensures Pos(win.insts, 0) == 0 && Slots(win, 0) == []
  {
  }

  lemma NextSlot(win: Window, k: nat)
    requires win.Valid() && k < win.n
    ensures Pos(win.insts, k + 1) == Pos(win.insts, k) + Len(win.insts[k])
    ensures Slots(win, k + 1) == Slots(win, k) + Code(win, win.insts[k], win.origin + 4 * k)
  {
    hide Code, Len;
  }

  predicate AnyRefused(win: Window)
    requires win.Valid()
  {
    exists k: nat :: k < win.n && Refused(win, win.insts[k], win.origin + 4 * k)
  }

  /** The whole relocated function prefix, jump back included. */
  function Relocated(win: Window): seq<Word>
    requires win.Valid() && win.origin + 4 * win.n < TWO64
  {
    Slots(win, win.n) + JumpTo(win.origin + 4 * win.n)
  }

  // ---------- the hook object ----------

  datatype HookErr = NoErr | BadAddress | NoMem | BadRelo

  /** The instructions that start a landing pad or sign the return address are hints, by their numbers. */
  function Hint(n: nat): nat { 0xD503201F + 32 * n }

  lemma HintNumbers()
    ensures NOP == Hint(0) && PACIASP == Hint(25) && PACIBSP == Hint(27)
    ensures BTI_C == Hint(34) && BTI_J == Hint(36) && BTI_JC == Hint(38)
  {
  }

  /** The words of `s` from position `at` replaced by `code`. */
  function Splice(s: seq<Word>, at: nat, code: seq<Word>): seq<Word>
    requires at + |code| <= |s|
  {
    s[..at] + code + s[at + |code|..]
  }

  lemma SpliceTwice(s: seq<Word>, c: seq<Word>, d: seq<Word>)
    requires |c| + |d| <= |s|
    ensures Splice(Splice(s, 0, c), |c|, d) == Splice(s, 0, c + d)
  {
  }

  lemma SpliceNothing(s: seq<Word>, at: nat)
    requires at <= |s|
    ensures Splice(s, at, []) == s
  {
  }

  predicate BadAddr(a: U64) { a < 0x8000_0000_0000_0000 }

  /** An address is bad if its top bit is clear. */
  lemma BadAddrBit(a: U64)
    ensures BadAddr(a) <==> And64(a, 0x8000_0000_0000_0000) != 0x8000_0000_0000_0000
  {
    hide And, Pow2;
    TopPower();
    AndField(a, 63, 1);
  }

  lemma TopPower()
    ensures Pow2(63) == 0x8000_0000_0000_0000 && Pow2(1) == 2
  {
    Powers();
    assert Pow2(64) == 2 * Pow2(63);
  }

  /** The words `hook_prepare` saves from the function entry. */
  function Saved(text: Text, origin: U64): (s: seq<Word>)
    requires origin + 4 * TRAMPOLINE_MAX_NUM <= TWO64
    ensures |s| == TRAMPOLINE_MAX_NUM
  {
    seq(TRAMPOLINE_MAX_NUM, i requires 0 <= i < TRAMPOLINE_MAX_NUM => text(origin + 4 * i))
  }

  predicate SignsReturn(w: Word) { w == PACIASP || w == PACIBSP }

  /** The words that overwrite the entry. */
  function Trampoline(first: Word, replace: U64): (t: seq<Word>)
    ensures |t| == TrampLen(first)
  {
    (if SignsReturn(first) then [BTI_JC] else []) + JumpTo(replace)
  }

  function TrampLen(first: Word): (n: nat)
    ensures 4 <= n <= 5
  {
    if SignsReturn(first) then 5 else 4
  }

  /** The relocated words and the jump back fit the buffer. */
  predicate Room(insts: seq<Word>)
    requires |insts| == TRAMPOLINE_MAX_NUM
  {
    Pos(insts, TrampLen(insts[0])) + 4 <= RELOCATE_INST_NUM
  }

  /** `ws` written over `text` from address `at`. */
  function Overlay(text: Text, at: U64, ws: seq<Word>): Text {
    (a: U64) => if at <= a < at + 4 * |ws| && (a - at) % 4 == 0 then ws[(a - at) / 4] else text(a)
  }

  /** Kernel text, written one word at a time. */
  class KernelText {
    var words: Text

    constructor (words: Text)
      ensures this.words == words
    {
      this.words := words;
    }

    method Store(at: U64, w: Word)
      modifies this
      ensures forall a: U64 :: words(a) == if a == at then w else old(words)(a)
    {
      var was := words;
      words := (a: U64) => if a == at then w else was(a);
    }
  }

  class Hook {
    var funcAddr: U64
    var originAddr: U64
    var replaceAddr: U64
    var reloAddr: U64
    var trampNum: nat
    var reloNum: nat
    const originInsts: array<Word>
    const trampInsts: array<Word>
    const reloInsts: array<Word>

    ghost predicate Valid()
      reads this, originInsts, trampInsts, reloInsts
    {
      && originInsts.Length == trampInsts.Length == TRAMPOLINE_MAX_NUM
      && reloInsts.Length == RELOCATE_INST_NUM
      && originInsts != trampInsts && originInsts != reloInsts && trampInsts != reloInsts
      && trampNum <= TRAMPOLINE_MAX_NUM && reloNum <= RELOCATE_INST_NUM
      && originAddr + 4 * TRAMPOLINE_MAX_NUM <= TWO64 && reloAddr + 4 * RELOCATE_INST_NUM <= TWO64
    }

    ghost function Win(): (win: Window)
      reads this, originInsts, trampInsts, reloInsts
      requires Valid()
      ensures win.Valid()
    {
      Window(originAddr, reloAddr, originInsts[..], trampNum)
    }

    constructor (func: U64, origin: U64, replace: U64, relo: U64)
      requires origin + 4 * TRAMPOLINE_MAX_NUM <= TWO64 && relo + 4 * RELOCATE_INST_NUM <= TWO64
      ensures Valid() && fresh(originInsts) && fresh(trampInsts) && fresh(reloInsts)
      ensures funcAddr == func && originAddr == origin && replaceAddr == replace && reloAddr == relo
    {
      funcAddr, originAddr, replaceAddr, reloAddr := func, origin, replace, relo;
      trampNum, reloNum := 0, 0;
      originInsts := new Word[TRAMPOLINE_MAX_NUM](i => 0);
      trampInsts := new Word[TRAMPOLINE_MAX_NUM](i => 0);
      reloInsts := new Word[RELOCATE_INST_NUM](i => 0);
    }

    method ReloInTramp(addr: U64) returns (fixAddr: U64)
      requires Valid()
      ensures fixAddr == Fix(Win(), addr)
    {
      hide Len, Pos;
      var start, end := originAddr, originAddr + 4 * trampNum;
      if !(addr >= start && addr < end) {
        return addr;
      }
      var index := (addr - start) / 4;
      fixAddr := reloAddr;
      FirstPos(originInsts[..]);
      for i := 0 to index
        invariant fixAddr == Wrap(reloAddr + 4 * Pos(originInsts[..], i))
      {
        var j := FindRow(originInsts[i]);
        NextPos(originInsts[..], i, reloAddr);
        fixAddr := Wrap(fixAddr + RELO_LEN[j] * 4);
      }
    }

    /** buf[idx++] = w; `done` records what the emitter has written so far over the buffer `was`. */
    method Put(ghost was: seq<Word>, ghost done: seq<Word>, idx: nat, w: Word) returns (next: nat, ghost now: seq<Word>)
      requires idx == reloNum + |done| < |was| && |was| == reloInsts.Length
      requires reloInsts[..] == Splice(was, reloNum, done)
      modifies reloInsts
      ensures next == idx + 1 && now == done + [w]
      ensures reloInsts[..] == Splice(was, reloNum, now)
    {
      reloInsts[idx] := w;
      next, now := idx + 1, done + [w];
    }

    method ReloB(instAddr: U64, inst: Word, ty: Word)
      requires Valid() && (ty == INST_B || ty == INST_BC || ty == INST_BL)
      requires reloNum + LenOfType(ty) <= RELOCATE_INST_NUM
      modifies reloInsts
      ensures reloInsts[..] == Splice(old(reloInsts[..]), reloNum, CodeB(inst, ty, Fix(Win(), Target(inst, ty, instAddr))))
    {
      hide Pos, Target, Fix, Or32, And32, LowWord, HighWord, Splice;
      var addr := ReloInTramp(Target(inst, ty, instAddr));
      var idx := reloNum;
      ghost var was, code := reloInsts[..], [];
      SpliceNothing(was, idx);
      if ty == INST_BC {
        idx, code := Put(was, code, idx, Or32(And32(inst, 0xFF00001F), 0x40)); // B.<cond> #8
        idx, code := Put(was, code, idx, 0x14000006); // B #24
      }
      ghost var head := code;
      assert head == if ty == INST_BC then [Or32(And32(inst, 0xFF00001F), 0x40), 0x14000006] else [];
      idx, code := Put(was, code, idx, 0x58000051); // LDR X17, #8
      idx, code := Put(was, code, idx, 0x14000003); // B #12
      idx, code := Put(was, code, idx, LowWord(addr));
      idx, code := Put(was, code, idx, HighWord(addr));
      ghost var body := head + [0x58000051, 0x14000003, LowWord(addr), HighWord(addr)];
      assert code == body;
      if ty == INST_BL {
        idx, code := Put(was, code, idx, 0x1000001E); // ADR X30, .
        idx, code := Put(was, code, idx, 0x910033DE); // ADD X30, X30, #12
        idx, code := Put(was, code, idx, 0xD65F0220); // RET X17
        assert code == body + [0x1000001E, 0x910033DE] + [0xD65F0220];
      } else {
        idx, code := Put(was, code, idx, 0xD65F0220); // RET X17
      }
      idx, code := Put(was, code, idx, NOP);
      assert code == CodeB(inst, ty, addr);
    }

    method ReloAdr(instAddr: U64, inst: Word, ty: Word) returns (rc: HookErr)
      requires Valid() && (ty == INST_ADR || ty == INST_ADRP) && reloNum + 4 <= RELOCATE_INST_NUM
      modifies reloInsts
      ensures rc == if ty == INST_ADRP && InTramp(Win(), Target(inst, ty, instAddr)) then BadRelo else NoErr
      ensures rc == NoErr ==>
        reloInsts[..] == Splice(old(reloInsts[..]), reloNum, CodeAdr(inst, Target(inst, ty, instAddr)))
    {
      hide Target, Fix, Or32, And32, LowWord, HighWord, Splice;
      var addr := Target(inst, ty, instAddr);
      if ty == INST_ADRP && originAddr <= addr < originAddr + 4 * trampNum {
        return BadRelo;
      }
      var idx := reloNum;
      ghost var was, code := reloInsts[..], [];
      SpliceNothing(was, idx);
      idx, code := Put(was, code, idx, Or32(0x58000040, Register(inst))); // LDR Xd, #8
      idx, code := Put(was, code, idx, 0x14000003); // B #12
      idx, code := Put(was, code, idx, LowWord(addr));
      idx, code := Put(was, code, idx, HighWord(addr));
      assert code == CodeAdr(inst, addr);
      return NoErr;
    }

    method ReloLdr(instAddr: U64, inst: Word, ty: Word) returns (rc: HookErr)
      requires Valid() && IsLdrType(ty) && reloNum + LenOfType(ty) <= RELOCATE_INST_NUM
      modifies reloInsts
      ensures rc == if ty != INST_PRFM_LIT && InTramp(Win(), Target(inst, ty, instAddr)) then BadRelo else NoErr
      ensures rc == NoErr ==>
        reloInsts[..] == Splice(old(reloInsts[..]), reloNum, CodeLdr(inst, ty, Fix(Win(), Target(inst, ty, instAddr))))
    {
      hide Target, Fix, Or32, LowWord, HighWord, Splice;
      var rt := Register(inst);
      var addr := Target(inst, ty, instAddr);
      if ty != INST_PRFM_LIT && originAddr <= addr < originAddr + 4 * trampNum {
        return BadRelo;
      }
      addr := ReloInTramp(addr);
      if ty == INST_LDR_32 || ty == INST_LDR_64 || ty == INST_LDRSW_LIT {
        PutGeneralLoad(inst, ty, rt, addr);
      } else {
        PutVectorLoad(inst, ty, rt, addr);
      }
      return NoErr;
    }

    /** The branch of relo_ldr for general registers. */
    method PutGeneralLoad(ghost inst: Word, ty: Word, rt: Word, addr: U64)
      requires Valid() && rt == Register(inst) && reloNum + 6 <= RELOCATE_INST_NUM
      requires ty == INST_LDR_32 || ty == INST_LDR_64 || ty == INST_LDRSW_LIT
      modifies reloInsts
      ensures reloInsts[..] == Splice(old(reloInsts[..]), reloNum, CodeLdr(inst, ty, addr))
    {
      hide Or32, LowWord, HighWord, Splice;
      var idx := reloNum;
      ghost var was, code := reloInsts[..], [];
      SpliceNothing(was, idx);
      idx, code := Put(was, code, idx, Or32(0x58000060, rt)); // LDR Xt, #12
      if ty == INST_LDR_32 {
        idx, code := Put(was, code, idx, Or32(Or32(0xB9400000, rt), 32 * rt)); // LDR Wt, [Xt]
      } else if ty == INST_LDR_64 {
        idx, code := Put(was, code, idx, Or32(Or32(0xF9400000, rt), 32 * rt)); // LDR Xt, [Xt]
      } else {
        idx, code := Put(was, code, idx, Or32(Or32(0xB9800000, rt), 32 * rt)); // LDRSW Xt, [Xt]
      }
      idx, code := Put(was, code, idx, 0x14000004); // B #16
      idx, code := Put(was, code, idx, NOP);
      idx, code := Put(was, code, idx, LowWord(addr));
      idx, code := Put(was, code, idx, HighWord(addr));
      assert code == CodeLdr(inst, ty, addr);
    }

    /** The branch of relo_ldr for vector registers and prefetch. */
    method PutVectorLoad(ghost inst: Word, ty: Word, rt: Word, addr: U64)
      requires Valid() && rt == Register(inst) && reloNum + 8 <= RELOCATE_INST_NUM && IsLdrType(ty)
      requires ty != INST_LDR_32 && ty != INST_LDR_64 && ty != INST_LDRSW_LIT
      modifies reloInsts
      ensures reloInsts[..] == Splice(old(reloInsts[..]), reloNum, CodeLdr(inst, ty, addr))
    {
      hide Or32, LowWord, HighWord, Splice;
      var idx := reloNum;
      ghost var was, code := reloInsts[..], [];
      SpliceNothing(was, idx);
      // PRFM Rt, LDR St, LDR Dt or LDR Qt, [X17]
      var load: Word := if ty == INST_PRFM_LIT then 0xF9800220 else if ty == INST_LDR_SIMD_32 then 0xBD400220
                        else if ty == INST_LDR_SIMD_64 then 0xFD400220 else 0x3DC00220;
      idx, code := Put(was, code, idx, 0xA93F47F0); // STP X16, X17, [SP, -0x10]
      idx, code := Put(was, code, idx, 0x58000091); // LDR X17, #16
      idx, code := Put(was, code, idx, Or32(load, rt));
      idx, code := Put(was, code, idx, 0xF85F83F1); // LDR X17, [SP, -0x8]
      ghost var head: seq<Word> := [0xA93F47F0, 0x58000091, Or32(load, rt), 0xF85F83F1];
      assert code == head;
      idx, code := Put(was, code, idx, 0x14000004); // B #16
      idx, code := Put(was, code, idx, NOP);
      idx, code := Put(was, code, idx, LowWord(addr));
      idx, code := Put(was, code, idx, HighWord(addr));
      assert code == head + [0x14000004, NOP, LowWord(addr), HighWord(addr)];
      assert code == CodeLdr(inst, ty, addr);
    }

    method ReloCb(instAddr: U64, inst: Word, ty: Word)
      requires Valid() && (ty == INST_CBZ || ty == INST_CBNZ) && reloNum + 6 <= RELOCATE_INST_NUM
      modifies reloInsts
      ensures reloInsts[..] == Splice(old(reloInsts[..]), reloNum, CodeCb(inst, Fix(Win(), Target(inst, ty, instAddr))))
    {
      hide Target, Fix, Or32, And32, LowWord, HighWord, Splice;
      var addr := ReloInTramp(Target(inst, ty, instAddr));
      var idx := reloNum;
      ghost var was, code := reloInsts[..], [];
      SpliceNothing(was, idx);
      idx, code := Put(was, code, idx, Or32(And32(inst, 0xFF00001F), 0x40)); // CB(N)Z Rt, #8
      idx, code := Put(was, code, idx, 0x14000005); // B #20
      idx, code := Put(was, code, idx, 0x58000051); // LDR X17, #8
      idx, code := Put(was, code, idx, 0xD65F0220); // RET X17
      idx, code := Put(was, code, idx, LowWord(addr));
      idx, code := Put(was, code, idx, HighWord(addr));
      assert code == CodeCb(inst, addr);
    }

    method ReloTb(instAddr: U64, inst: Word, ty: Word)
      requires Valid() && (ty == INST_TBZ || ty == INST_TBNZ) && reloNum + 6 <= RELOCATE_INST_NUM
      modifies reloInsts
      ensures reloInsts[..] == Splice(old(reloInsts[..]), reloNum, CodeTb(inst, Fix(Win(), Target(inst, ty, instAddr))))
    {
      hide Target, Fix, Or32, And32, LowWord, HighWord, Splice;
      var addr := ReloInTramp(Target(inst, ty, instAddr));
      var idx := reloNum;
      ghost var was, code := reloInsts[..], [];
      SpliceNothing(was, idx);
      idx, code := Put(was, code, idx, Or32(And32(inst, 0xFFF8001F), 0x40)); // TB(N)Z Rt, #<imm>, #8
      idx, code := Put(was, code, idx, 0x14000005); // B #20
      idx, code := Put(was, code, idx, 0x58000051); // LDR X17, #8
      idx, code := Put(was, code, idx, 0xD61F0220); // BR X17
      idx, code := Put(was, code, idx, LowWord(addr));
      idx, code := Put(was, code, idx, HighWord(addr));
      assert code == CodeTb(inst, addr);
    }

    method ReloIgnore(inst: Word)
      requires Valid() && reloNum + 2 <= RELOCATE_INST_NUM
      modifies reloInsts
      ensures reloInsts[..] == Splice(old(reloInsts[..]), reloNum, [inst, NOP])
    {
      reloInsts[reloNum] := inst;
      reloInsts[reloNum + 1] := NOP;
    }

    method RelocateInst(instAddr: U64, inst: Word) returns (rc: HookErr)
      requires Valid() && reloNum + Len(inst) <= RELOCATE_INST_NUM
      modifies this`reloNum, reloInsts
      ensures Valid() && Win() == old(Win()) && reloNum == old(reloNum) + Len(inst)
      ensures rc == if Refused(Win(), inst, instAddr) then BadRelo else NoErr
      ensures rc == NoErr ==>
        reloInsts[..] == Splice(old(reloInsts[..]), old(reloNum), Code(Win(), inst, instAddr))
    {
      hide TypeOf, Target, Fix, CodeB, CodeAdr, CodeLdr, CodeCb, CodeTb, Splice, InTramp, LenOfType;
      rc := NoErr;
      var j := FindRow(inst);
      var it, len := TYPES[j], RELO_LEN[j];
      if it == INST_B || it == INST_BC || it == INST_BL {
        ReloB(instAddr, inst, it);
      } else if it == INST_ADR || it == INST_ADRP {
        rc := ReloAdr(instAddr, inst, it);
      } else if IsLdrType(it) {
        rc := ReloLdr(instAddr, inst, it);
      } else if it == INST_CBZ || it == INST_CBNZ {
        ReloCb(instAddr, inst, it);
      } else if it == INST_TBZ || it == INST_TBNZ {
        ReloTb(instAddr, inst, it);
      } else {
        ReloIgnore(inst);
      }
      reloNum := reloNum + len;
    }

    /** branch_from_to, which always emits the absolute form. */
    method JumpAt(buf: array<Word>, at: nat, to: U64)
      requires at + 4 <= buf.Length
      modifies buf
      ensures buf[..] == Splice(old(buf[..]), at, JumpTo(to))
    {
      buf[at] := 0x58000051; // LDR X17, #8
      buf[at + 1] := 0xD65F0220; // RET X17
      buf[at + 2] := LowWord(to);
      buf[at + 3] := HighWord(to);
    }

    method HookPrepare(text: Text) returns (rc: HookErr)
      requires Valid() && Room(Saved(text, originAddr))
      modifies this`trampNum, this`reloNum, originInsts, trampInsts, reloInsts
      ensures Valid() && rc != NoMem
      ensures rc == BadAddress <==>
        BadAddr(funcAddr) || BadAddr(originAddr) || BadAddr(replaceAddr) || BadAddr(reloAddr)
      ensures rc != BadAddress ==>
        && originInsts[..] == Saved(text, originAddr)
        && trampNum == TrampLen(originInsts[0])
        && trampInsts[..trampNum] == Trampoline(originInsts[0], replaceAddr)
        && (rc == BadRelo <==> AnyRefused(Win()))
      ensures rc == NoErr ==>
        && reloNum == |Relocated(Win())|
        && reloInsts[..] == Relocated(Win()) + seq(RELOCATE_INST_NUM - reloNum, i => NOP)
    {
      hide TypeOf, Refused, Code, Len, Pos, Slots, BadAddr, Trampoline, Saved, JumpTo, AnyRefused, Relocated;
      if BadAddr(funcAddr) { return BadAddress; }
      if BadAddr(originAddr) { return BadAddress; }
      if BadAddr(replaceAddr) { return BadAddress; }
      if BadAddr(reloAddr) { return BadAddress; }

      Backup(text);
      MakeTrampoline();
      ClearReloc();
      reloNum := 0;
      rc := RelocateWindow();
    }

    /** The relocation of the window and the jump back. */
    method RelocateWindow() returns (rc: HookErr)
      requires Valid() && trampNum < TRAMPOLINE_MAX_NUM && reloNum == 0
      requires Pos(originInsts[..], trampNum) + 4 <= RELOCATE_INST_NUM
      requires reloInsts[..] == seq(RELOCATE_INST_NUM, i => NOP)
      modifies this`reloNum, reloInsts
      ensures Valid() && (rc == NoErr || rc == BadRelo)
      ensures rc == BadRelo <==> AnyRefused(Win())
      ensures rc == NoErr ==>
        && reloNum == |Relocated(Win())|
        && reloInsts[..] == Relocated(Win()) + seq(RELOCATE_INST_NUM - reloNum, i => NOP)
    {
      hide TypeOf, Refused, Code, Len, Pos, Slots;
      rc := RelocateAll();
      if rc == BadRelo {
        return BadRelo;
      }
      ghost var done := Slots(Win(), trampNum);
      // jump back
      var back := originAddr + trampNum * 4;
      JumpAt(reloInsts, reloNum, back);
      SpliceTwice(seq(RELOCATE_INST_NUM, i => NOP), done, JumpTo(back));
      reloNum := reloNum + 4;
    }

    /** The loop of hook_prepare that fills the buffer. */
    method ClearReloc()
      requires Valid()
      modifies reloInsts
      ensures reloInsts[..] == seq(RELOCATE_INST_NUM, i => NOP)
    {
      for i := 0 to RELOCATE_INST_NUM
        invariant forall k :: 0 <= k < i ==> reloInsts[k] == NOP
      {
        reloInsts[i] := NOP;
      }
    }

    /** The backup loop of hook_prepare. */
    method Backup(text: Text)
      requires Valid()
      modifies originInsts
      ensures originInsts[..] == Saved(text, originAddr)
    {
      for i := 0 to TRAMPOLINE_MAX_NUM
        invariant originInsts[..i] == Saved(text, originAddr)[..i]
      {
        originInsts[i] := text(originAddr + 4 * i);
      }
    }

    /** The jump to the replacement; a signed entry keeps a landing pad in front of it. */
    method MakeTrampoline()
      requires Valid()
      modifies this`trampNum, trampInsts
      ensures Valid() && trampNum == TrampLen(originInsts[0])
      ensures trampInsts[..trampNum] == Trampoline(originInsts[0], replaceAddr)
    {
      if originInsts[0] == PACIASP || originInsts[0] == PACIBSP {
        JumpAt(trampInsts, 1, replaceAddr);
        trampInsts[0] := BTI_JC;
        trampNum := 5;
      } else {
        JumpAt(trampInsts, 0, replaceAddr);
        trampNum := 4;
      }
    }

    /** The relocation loop of hook_prepare over a buffer of NOPs. */
    method RelocateAll() returns (rc: HookErr)
      requires Valid() && trampNum < TRAMPOLINE_MAX_NUM && reloNum == 0
      requires Pos(originInsts[..], trampNum) + 4 <= RELOCATE_INST_NUM
      requires reloInsts[..] == seq(RELOCATE_INST_NUM, i => NOP)
      modifies this`reloNum, reloInsts
      ensures Valid() && (rc == NoErr || rc == BadRelo)
      ensures rc == BadRelo <==> AnyRefused(Win())
      ensures rc == NoErr ==>
        && reloNum == Pos(originInsts[..], trampNum)
        && reloInsts[..] == Splice(seq(RELOCATE_INST_NUM, i => NOP), 0, Slots(Win(), trampNum))
    {
      hide TypeOf, Refused, Code, Splice, Len, Pos, Slots;
      ghost var win := Win();
      FirstSlot(win);
      SpliceNothing(reloInsts[..], 0);
      ghost var blank := seq(RELOCATE_INST_NUM, i => NOP);
      var i := 0;
      while i < trampNum
        invariant i <= trampNum && Valid() && reloNum == Pos(originInsts[..], i)
        invariant reloInsts[..] == Splice(blank, 0, Slots(Win(), i))
        invariant Win() == win
        invariant forall k: nat :: k < i ==> !Refused(win, win.insts[k], win.origin + 4 * k)
      {
        PosMonotone(win.insts, i + 1, trampNum);
        NextSlot(win, i);
        rc := RelocateInst(originAddr + i * 4, originInsts[i]);
        if rc == BadRelo {
          return BadRelo;
        }
        SpliceTwice(blank, Slots(win, i), Code(win, win.insts[i], win.origin + 4 * i));
        i := i + 1;
      }
      rc := NoErr;
    }

    /** hook_install, between the two page-protection changes. */
    method HookInstall(mem: KernelText)
      requires Valid() && originAddr + 4 * trampNum <= TWO64
      modifies mem
      ensures forall a: U64 :: mem.words(a) == Overlay(old(mem.words), originAddr, trampInsts[..trampNum])(a)
    {
      for i := 0 to trampNum
        invariant forall a: U64 :: mem.words(a) == Overlay(old(mem.words), originAddr, trampInsts[..i])(a)
      {
        mem.Store(originAddr + 4 * i, trampInsts[i]);
      }
    }

    /** hook_uninstall, between the two page-protection changes. */
    method HookUninstall(mem: KernelText)
      requires Valid() && originAddr + 4 * trampNum <= TWO64
      modifies mem
      ensures forall a: U64 :: mem.words(a) == Overlay(old(mem.words), originAddr, originInsts[..trampNum])(a)
    {
      for i := 0 to trampNum
        invariant forall a: U64 :: mem.words(a) == Overlay(old(mem.words), originAddr, originInsts[..i])(a)
      {
        mem.Store(originAddr + 4 * i, originInsts[i]);
      }
    }
  }

  lemma {:induction false} PosMonotone(insts: seq<Word>, i: nat, j: nat)
    requires i <= j <= |insts|
    ensures Pos(insts, i) + 2 * (j - i) <= Pos(insts, j) <= Pos(insts, i) + 8 * (j - i)
    decreases j
  {
    if i < j {
      PosMonotone(insts, i, j - 1);
    }
  }

  lemma SignedLen(w: Word)
    requires SignsReturn(w)
    ensures Len(w) == 2
  {
  }

  /** With a four-word trampoline the relocated code and the jump back always fit the buffer.  An
      entry that signs the return address takes a five-word trampoline, and then it fits exactly
      when the four words after the first need no more than thirty. */
  lemma RoomExactly(insts: seq<Word>)
    requires |insts| == TRAMPOLINE_MAX_NUM
    ensures !SignsReturn(insts[0]) ==> Room(insts)
    ensures SignsReturn(insts[0]) ==>
      (Room(insts) <==> Len(insts[1]) + Len(insts[2]) + Len(insts[3]) + Len(insts[4]) <= 30)
  {
    if SignsReturn(insts[0]) {
      SignedLen(insts[0]);
    }
    hide Len;
    PosMonotone(insts, 0, 4);
    assert Pos(insts, 5) == Pos(insts, 4) + Len(insts[4]);
    assert Pos(insts, 4) == Pos(insts, 3) + Len(insts[3]);
    assert Pos(insts, 3) == Pos(insts, 2) + Len(insts[2]);
    assert Pos(insts, 2) == Pos(insts, 1) + Len(insts[1]);
    assert Pos(insts, 1) == Pos(insts, 0) + Len(insts[0]);
  }

  /** Such an entry followed by four calls does not fit. */
  lemma SignedEntryOverflows(insts: seq<Word>)
    requires insts == [PACIASP, INST_BL, INST_BL, INST_BL, INST_BL, NOP]
    ensures !Room(insts)
  {
    RoomExactly(insts);
  }
}
