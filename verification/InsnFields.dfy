/** Immediate fields of A64 instruction words, and branch displacements. */
module InsnFields {
  import opened Bits
  import opened A64
  import opened Options

  const BREAK_FAULT: Word := 0xD420_2000

  datatype ImmType = Imm26Bits | Imm19Bits | Imm16Bits | Imm14Bits | Imm12Bits | Imm9Bits | Imm7Bits | ImmS | ImmR | ImmN

  function ShiftOf(t: ImmType): nat {
    match t
    case Imm26Bits => 0
    case Imm12Bits => 10
    case Imm9Bits => 12
    case Imm7Bits => 15
    case ImmS => 10
    case ImmR => 16
    case ImmN => 22
    case _ => 5
  }

  function WidthOf(t: ImmType): nat {
    match t
    case Imm26Bits => 26
    case Imm19Bits => 19
    case Imm16Bits => 16
    case Imm14Bits => 14
    case Imm12Bits => 12
    case Imm9Bits => 9
    case Imm7Bits => 7
    case ImmS => 6
    case ImmR => 6
    case ImmN => 1
  }

  // ---------- one field ----------

  function Field(w: nat, s: nat, n: nat): nat { w / Pow2(s) % Pow2(n) }

  /** insn & ~(mask << shift) | (imm & mask) << shift */
  function SetField(w: nat, s: nat, n: nat, imm: nat): nat
    requires s + n <= 32
  {
    MaskFits(s, n);
    Or(And(w, TWO32 - 1 - (Pow2(n) - 1) * Pow2(s)), And(imm, Pow2(n) - 1) * Pow2(s))
  }

  lemma MaskFits(s: nat, n: nat)
    requires s + n <= 32
    ensures 0 <= (Pow2(n) - 1) * Pow2(s) <= TWO32 - 1
  {
    hide Pow2;
    FieldBound(s, n, 32);
    WordSize();
    Nonnegative(Pow2(n) - 1, Pow2(s));
  }

  lemma WordSize()
    ensures Pow2(32) == TWO32
  {
    Powers();
  }

  /** What lies above a place, and below it. */
  function Top(w: nat, hi: nat): nat { Quotient(w, Pow2(hi)) }

  function Low(w: nat, lo: nat): nat { Remainder(w, Pow2(lo)) }

  /** The new value above what lies below the field. */
  function Rest(w: nat, s: nat, n: nat, imm: nat): nat { Times(Low(imm, n), Pow2(s)) + Low(w, s) }

  /** The word is what lies above the field, the new value, and what lies below. */
  lemma SetFieldParts(w: Word, s: nat, n: nat, imm: nat)
    requires s + n <= 32
    ensures SetField(w, s, n, imm) == Top(w, s + n) * Pow2(s + n) + Rest(w, s, n, imm)
    ensures Rest(w, s, n, imm) < Pow2(s + n)
  {
    ClearedField(w, s, n);
    AndLow(imm, n);
    Within(imm, n, w, s);
    hide And, Or, Pow2, Top, Low;
    SplitWord(Top(w, s + n), s + n, Low(imm, n), s, Low(w, s));
  }

  lemma Within(imm: nat, n: nat, w: nat, s: nat)
    ensures Low(w, s) < Pow2(s) && Low(imm, n) < Pow2(n)
    ensures Low(imm, n) * Pow2(s) + Low(w, s) < Pow2(s + n)
  {
    hide Pow2;
    Pow2Add(s, n);
    Below(imm % Pow2(n), Pow2(n), Pow2(s));
  }

  /** Or-ing a value into a cleared field. */
  lemma SplitWord(top: nat, hi: nat, v: nat, s: nat, low: nat)
    requires low < Pow2(s) && v * Pow2(s) + low < Pow2(hi)
    ensures Or(top * Pow2(hi) + low, v * Pow2(s)) == top * Pow2(hi) + (v * Pow2(s) + low)
  {
    hide Or, Pow2;
    OrSplit(hi, top, low, 0, v * Pow2(s));
    OrZero(top);
    OrDisjoint(v, s, low);
  }

  lemma ClearedField(w: Word, s: nat, n: nat)
    requires s + n <= 32
    ensures (Pow2(n) - 1) * Pow2(s) <= TWO32 - 1
    ensures And(w, TWO32 - 1 - (Pow2(n) - 1) * Pow2(s)) == Top(w, s + n) * Pow2(s + n) + Low(w, s)
  {
    hide And, Pow2;
    Powers();
    FieldBound(s, n, 32);
    MaskOf(s, n);
    AndTwoFields(w, s + n, 32 - (s + n), 0, s);
    TopField(w, s + n);
  }

  lemma MaskOf(s: nat, n: nat)
    requires s + n <= 32
    ensures TWO32 - 1 - (Pow2(n) - 1) * Pow2(s) == (Pow2(32 - (s + n)) - 1) * Pow2(s + n) + (Pow2(s) - 1) * Pow2(0)
  {
    hide Pow2;
    Powers();
    Pow2Add(s, n);
    Pow2Add(32 - (s + n), s + n);
    MaskSum(Pow2(s), Pow2(n), Pow2(32 - (s + n)), Pow2(s + n));
  }

  lemma MaskSum(p: nat, q: nat, h: nat, pq: nat)
    requires p > 0 && q > 0 && h > 0 && pq == p * q && h * pq == TWO32
    ensures TWO32 - 1 - (q - 1) * p == (h - 1) * pq + (p - 1)
  {
    Distribute(q, -1, p);
    Distribute(h, -1, pq);
    assert q * p == p * q;
  }

  lemma TopField(w: Word, hi: nat)
    requires hi <= 32
    ensures w / Pow2(hi) % Pow2(32 - hi) == w / Pow2(hi)
    ensures w / Pow2(0) == w
  {
    hide Pow2;
    Powers();
    TopBelow(w, hi);
    DivModUnique(w / Pow2(hi), Pow2(32 - hi), 0, w / Pow2(hi));
  }

  lemma Below(v: nat, q: nat, p: nat)
    requires v < q && p > 0
    ensures v * p + p <= q * p
  {
    TimesMono(v + 1, q, p);
    Distribute(v, 1, p);
  }

  /** What was put in is read back, up to the width of the field. */
  lemma FieldReadsBack(w: Word, s: nat, n: nat, imm: nat)
    requires s + n <= 32
    ensures Field(SetField(w, s, n, imm), s, n) == imm % Pow2(n)
  {
    hide Pow2, SetField;
    SetFieldParts(w, s, n, imm);
    Within(imm, n, w, s);
    hide Top, Low;
    var p, q, v, top, low := Pow2(s), Pow2(n), Low(imm, n), Top(w, s + n), Low(w, s);
    assert v == imm % q by { LowIs(imm, n); }
    Pow2Add(s, n);
    Distribute(top * q, v, p);
    Regrouped(top, p, q);
    DivModUnique(SetField(w, s, n, imm), p, top * q + v, low);
    DivModUnique(top * q + v, q, top, v);
  }

  lemma LowIs(w: nat, lo: nat)
    ensures Low(w, lo) == w % Pow2(lo)
  {
  }

  lemma Regrouped(top: nat, p: nat, q: nat)
    ensures top * q * p == top * (p * q)
  {
  }

  /** Fields that lie below or above are not affected. */
  lemma OtherFieldStays(w: Word, s: nat, n: nat, imm: nat, t: nat, m: nat)
    requires s + n <= 32 && (t + m <= s || s + n <= t)
    ensures Field(SetField(w, s, n, imm), t, m) == Field(w, t, m)
  {
    hide Pow2, SetField;
    SetFieldParts(w, s, n, imm);
    var new_, p, q, v, hi := SetField(w, s, n, imm), Pow2(s), Pow2(n), imm % Pow2(n), s + n;
    Pow2Add(s, n);
    Below(v, q, p);
    Divide(w, Pow2(hi));
    if t + m <= s {
      Regrouped(w / Pow2(hi), p, q);
      Distribute(w / Pow2(hi) * q, v, p);
      DivModUnique(new_, p, w / Pow2(hi) * q + v, w % p);
      FieldOfLow(w, s, t, m);
      FieldOfLow(new_, s, t, m);
    } else {
      DivModUnique(new_, Pow2(hi), w / Pow2(hi), v * p + w % p);
      Pow2Add(hi, t - hi);
      DivTwice(w, Pow2(hi), Pow2(t - hi));
      DivTwice(new_, Pow2(hi), Pow2(t - hi));
    }
  }

  lemma SetFieldIsWord(w: Word, s: nat, n: nat, imm: nat)
    requires s + n <= 32
    ensures SetField(w, s, n, imm) < TWO32
  {
    hide Pow2, SetField, Top, Rest;
    SetFieldParts(w, s, n, imm);
    TopBelow(w, s + n);
    WordPower(s + n);
    InWord(Top(w, s + n), Pow2(32 - (s + n)), Pow2(s + n), Rest(w, s, n, imm));
  }

  lemma WordPower(hi: nat)
    requires hi <= 32
    ensures Pow2(32 - hi) * Pow2(hi) == TWO32
  {
    Powers();
    hide Pow2;
    Pow2Add(32 - hi, hi);
  }

  lemma InWord(top: nat, h: nat, p: nat, rest: nat)
    requires top < h && rest < p && h * p == TWO32
    ensures top * p + rest < TWO32
  {
    Below(top, h, p);
  }

  lemma TopBelow(w: Word, hi: nat)
    requires hi <= 32
    ensures w / Pow2(hi) < Pow2(32 - hi) && Top(w, hi) < Pow2(32 - hi)
  {
    hide Pow2;
    Powers();
    Pow2Add(32 - hi, hi);
    Divide(w, Pow2(hi));
    if w / Pow2(hi) >= Pow2(32 - hi) { TimesMono(Pow2(32 - hi), w / Pow2(hi), Pow2(hi)); }
  }

  // ---------- the library's encoder and decoder ----------

  function DecodeImmediate(t: ImmType, insn: Word): nat { Field(insn, ShiftOf(t), WidthOf(t)) }

  function EncodeImmediate(t: ImmType, insn: Word, imm: nat): Word {
    if insn == BREAK_FAULT then BREAK_FAULT
    else
      SetFieldIsWord(insn, ShiftOf(t), WidthOf(t), imm);
      SetField(insn, ShiftOf(t), WidthOf(t), imm)
  }

  /** An immediate that fits is read back from any word but the fault word, and no other field changes. */
  lemma ImmediateReadsBack(t: ImmType, insn: Word, imm: nat, s: nat, n: nat)
    requires insn != BREAK_FAULT && imm < Pow2(WidthOf(t))
    ensures DecodeImmediate(t, EncodeImmediate(t, insn, imm)) == imm
    ensures s + n <= ShiftOf(t) || ShiftOf(t) + WidthOf(t) <= s ==>
      Field(EncodeImmediate(t, insn, imm), s, n) == Field(insn, s, n)
  {
    hide Pow2, SetField, Field;
    FieldReadsBack(insn, ShiftOf(t), WidthOf(t), imm);
    DivModUnique(imm, Pow2(WidthOf(t)), 0, imm);
    if s + n <= ShiftOf(t) || ShiftOf(t) + WidthOf(t) <= s {
      OtherFieldStays(insn, ShiftOf(t), WidthOf(t), imm, s, n);
    }
  }

  // ---------- branch displacements ----------

  type S32 = x: int | -0x8000_0000 <= x < 0x8000_0000

  /** A 32-bit pattern as a signed number. */
  function Signed(n: nat): S32
    requires n < TWO32
  {
    if n < 0x8000_0000 then n else n - TWO32
  }

  /** The field of a branch class and the shifts that extend it: left k, right k - 2. */
  function BranchImm(insn: Word): Option<ImmType> {
    if IsB(insn) || IsBl(insn) then Some(Imm26Bits)
    else if IsCb(insn) || IsBc(insn) then Some(Imm19Bits)
    else if IsTb(insn) then Some(Imm14Bits)
    else None
  }

  /** aarch64_get_branch_offset; None is a BUG. */
  function GetBranchOffset(insn: Word): Option<int> {
    var t := BranchImm(insn);
    if t.None? then None
    else
      var imm := DecodeImmediate(t.value, insn);
      if t.value == Imm26Bits then Some(Signed(imm * 64 % TWO32) / 16)
      else if t.value == Imm19Bits then Some(Signed(imm * 0x2000 % TWO32) / 0x800)
      else Some(Signed(imm * 0x4_0000 % TWO32) / 0x1_0000)
  }

  /** aarch64_set_branch_offset; the arithmetic shift rounds down, and the result is widened with its sign. */
  function SetBranchOffset(insn: Word, offset: S32): Option<Word> {
    var t := BranchImm(insn);
    if t.None? then None else Some(EncodeImmediate(t.value, insn, offset / 4 % TWO64))
  }

  /** The shifts that extend a field of 26, 19 or 14 bits. */
  lemma Extended(imm: nat)
    ensures imm < 0x400_0000 ==> Signed(imm * 64 % TWO32) / 16 == 4 * SInt(imm, 0x200_0000)
    ensures imm < 0x8_0000 ==> Signed(imm * 0x2000 % TWO32) / 0x800 == 4 * SInt(imm, 0x4_0000)
    ensures imm < 0x4000 ==> Signed(imm * 0x4_0000 % TWO32) / 0x1_0000 == 4 * SInt(imm, 0x2000)
  {
  }

  /** The displacement read is the one the instruction has, by its class. */
  lemma OffsetMeaning(insn: Word)
    ensures IsB(insn) || IsBl(insn) ==> GetBranchOffset(insn) == Some(Imm26(insn))
    ensures IsCb(insn) || IsBc(insn) ==> GetBranchOffset(insn) == Some(Imm19(insn))
    ensures IsTb(insn) ==> GetBranchOffset(insn) == Some(Imm14(insn))
  {
    FieldValues(insn);
    Classes(insn);
    hide DecodeImmediate, Signed, SInt, IsB, IsBl, IsCb, IsBc, IsTb;
    Extended(insn % 0x400_0000);
    Extended(insn / 32 % 0x8_0000);
    Extended(insn / 32 % 0x4000);
  }

  lemma FieldValues(insn: Word)
    ensures DecodeImmediate(Imm26Bits, insn) == insn % 0x400_0000
    ensures DecodeImmediate(Imm19Bits, insn) == insn / 32 % 0x8_0000
    ensures DecodeImmediate(Imm14Bits, insn) == insn / 32 % 0x4000
  {
    hide Pow2;
    Powers();
  }

  /** The branch classes do not overlap. */
  lemma Classes(insn: Word)
    ensures IsB(insn) || IsBl(insn) ==> !IsCb(insn) && !IsBc(insn) && !IsTb(insn)
    ensures IsCb(insn) || IsBc(insn) ==> !IsTb(insn)
  {
    TopByte(insn);
  }

  function Limit(t: ImmType): int {
    if t == Imm26Bits then 0x800_0000 else if t == Imm19Bits then 0x10_0000 else 0x8000
  }

  const ADR_MASK: nat := 0x60FF_FFE0

  /** The two parts of the page displacement, each in its place. */
  function AdrBits(imm: nat): nat { Or(And(imm, 3) * 0x2000_0000, And(imm / 4, 0x7_FFFF) * 0x20) }

  /** aarch64_insn_adrp_set_offset: both parts are cleared by one mask and put in together. */
  function AdrpSetOffset(insn: Word, offset: S32): Word {
    if insn == BREAK_FAULT then BREAK_FAULT
    else
      var imm := offset / 0x1000 % TWO64;
      OneMask(insn, imm);
      SetFieldIsWord(insn, 29, 2, imm);
      SetFieldIsWord(SetField(insn, 29, 2, imm), 5, 19, imm / 4);
      Or(And(insn, TWO32 - 1 - ADR_MASK), And(AdrBits(imm), ADR_MASK))
  }

  /** The parts side by side, on either side of bit 24. */
  lemma AdrBitsAre(imm: nat)
    ensures AdrBits(imm) == imm % 4 * 0x20 * 0x100_0000 + imm / 4 % 0x8_0000 * 0x20
    ensures And(AdrBits(imm), ADR_MASK) == AdrBits(imm)
  {
    hide And, Or, Pow2;
    Powers();
    AndLow(imm, 2);
    AndLow(imm / 4, 19);
    var lo, hi := imm % 4, imm / 4 % 0x8_0000;
    OrDisjoint(lo * 0x20, 24, hi * 0x20);
    WholeMask(lo, hi);
  }

  lemma WholeMask(lo: nat, hi: nat)
    requires lo < 4 && hi < 0x8_0000
    ensures var x := lo * 0x2000_0000 + hi * 0x20; And(x, ADR_MASK) == x
  {
    hide And, Or, Pow2;
    Powers();
    AndTwoFields(lo * 0x2000_0000 + hi * 0x20, 29, 2, 5, 19);
    PartsBack(lo, hi);
  }

  lemma PartsBack(lo: nat, hi: nat)
    requires lo < 4 && hi < 0x8_0000
    ensures var x := lo * 0x2000_0000 + hi * 0x20; x / 0x2000_0000 % 4 == lo && x / 0x20 % 0x8_0000 == hi
  {
  }

  /** Setting both parts at once is setting them one after the other. */
  lemma OneMask(insn: Word, imm: nat)
    ensures Or(And(insn, TWO32 - 1 - ADR_MASK), And(AdrBits(imm), ADR_MASK))
         == SetField(SetField(insn, 29, 2, imm), 5, 19, imm / 4)
  {
    AdrBitsAre(imm);
    Powers();
    hide And, Or, Pow2, SetField, AdrBits;
    var x, y := insn / 0x100_0000, insn % 0x100_0000;
    var lo, hi := imm % 4 * 0x20, imm / 4 % 0x8_0000 * 0x20;
    var top, low := And(x, 0x9F), And(y, 0x1F);
    LowSet(insn, imm);
    AndBound(x, 0x9F);
    OrBound(top, lo, 8);
    HighSet(Or(top, lo), y, imm / 4);
    AndSplit(24, x, y, 0x9F, 0x1F);
    AndBound(y, 0x1F);
    OrSplit(24, top, low, lo, hi);
  }

  lemma SetFieldIs(w: nat, s: nat, n: nat, imm: nat, p: nat, q: nat)
    requires s + n <= 32 && p == Pow2(s) && q == Pow2(n)
    ensures (q - 1) * p < TWO32 && SetField(w, s, n, imm) == Or(And(w, TWO32 - 1 - (q - 1) * p), And(imm, q - 1) * p)
  {
    hide And, Or, Pow2;
    FieldBound(s, n, 32);
    Powers();
  }

  lemma LowSet(insn: Word, imm: nat)
    ensures SetField(insn, 29, 2, imm) == Or(And(insn / 0x100_0000, 0x9F), imm % 4 * 0x20) * 0x100_0000 + insn % 0x100_0000
  {
    hide And, Or, Pow2, SetField;
    Powers();
    SetFieldIs(insn, 29, 2, imm, 0x2000_0000, 4);
    AndLow(imm, 2);
    LowParts(insn / 0x100_0000, insn % 0x100_0000, imm % 4 * 0x20);
  }

  lemma LowParts(x: nat, y: nat, v: nat)
    requires y < 0x100_0000
    ensures Or(And(x * 0x100_0000 + y, 0x9FFF_FFFF), v * 0x100_0000) == Or(And(x, 0x9F), v) * 0x100_0000 + y
  {
    hide And, Or, Pow2;
    Powers();
    AndLow(y, 24);
    AndSplit(24, x, y, 0x9F, 0xFF_FFFF);
    OrSplit(24, And(x, 0x9F), y, v, 0);
    OrZero(y);
  }

  lemma HighSet(x: nat, y: nat, imm: nat)
    requires x < 0x100 && y < 0x100_0000
    ensures SetField(x * 0x100_0000 + y, 5, 19, imm) == x * 0x100_0000 + Or(And(y, 0x1F), imm % 0x8_0000 * 0x20)
  {
    hide And, Or, Pow2, SetField;
    Powers();
    SetFieldIs(x * 0x100_0000 + y, 5, 19, imm, 0x20, 0x8_0000);
    AndLow(imm, 19);
    HighParts(x, y, imm % 0x8_0000 * 0x20);
  }

  lemma HighParts(x: nat, y: nat, v: nat)
    requires x < 0x100 && y < 0x100_0000 && v < 0x100_0000
    ensures Or(And(x * 0x100_0000 + y, 0xFF00_001F), v) == x * 0x100_0000 + Or(And(y, 0x1F), v)
  {
    hide And, Or, Pow2;
    Powers();
    AndLow(x, 8);
    AndSplit(24, x, y, 0xFF, 0x1F);
    AndBound(y, 0x1F);
    OrSplit(24, x, And(y, 0x1F), 0, v);
    OrZero(x);
  }

  /** aarch64_insn_adrp_get_offset: the result is narrowed to a signed 32-bit number. */
  function AdrpGetOffset(insn: Word): int { Signed((Field(insn, 5, 19) * 4 + Field(insn, 29, 2)) * 0x1000 % TWO32) }

  lemma AdrpSetTwice(insn: Word, offset: S32)
    requires insn != BREAK_FAULT
    ensures var imm := offset / 0x1000 % TWO64;
      AdrpSetOffset(insn, offset) == SetField(SetField(insn, 29, 2, imm), 5, 19, imm / 4)
  {
    hide And, Or, SetField, AdrBits;
    OneMask(insn, offset / 0x1000 % TWO64);
  }

  /** Page displacements are read back, rounded down to a page, over the whole signed range. */
  lemma AdrpReadsBack(insn: Word, offset: S32)
    requires insn != BREAK_FAULT
    ensures AdrpGetOffset(AdrpSetOffset(insn, offset)) == offset - offset % 0x1000
  {
    hide Pow2, SetField, Field, AdrpSetOffset, Signed;
    AdrpSetTwice(insn, offset);
    PartsRead(insn, offset / 0x1000 % TWO64);
    PageDigits(offset / 0x1000);
  }

  lemma PartsRead(insn: Word, imm: nat)
    ensures var w := SetField(SetField(insn, 29, 2, imm), 5, 19, imm / 4);
      Field(w, 29, 2) == imm % 4 && Field(w, 5, 19) == imm / 4 % 0x8_0000
  {
    hide Pow2, SetField, Field;
    var w := SetField(insn, 29, 2, imm);
    SetFieldIsWord(insn, 29, 2, imm);
    SetFieldIsWord(w, 5, 19, imm / 4);
    FieldReadsBack(insn, 29, 2, imm);
    OtherFieldStays(w, 5, 19, imm / 4, 29, 2);
    FieldReadsBack(w, 5, 19, imm / 4);
    AdrWidths();
  }

  lemma AdrWidths()
    ensures Pow2(2) == 4 && Pow2(19) == 0x8_0000
  {
    Powers();
  }

  lemma PageDigits(x: int)
    requires -0x8_0000 <= x < 0x8_0000
    ensures var imm := x % TWO64; Signed((imm / 4 % 0x8_0000 * 4 + imm % 4) * 0x1000 % TWO32) == x * 0x1000
  {
    LowDigits(x % TWO64);
    ModMod(x, 0x20_0000, TWO64 / 0x20_0000);
    PageOffset(x, x % 0x20_0000);
  }

  lemma LowDigits(imm: nat)
    ensures imm / 4 % 0x8_0000 * 4 + imm % 4 == imm % 0x20_0000
  {
  }

  lemma PageOffset(x: int, low: nat)
    requires -0x8_0000 <= x < 0x8_0000 && low == if x >= 0 then x else x + 0x20_0000
    ensures Signed(low * 0x1000 % TWO32) == x * 0x1000
  {
  }

  lemma BranchWidths()
    ensures Pow2(26) == 0x400_0000 && Pow2(19) == 0x8_0000 && Pow2(14) == 0x4000
  {
    Powers();
  }

  /** A displacement is read back as it was set exactly if it is a multiple of four within the range of the branch. */
  lemma OffsetReadsBack(insn: Word, offset: S32)
    requires BranchImm(insn).Some? && insn != BREAK_FAULT
    ensures var t, set_ := BranchImm(insn).value, SetBranchOffset(insn, offset).value;
      BranchImm(set_) == Some(t)
      && (GetBranchOffset(set_) == Some(offset as int) <==> offset % 4 == 0 && -Limit(t) <= offset < Limit(t))
  {
    hide SetField, IsB, IsBl, IsCb, IsBc, IsTb, Signed, Field, BranchImm, Pow2, Extend, GetBranchOffset;
    var t := BranchImm(insn).value;
    var imm := offset / 4 % TWO64;
    SetKeepsClass(insn, t, imm);
    FieldReadsBack(insn, ShiftOf(t), WidthOf(t), imm);
    GetIs(EncodeImmediate(t, insn, imm));
    BranchTypes(insn);
    WidthSurvives(t, offset);
  }

  /** What is read from the field of each branch class. */
  function Extend(t: ImmType, imm: nat): int {
    if t == Imm26Bits then Signed(imm * 64 % TWO32) / 16
    else if t == Imm19Bits then Signed(imm * 0x2000 % TWO32) / 0x800
    else Signed(imm * 0x4_0000 % TWO32) / 0x1_0000
  }

  lemma GetIs(insn: Word)
    requires BranchImm(insn).Some?
    ensures GetBranchOffset(insn) == Some(Extend(BranchImm(insn).value, DecodeImmediate(BranchImm(insn).value, insn)))
  {
    hide DecodeImmediate, BranchImm, Signed;
  }

  lemma BranchTypes(insn: Word)
    ensures BranchImm(insn).Some? ==> BranchImm(insn).value in {Imm26Bits, Imm19Bits, Imm14Bits}
  {
  }

  lemma WidthSurvives(t: ImmType, offset: S32)
    requires t == Imm26Bits || t == Imm19Bits || t == Imm14Bits
    ensures Extend(t, offset / 4 % TWO64 % Pow2(WidthOf(t))) == offset <==>
      offset % 4 == 0 && -Limit(t) <= offset < Limit(t)
  {
    hide Pow2, Signed, SInt;
    BranchWidths();
    Narrowed(offset);
    Extended(offset / 4 % TWO64 % Pow2(WidthOf(t)));
  }

  /** Which displacements survive the narrowing to each field. */
  lemma Narrowed(offset: S32)
    ensures var imm := offset / 4 % TWO64;
      && (4 * SInt(imm % 0x400_0000, 0x200_0000) == offset <==> offset % 4 == 0 && -0x800_0000 <= offset < 0x800_0000)
      && (4 * SInt(imm % 0x8_0000, 0x4_0000) == offset <==> offset % 4 == 0 && -0x10_0000 <= offset < 0x10_0000)
      && (4 * SInt(imm % 0x4000, 0x2000) == offset <==> offset % 4 == 0 && -0x8000 <= offset < 0x8000)
  {
    NarrowedTo(offset, 0x200_0000, 0x20_0000_0000 * 2);
    NarrowedTo(offset, 0x4_0000, 0x1000_0000_0000 * 2);
    NarrowedTo(offset, 0x2000, 0x2_0000_0000_0000 * 2);
  }

  /** A number keeps its value in a field of 2 * half exactly if it lies within half on both sides. */
  lemma NarrowedTo(offset: S32, half: int, e: nat)
    requires half > 0 && 2 * half * e == TWO64
    ensures 4 * SInt(offset / 4 % TWO64 % (2 * half), half) == offset <==> offset % 4 == 0 && -4 * half <= offset < 4 * half
  {
    var x, d := offset / 4, 2 * half;
    ModMod(x, d, e);
    if 0 <= x < half {
      IntDivMod(x, d, 0, x);
    } else if -half <= x < 0 {
      IntDivMod(x, d, -1, x + d);
    } else {
      ModBound(x, d);
    }
  }

  lemma ModBound(x: int, d: nat)
    requires d > 0
    ensures 0 <= x % d < d
  {
  }

  lemma IntDivMod(x: int, d: nat, q: int, r: nat)
    requires r < d && x == q * d + r
    ensures x / d == q && x % d == r
  {
    var q', r' := x / d, x % d;
    assert (q' - q) * d == r - r';
    if q' > q {
      TimesMono(1, q' - q, d);
    } else if q > q' {
      TimesMono(1, q - q', d);
    }
  }

  lemma ModMod(x: int, d: nat, e: nat)
    requires d > 0 && d * e == TWO64
    ensures x % TWO64 % d == x % d
  {
    var q, r := x / TWO64, x % TWO64;
    var q2, r2 := r / d, r % d;
    assert x == q * TWO64 + r;
    assert r == q2 * d + r2;
    assert q * TWO64 == q * e * d by { assert q * (d * e) == q * e * d; }
    assert x == (q * e + q2) * d + r2 by { Distribute(q * e, q2, d); }
    IntDivMod(x, d, q * e + q2, r2);
  }

  /** The classes by the fields that name them. */
  lemma ClassByField(w: Word)
    ensures IsB(w) <==> Field(w, 26, 6) == 0x05
    ensures IsBl(w) <==> Field(w, 26, 6) == 0x25
    ensures IsCb(w) <==> Field(w, 25, 6) == 0x1A
    ensures IsTb(w) <==> Field(w, 25, 6) == 0x1B
    ensures IsBc(w) <==> Field(w, 24, 8) == 0x54 && Field(w, 4, 1) == 0
  {
    hide Pow2;
    Powers();
    assert Pow2(25) == 0x200_0000 by { NextPower(24); }
    assert w / 0x400_0000 % 64 == w / 0x400_0000 && w / 0x100_0000 % 256 == w / 0x100_0000;
  }

  lemma NextPower(k: nat)
    ensures Pow2(k + 1) == 2 * Pow2(k)
  {
  }

  /** Setting the displacement does not change what kind of branch it is. */
  lemma SetKeepsClass(insn: Word, t: ImmType, imm: nat)
    requires BranchImm(insn) == Some(t) && insn != BREAK_FAULT
    ensures BranchImm(EncodeImmediate(t, insn, imm)) == Some(t)
  {
    var w := EncodeImmediate(t, insn, imm);
    hide SetField, Field, IsB, IsBl, IsCb, IsBc, IsTb;
    ClassByField(insn);
    ClassByField(w);
    var s, n := ShiftOf(t), WidthOf(t);
    OtherFieldStays(insn, s, n, imm, 26, 6);
    if t != Imm26Bits {
      OtherFieldStays(insn, s, n, imm, 25, 6);
      OtherFieldStays(insn, s, n, imm, 24, 8);
      OtherFieldStays(insn, s, n, imm, 4, 1);
    }
  }

  // ---------- where the fields are ----------

  /** Into an empty field the immediate is added in its place. */
  lemma EmptyField(w: Word, s: nat, n: nat, imm: nat)
    requires s + n <= 32 && Field(w, s, n) == 0 && imm < Pow2(n)
    ensures SetField(w, s, n, imm) == w + imm * Pow2(s)
  {
    hide Pow2, SetField;
    SetFieldParts(w, s, n, imm);
    LowIs(imm, n);
    Pow2Add(s, n);
    EmptyParts(w, Pow2(s), Pow2(n), Pow2(s + n));
    DivModUnique(imm, Pow2(n), 0, imm);
  }

  lemma EmptyParts(w: nat, p: nat, q: nat, pq: nat)
    requires p > 0 && q > 0 && pq == p * q && w / p % q == 0
    ensures w == w / pq * pq + w % p
  {
    Divide(w, p);
    Divide(w / p, q);
    DivTwice(w, p, q);
    Assoc(w / pq, q, p);
    assert q * p == p * q;
  }

  /** The immediates of MOVZ, ADD, LDUR, LDP, B, CBZ, TBZ and AND, from their zero forms (DDI 0487, chapter C6.2). */
  lemma FieldPlaces(imm: nat)
    ensures imm < 0x1_0000 ==> EncodeImmediate(Imm16Bits, 0xD2800000, imm) == 0xD2800000 + imm * 0x20
    ensures imm < 0x1000 ==> EncodeImmediate(Imm12Bits, 0x91000000, imm) == 0x91000000 + imm * 0x400
    ensures imm < 0x200 ==> EncodeImmediate(Imm9Bits, 0xF8400000, imm) == 0xF8400000 + imm * 0x1000
    ensures imm < 0x80 ==> EncodeImmediate(Imm7Bits, 0xA9400000, imm) == 0xA9400000 + imm * 0x8000
    ensures imm < 0x400_0000 ==> EncodeImmediate(Imm26Bits, 0x14000000, imm) == 0x14000000 + imm
    ensures imm < 0x8_0000 ==> EncodeImmediate(Imm19Bits, 0xB4000000, imm) == 0xB4000000 + imm * 0x20
    ensures imm < 0x4000 ==> EncodeImmediate(Imm14Bits, 0x36000000, imm) == 0x36000000 + imm * 0x20
    ensures imm < 0x40 ==> EncodeImmediate(ImmS, 0x92000000, imm) == 0x92000000 + imm * 0x400
    ensures imm < 0x40 ==> EncodeImmediate(ImmR, 0x92000000, imm) == 0x92000000 + imm * 0x1_0000
    ensures imm < 2 ==> EncodeImmediate(ImmN, 0x92000000, imm) == 0x92000000 + imm * 0x40_0000
  {
    hide Pow2, SetField, Field;
    Places();
    ZeroForms();
    if imm < 0x1_0000 { EmptyField(0xD2800000, 5, 16, imm); }
    if imm < 0x1000 { EmptyField(0x91000000, 10, 12, imm); }
    if imm < 0x200 { EmptyField(0xF8400000, 12, 9, imm); }
    if imm < 0x80 { EmptyField(0xA9400000, 15, 7, imm); }
    if imm < 0x400_0000 { EmptyField(0x14000000, 0, 26, imm); }
    if imm < 0x8_0000 { EmptyField(0xB4000000, 5, 19, imm); }
    if imm < 0x4000 { EmptyField(0x36000000, 5, 14, imm); }
    if imm < 0x40 { EmptyField(0x92000000, 10, 6, imm); }
    if imm < 0x40 { EmptyField(0x92000000, 16, 6, imm); }
    if imm < 2 { EmptyField(0x92000000, 22, 1, imm); }
  }

  lemma Places()
    ensures Pow2(0) == 1 && Pow2(1) == 2 && Pow2(5) == 0x20 && Pow2(6) == 0x40 && Pow2(7) == 0x80 && Pow2(9) == 0x200
    ensures Pow2(10) == 0x400 && Pow2(12) == 0x1000 && Pow2(14) == 0x4000 && Pow2(15) == 0x8000 && Pow2(16) == 0x1_0000
    ensures Pow2(19) == 0x8_0000 && Pow2(22) == 0x40_0000 && Pow2(26) == 0x400_0000
  {
    Powers();
    assert Pow2(9) == 2 * Pow2(8) && Pow2(10) == 2 * Pow2(9) && Pow2(22) == 2 * Pow2(21);
  }

  lemma ZeroForms()
    ensures Field(0xD2800000, 5, 16) == 0 && Field(0x91000000, 10, 12) == 0 && Field(0xF8400000, 12, 9) == 0
    ensures Field(0xA9400000, 15, 7) == 0 && Field(0x14000000, 0, 26) == 0 && Field(0xB4000000, 5, 19) == 0
    ensures Field(0x36000000, 5, 14) == 0 && Field(0x92000000, 10, 6) == 0 && Field(0x92000000, 16, 6) == 0
    ensures Field(0x92000000, 22, 1) == 0
  {
    hide Pow2;
    Places();
  }
}
