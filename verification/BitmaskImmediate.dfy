/** The A64 logical immediates: encoding a 64-bit value as N:immr:imms. */
module BitmaskImmediate {
  import opened Options
  import opened Bits
  import opened HammingWeight
  import InsnFields

  datatype Fields = Fields(n: nat, immr: nat, imms: nat)

  // ---------- what the fields mean (DDI 0487, DecodeBitMasks) ----------

  /** The element repeated c times, e bits apart. */
  function Replicate(x: nat, e: nat, c: nat): nat { if c == 0 then 0 else x + Pow2(e) * Replicate(x, e, c - 1) }

  function Ones(k: nat): nat { Pow2(k) - 1 }

  /** Rotate an e-bit element right. */
  function Ror(x: nat, r: nat, e: nat): nat
    requires r <= e
  {
    Quotient(x, Pow2(r)) + Times(Remainder(x, Pow2(r)), Pow2(e - r))
  }

  /** The base-2 logarithm of the element size: the highest one of N followed by the inverted imms. */
  function ElementLog(n: nat, imms: nat): nat {
    if n == 1 then 6 else if imms < 32 then 5 else if imms < 48 then 4 else if imms < 56 then 3
    else if imms < 60 then 2 else if imms < 62 then 1 else 0
  }

  predicate InFields(f: Fields) { f.n < 2 && f.immr < 64 && f.imms < 64 }

  function DecodeBitMasks(f: Fields): Option<nat>
    requires InFields(f)
  {
    var len := ElementLog(f.n, f.imms);
    if len == 0 then None
    else
      var e := Pow2(len);
      var s, r := f.imms % e, f.immr % e;
      if s == e - 1 then None else Some(Replicate(Ror(Ones(s + 1), r, e), e, Pow2(6 - len)))
  }

  // ---------- words as runs of ones ----------

  /** The number of zeros below the lowest one. */
  function Trailing(w: nat): nat
    requires w > 0
  {
    if w % 2 == 1 then 0 else 1 + Trailing(w / 2)
  }

  /** The place above the highest one. */
  function BitLength(w: nat): nat { if w == 0 then 0 else 1 + BitLength(w / 2) }

  /** k ones from place f. */
  function Run(k: nat, f: nat): nat { Ones(k) * Pow2(f) }

  lemma {:induction false} TrailingSplits(w: nat)
    requires w > 0
    ensures w == w / Pow2(Trailing(w)) * Pow2(Trailing(w)) && w / Pow2(Trailing(w)) % 2 == 1
    decreases w
  {
    hide Pow2;
    if w % 2 == 0 {
      TrailingSplits(w / 2);
      Pow2Step(Trailing(w));
      Doubled(w, Pow2(Trailing(w / 2)), w / 2 / Pow2(Trailing(w / 2)));
    } else {
      Sizes();
    }
  }

  lemma Doubled(w: nat, p: nat, q: nat)
    requires p > 0 && w % 2 == 0 && w / 2 == q * p
    ensures w / (2 * p) == q && w == q * (2 * p)
  {
    Double(q, p);
    DivModUnique(w, 2 * p, q, 0);
  }

  lemma {:induction false} TrailingOf(x: nat, f: nat)
    requires x % 2 == 1
    ensures x * Pow2(f) > 0 && Trailing(x * Pow2(f)) == f
    decreases f
  {
    if f > 0 {
      TrailingOf(x, f - 1);
      var y := x * Pow2(f - 1);
      Double(x, Pow2(f - 1));
      assert x * Pow2(f) == 2 * y;
    }
  }

  lemma {:induction false} BitLengthBounds(w: nat)
    requires w > 0
    ensures BitLength(w) > 0 && Pow2(BitLength(w) - 1) <= w < Pow2(BitLength(w))
    decreases w
  {
    if w > 1 { BitLengthBounds(w / 2); }
  }

  lemma BitLengthUnique(w: nat, k: nat)
    requires k > 0 && Pow2(k - 1) <= w < Pow2(k)
    ensures BitLength(w) == k
  {
    hide Pow2, BitLength;
    BitLengthBounds(w);
    var n := BitLength(w);
    if n < k {
      Pow2Mono(n, k - 1);
    } else if n > k {
      Pow2Mono(k, n - 1);
    }
  }

  lemma {:induction false} AllOnes(x: nat)
    ensures And(x + 1, x) == 0 <==> x == Ones(BitLength(x))
    decreases x
  {
    hide And, BitLength, Pow2;
    Powers();
    BitLengthStep(x);
    if x == 0 {
      AndZero(1);
    } else {
      AndHalf(x + 1, x);
      Pow2Step(BitLength(x));
      if x % 2 == 0 {
        assert (x + 1) / 2 == x / 2;
        AndSelf(x / 2);
      } else {
        assert (x + 1) / 2 == x / 2 + 1;
        AllOnes(x / 2);
      }
    }
  }

  lemma BitLengthStep(x: nat)
    ensures BitLength(x) == if x == 0 then 0 else 1 + BitLength(x / 2)
  {
  }

  lemma {:induction false} AndSelf(x: nat)
    ensures And(x, x) == x
  {
    if x > 0 { AndSelf(x / 2); }
  }

  /** range_of_ones: shifted down to its lowest one, the word plus one shares no bit with the word. */
  predicate RangeOfOnes(val: U64)
    requires val > 0
  {
    var sval := val / Pow2(Trailing(val));
    And((sval + 1) % TWO64, sval) == 0
  }

  predicate IsRun(val: nat)
    requires val > 0
  {
    val == Run(BitLength(val / Pow2(Trailing(val))), Trailing(val))
  }

  lemma RangeMeansRun(val: U64)
    requires val > 0
    ensures RangeOfOnes(val) <==> IsRun(val)
  {
    hide And, Trailing, BitLength, Pow2;
    TrailingSplits(val);
    var p, sval := Pow2(Trailing(val)), val / Pow2(Trailing(val));
    AllOnes(sval);
    assert sval < TWO64 by { TimesAtLeast(sval, p); }
    if sval + 1 == TWO64 {
      FullWord(sval);
    }
    SameFactor(sval, Ones(BitLength(sval)), p);
  }

  lemma TimesAtLeast(a: nat, p: nat)
    requires p > 0
    ensures a <= a * p
  {
  }

  lemma FullWord(x: nat)
    requires x + 1 == TWO64
    ensures x == Ones(BitLength(x)) && And(0, x) == 0
  {
    hide Pow2, BitLength;
    AndZero(x);
    Powers();
    Pow2Step(64);
    BitLengthUnique(x, 64);
  }

  lemma SameFactor(a: nat, b: nat, p: nat)
    requires p > 0
    ensures a * p == b * p <==> a == b
  {
    if a < b { assert (b - a) * p > 0; }
    if b < a { assert (a - b) * p > 0; }
  }

  /** Any run is recognised as itself. */
  lemma RunIsRun(k: nat, f: nat)
    requires k > 0
    ensures Run(k, f) > 0 && IsRun(Run(k, f)) && Trailing(Run(k, f)) == f
  {
    hide Trailing, BitLength;
    assert Ones(k) % 2 == 1;
    TrailingOf(Ones(k), f);
    DivModUnique(Run(k, f), Pow2(f), Ones(k), 0);
    BitLengthUnique(Ones(k), k);
  }

  // ---------- counting the ones of runs ----------

  lemma {:induction false} PopCountOnes(k: nat)
    ensures PopCount(Ones(k)) == k
    decreases k
  {
    if k > 0 {
      PopCountOnes(k - 1);
      assert Ones(k) / 2 == Ones(k - 1);
    }
  }

  lemma {:induction false} PopCountShift(x: nat, f: nat)
    ensures PopCount(x * Pow2(f)) == PopCount(x)
    decreases f
  {
    if f > 0 {
      PopCountShift(x, f - 1);
      Double(x, Pow2(f - 1));
      var y := x * Pow2(f - 1);
      assert x * Pow2(f) == 2 * y;
    }
  }

  lemma {:induction false} PopCountComplement(x: nat, e: nat)
    requires x < Pow2(e)
    ensures PopCount(Ones(e) - x) == e - PopCount(x)
    decreases e
  {
    if e > 0 {
      PopCountComplement(x / 2, e - 1);
      var y := Ones(e) - x;
      assert y / 2 == Ones(e - 1) - x / 2;
      assert y % 2 == 1 - x % 2;
      PopCountStep(x);
      PopCountStep(y);
    }
  }

  lemma PopCountStep(x: nat)
    ensures PopCount(x) == x % 2 + PopCount(x / 2)
  {
  }

  lemma PopCountRun(k: nat, f: nat)
    ensures PopCount(Run(k, f)) == k
  {
    PopCountShift(Ones(k), f);
    PopCountOnes(k);
  }

  // ---------- rotations of runs ----------

  lemma RunFits(k: nat, f: nat, e: nat)
    requires k > 0 && Run(k, f) < Pow2(e)
    ensures k + f <= e
  {
    hide Pow2;
    if k + f > e {
      Pow2Mono(e, k + f - 1);
      Pow2Add(k - 1, f);
      assert Ones(k) >= Pow2(k - 1) by { assert Pow2(k) == 2 * Pow2(k - 1) by { Pow2Step(k); } }
      TimesMono(Pow2(k - 1), Ones(k), Pow2(f));
    }
  }

  lemma Pow2Step(k: nat)
    requires k > 0
    ensures Pow2(k) == 2 * Pow2(k - 1)
  {
  }

  /** Rotating k ones into a run that does not wrap. */
  lemma RotateToRun(k: nat, f: nat, e: nat)
    requires 0 < k < e && k + f <= e
    ensures Ror(Ones(k), (e - f) % e, e) == Run(k, f)
  {
    hide Pow2;
    Powers();
    if f == 0 {
      assert (e - f) % e == 0;
    } else {
      assert (e - f) % e == e - f;
      Pow2Mono(k, e - f);
      DivModUnique(Ones(k), Pow2(e - f), 0, Ones(k));
    }
  }

  /** All of e bits but the m from place lo. */
  function CoRun(m: nat, lo: nat, e: nat): int { Ones(e) - Run(m, lo) }

  /** Rotating ones into a run that wraps around the element. */
  lemma RotateToCoRun(m: nat, lo: nat, e: nat)
    requires 0 < m && 0 < lo && m + lo < e
    ensures Ror(Ones(e - m), e - (m + lo), e) == CoRun(m, lo, e)
  {
    hide Pow2;
    var hi, k := m + lo, e - m;
    var top := e - hi;
    var a, b := Pow2(top), Pow2(lo);
    Pow2Add(top, lo);
    assert top + lo == k;
    assert Pow2(k) - 1 == (b - 1) * a + (a - 1) by { assert (b - 1) * a == b * a - a; }
    DivModUnique(Ones(k), a, b - 1, a - 1);
    assert e - top == hi;
    Pow2Add(top, hi);
    assert (a - 1) * Pow2(hi) == Pow2(e) - Pow2(hi);
    Pow2Add(m, lo);
    assert Run(m, lo) == Pow2(hi) - b by { assert (Pow2(m) - 1) * b == Pow2(m) * b - b; }
  }

  // ---------- repeating patterns ----------

  /** Two equal halves make an element of twice the size. */
  lemma {:induction false} ReplicateHalves(x: nat, t: nat, c: nat)
    ensures Replicate(x + Pow2(t) * x, 2 * t, c) == Replicate(x, t, 2 * c)
    decreases c
  {
    if c > 0 {
      ReplicateHalves(x, t, c - 1);
      Pow2Add(t, t);
      hide Pow2;
      var p, v := Pow2(t), Replicate(x, t, 2 * c - 2);
      assert 2 * (c - 1) == 2 * c - 2;
      assert Replicate(x, t, 2 * c) == x + p * Replicate(x, t, 2 * c - 1);
      assert Replicate(x, t, 2 * c - 1) == x + p * v;
      TwoDigits(x, x, v, p, Pow2(2 * t));
      assert v * Pow2(2 * t) == Pow2(2 * t) * v;
    }
  }

  /** The halves of an element. */
  lemma Halves(imm: nat, t: nat)
    ensures imm % Pow2(2 * t) == imm % Pow2(t) + Pow2(t) * (imm / Pow2(t) % Pow2(t))
  {
    hide Pow2;
    Pow2Add(t, t);
    var p := Pow2(t);
    DivDiv(imm, p);
  }

  lemma DivDiv(x: nat, p: nat)
    requires p > 0
    ensures x % (p * p) == x % p + p * (x / p % p)
  {
    var u, a, b, c := x / p, x / p / p, x / p % p, x % p;
    Divide(x, p);
    Divide(u, p);
    Distribute(a * p, b, p);
    Assoc3(a, p, p);
    DigitStep(c, p, b, p);
    assert b * p == p * b;
    DivModUnique(x, p * p, a, b * p + c);
  }

  // ---------- the encoder ----------

  /** The element sizes and how the loop reaches them. */
  predicate IsSize(len: nat) { 1 <= len <= 6 }

  /** The word repeats its low 2^len bits. */
  predicate Repeats(imm: nat, len: nat)
    requires IsSize(len)
  {
    imm == Replicate(imm % Pow2(Pow2(len)), Pow2(len), Pow2(6 - len))
  }

  /** The two halves of the low 2^len bits are the same. */
  predicate HalvesAgree(imm: nat, len: nat)
    requires IsSize(len)
  {
    imm % Pow2(Pow2(len - 1)) == imm / Pow2(Pow2(len - 1)) % Pow2(Pow2(len - 1))
  }

  lemma RepeatsWhole(imm: U64)
    ensures Repeats(imm, 6)
  {
    Powers();
    assert Replicate(imm, 64, 1) == imm + Pow2(64) * Replicate(imm, 64, 0);
    assert Pow2(0) == 1;
  }

  lemma RepeatsHalf(imm: nat, len: nat)
    requires 2 <= len <= 6 && Repeats(imm, len) && HalvesAgree(imm, len)
    ensures Repeats(imm, len - 1)
  {
    hide Pow2, Replicate;
    var t, c := Pow2(len - 1), Pow2(6 - len);
    Pow2Step(len);
    Pow2Step(6 - (len - 1));
    Halves(imm, t);
    ReplicateHalves(imm % Pow2(t), t, c);
  }

  lemma {:induction false} ReplicateBound(x: nat, e: nat, c: nat, n: nat)
    requires x < Pow2(e) && n == e * c
    ensures Replicate(x, e, c) < Pow2(n)
    decreases c
  {
    hide Pow2;
    if c > 0 {
      OneLess(e, c);
      ReplicateBound(x, e, c - 1, n - e);
      Pow2Add(e, n - e);
      DigitStep(x, Pow2(e), Replicate(x, e, c - 1), Pow2(n - e));
    }
  }

  /** A word that repeats a smaller element is not all zeros or all ones exactly if the element is not. */
  lemma {:induction false} ReplicateExtremes(x: nat, e: nat, c: nat, n: nat)
    requires x < Pow2(e) && n == e * c && c > 0
    ensures Replicate(x, e, c) == 0 <==> x == 0
    ensures Replicate(x, e, c) == Ones(n) <==> x == Ones(e)
    decreases c
  {
    hide Pow2;
    OneLess(e, c);
    var p, r := Pow2(e), Replicate(x, e, c - 1);
    if c == 1 {
      assert n == e;
      assert Replicate(x, e, 0) == 0;
    } else {
      ReplicateExtremes(x, e, c - 1, n - e);
      ReplicateBound(x, e, c - 1, n - e);
      Pow2Add(e, n - e);
      hide Replicate;
      TopDigit(x, p, r, Pow2(n - e));
    }
  }

  lemma TopDigit(x: nat, p: nat, r: nat, q: nat)
    requires x < p && r < q
    ensures x + p * r == 0 <==> x == 0 && r == 0
    ensures x + p * r == p * q - 1 <==> x == p - 1 && r == q - 1
  {
    DiffTimes(q, 1, p);
    assert (q - 1) * p == p * (q - 1) && q * p == p * q;
    if r < q - 1 {
      DigitStep(x, p, r, q - 1);
    }
    if r > 0 { TimesAtLeast(p, r); }
  }

  lemma ElementSizes(len: nat)
    requires IsSize(len)
    ensures Pow2(len) * Pow2(6 - len) == 64 && 2 <= Pow2(len) <= 64 && Pow2(6 - len) > 0
  {
    Pow2Add(len, 6 - len);
    Pow2Mono(len, 6);
    Pow2Mono(1, len);
    Powers();
  }

  lemma ElementProper(imm: U64, len: nat)
    requires IsSize(len) && Repeats(imm, len) && 0 < imm < TWO64 - 1
    ensures 0 < imm % Pow2(Pow2(len)) < Ones(Pow2(len))
  {
    hide Pow2, Replicate;
    Powers();
    ElementSizes(len);
    ReplicateExtremes(imm % Pow2(Pow2(len)), Pow2(len), Pow2(6 - len), 64);
  }

  /** The string of ones and a zero above the count, by element size. */
  function Prefix(len: nat): nat
    requires IsSize(len)
  {
    if len >= 5 then 0 else if len == 4 then 32 else if len == 3 then 48 else if len == 2 then 56 else 60
  }

  /** The fields for k ones in an element of 2^len bits, rotated by r. */
  function FieldsOf(len: nat, k: nat, r: nat): Fields
    requires IsSize(len) && k > 0
  {
    Fields(if len == 6 then 1 else 0, r, Prefix(len) + k - 1)
  }

  lemma FieldsDecode(len: nat, k: nat, r: nat)
    requires IsSize(len) && 0 < k < Pow2(len) && r < Pow2(len)
    ensures InFields(FieldsOf(len, k, r))
    ensures DecodeBitMasks(FieldsOf(len, k, r))
         == Some(Replicate(Ror(Ones(k), r, Pow2(len)), Pow2(len), Pow2(6 - len)))
  {
    hide Replicate, Ror, Ones, Pow2, ElementLog, Prefix;
    var f, e := FieldsOf(len, k, r), Pow2(len);
    PrefixedFields(len, k, e);
    DivModUnique(r, e, 0, r);
  }

  lemma Sizes()
    ensures Pow2(0) == 1 && Pow2(1) == 2 && Pow2(2) == 4 && Pow2(3) == 8 && Pow2(4) == 16 && Pow2(5) == 32 && Pow2(6) == 64
  {
    Powers();
  }

  lemma PrefixedFields(len: nat, k: nat, e: nat)
    requires IsSize(len) && e == Pow2(len) && 0 < k < e
    ensures e <= 64 && Prefix(len) + k - 1 < 64 && ElementLog(if len == 6 then 1 else 0, Prefix(len) + k - 1) == len
    ensures (Prefix(len) + k - 1) % e == k - 1
  {
    hide Pow2;
    Sizes();
    if len == 6 || len == 5 {
      assert Prefix(len) == 0;
    } else if len == 4 {
      assert Prefix(len) == 2 * e;
    } else if len == 3 {
      assert Prefix(len) == 6 * e;
    } else if len == 2 {
      assert Prefix(len) == 14 * e;
    } else {
      assert Prefix(len) == 30 * e;
    }
  }

  /** imms as the code builds it. */
  lemma ImmsValue(len: nat, ones: nat)
    requires IsSize(len) && 0 < ones < Pow2(len)
    ensures And(Or(ones - 1, 0xF * Pow2(len + 1)), 63) == Prefix(len) + ones - 1
  {
    hide And, Or, Pow2;
    var q, r := Pow2(len + 1), ones - 1;
    Pow2Step(len + 1);
    OrDisjoint(0xF, len + 1, r);
    Powers();
    AndLow(0xF * q + r, 6);
    PrefixBits(len, q, r);
  }

  lemma PrefixBits(len: nat, q: nat, r: nat)
    requires IsSize(len) && q == Pow2(len + 1) && 2 * r < q
    ensures (0xF * q + r) % 64 == Prefix(len) + r
  {
    hide Pow2;
    Powers();
  }

  // ---------- an element that is a run, or all but a run ----------

  function Element(imm: nat, len: nat): nat
    requires IsSize(len)
  {
    imm % Pow2(Pow2(len))
  }

  /** The fields that stand for a word whose element is a run. */
  lemma RunCase(imm: U64, len: nat)
    requires IsSize(len) && Repeats(imm, len)
    requires 0 < Element(imm, len) < Ones(Pow2(len)) && IsRun(Element(imm, len))
    ensures var e, x := Pow2(len), Element(imm, len);
      && 0 < PopCount(x) < e && Trailing(x) < e
      && DecodeBitMasks(FieldsOf(len, PopCount(x), (e - Trailing(x)) % e)) == Some(imm)
  {
    hide Replicate, Pow2, PopCount, Trailing, Ror, DecodeBitMasks, FieldsOf, IsRun, Run, Ones;
    var e, x := Pow2(len), Element(imm, len);
    var k := ShortRun(x, e);
    RotateToRun(k, Trailing(x), e);
    FieldsDecode(len, k, (e - Trailing(x)) % e);
  }

  /** The length of a run that is shorter than the element. */
  lemma ShortRun(x: nat, e: nat) returns (k: nat)
    requires 0 < x < Ones(e) && IsRun(x)
    ensures 0 < k < e && k + Trailing(x) <= e && k == PopCount(x) && x == Run(k, Trailing(x))
  {
    hide Pow2, PopCount, Trailing, BitLength;
    var f := Trailing(x);
    k := BitLength(x / Pow2(f));
    if k == 0 {
      NoRun(f);
    }
    PopCountRun(k, f);
    RunFits(k, f, e);
    if k == e {
      assert f == 0;
      FullRun(k);
    }
  }

  lemma NoRun(f: nat)
    ensures Run(0, f) == 0
  {
  }

  lemma FullRun(k: nat)
    ensures Run(k, 0) == Ones(k)
  {
    Powers();
  }

  /** What a word looks like whose element is all but a run, wrapping around the element: the run of zeros. */
  lemma CoRunShape(x: nat, e: nat) returns (m: nat, lo: nat)
    requires 0 < x < Ones(e) && !IsRun(x) && IsRun(Ones(e) - x)
    ensures 0 < m && 0 < lo && m + lo < e && x == CoRun(m, lo, e)
    ensures BitLength(Ones(e) - x) == m + lo && PopCount(x) == e - m
  {
    hide Pow2, PopCount, Trailing, BitLength, IsRun;
    var z := Ones(e) - x;
    m, lo := RunShape(z);
    RunFits(m, lo, e);
    if lo == 0 {
      FullRun(m);
      Pow2Add(m, e - m);
      assert x == Run(e - m, m) by { assert Pow2(m) * (Pow2(e - m) - 1) == Pow2(e) - Pow2(m); }
      if m == e { assert false; }
      RunIsRun(e - m, m);
    }
    if m + lo == e {
      Pow2Add(m, lo);
      assert (Pow2(m) - 1) * Pow2(lo) == Pow2(e) - Pow2(lo);
      FullRun(lo);
      RunIsRun(lo, 0);
    }
    RunLength(m, lo);
    PopCountRun(m, lo);
    PopCountComplement(z, e);
  }

  lemma RunShape(z: nat) returns (m: nat, lo: nat)
    requires z > 0 && IsRun(z)
    ensures m > 0 && z == Run(m, lo) && lo == Trailing(z)
  {
    hide Trailing, BitLength, Pow2;
    lo := Trailing(z);
    m := BitLength(z / Pow2(lo));
    if m == 0 { NoRun(lo); }
  }

  lemma RunLength(m: nat, lo: nat)
    requires m > 0
    ensures BitLength(Run(m, lo)) == m + lo
  {
    hide Pow2, BitLength;
    Pow2Add(m, lo);
    Pow2Add(m - 1, lo);
    Pow2Step(m);
    assert Run(m, lo) == Pow2(m + lo) - Pow2(lo) by { assert (Pow2(m) - 1) * Pow2(lo) == Pow2(m) * Pow2(lo) - Pow2(lo); }
    Pow2Step(m + lo);
    Pow2Mono(lo, m + lo - 1);
    BitLengthUnique(Run(m, lo), m + lo);
  }

  /** The fields that stand for a word whose element is all but a run: rotated by where the zeros end. */
  lemma CoRunCase(imm: U64, len: nat)
    requires IsSize(len) && Repeats(imm, len)
    requires 0 < Element(imm, len) < Ones(Pow2(len)) && !IsRun(Element(imm, len)) && IsRun(Ones(Pow2(len)) - Element(imm, len))
    ensures var e, x := Pow2(len), Element(imm, len);
      var hi := BitLength(Ones(e) - x);
      0 < PopCount(x) < e && 0 < hi < e && DecodeBitMasks(FieldsOf(len, PopCount(x), e - hi)) == Some(imm)
  {
    hide Replicate, Pow2, PopCount, Trailing, BitLength, Ror, DecodeBitMasks, FieldsOf, IsRun;
    var e, x := Pow2(len), Element(imm, len);
    var m, lo := CoRunShape(x, e);
    RotateToCoRun(m, lo, e);
    FieldsDecode(len, e - m, e - (m + lo));
  }

  /** Rotated by less than that, the fields stand for another word. */
  lemma WrongRotation(imm: U64, r: nat)
    requires 0 < imm < TWO64 - 1 && !IsRun(imm) && IsRun(TWO64 - 1 - imm) && r < BitLength(TWO64 - 1 - imm)
    ensures 0 < PopCount(imm) < 64 && r < 64
    ensures DecodeBitMasks(FieldsOf(6, PopCount(imm), (64 - r) % 64)) != Some(imm)
  {
    hide Replicate, Pow2, PopCount, Trailing, BitLength, Ror, DecodeBitMasks, FieldsOf, IsRun;
    Powers();
    var m, lo := CoRunShape(imm, 64);
    var k := 64 - m;
    FieldsDecode(6, k, (64 - r) % 64);
    ReplicateOnce(Ror(Ones(k), (64 - r) % 64, 64));
    if k + r <= 64 {
      RotateToRun(k, r, 64);
      RunIsRun(k, r);
    } else {
      RotateToCoRun(m, r - m, 64);
      assert (64 - r) % 64 == 64 - r;
      RunIsRun(m, r - m);
      RunIsRun(m, lo);
    }
  }

  lemma ReplicateOnce(x: nat)
    ensures Replicate(x, 64, Pow2(0)) == x
  {
    assert Replicate(x, 64, 1) == x + Pow2(64) * Replicate(x, 64, 0);
  }

  // ---------- which words have fields ----------

  /** Anything the fields can stand for repeats a run or all but a run. */
  lemma RotatedOnes(k: nat, r: nat, e: nat)
    requires 0 < k < e && r < e
    ensures var y := Ror(Ones(k), r, e);
      0 < y < Ones(e) && (IsRun(y) || IsRun(Ones(e) - y))
    ensures IsRotated(Ror(Ones(k), r, e), e)
  {
    hide Pow2, IsRun, Ror, Run;
    var f := if r == 0 then 0 else e - r;
    DivModUnique(e - f, e, if r == 0 then 1 else 0, r);
    if f + k <= e {
      RotateToRun(k, f, e);
      RunIsRun(k, f);
      RunBelow(k, f, e);
    } else {
      var m := e - k;
      RotateToCoRun(m, f - m, e);
      RunIsRun(m, f - m);
      RunBelow(m, f - m, e);
    }
  }

  lemma RunBelow(k: nat, f: nat, e: nat)
    requires 0 < k < e && k + f <= e
    ensures 0 < Run(k, f) < Ones(e)
  {
    hide Pow2;
    RunAsDifference(k, f);
    Pow2Mono(k + f, e);
    Pow2Step(k + f);
    Pow2Mono(f, k + f - 1);
    if f == 0 {
      Powers();
      Pow2Mono(k + 1, e);
      Pow2Step(k + 1);
    } else {
      Pow2Mono(1, f);
      Powers();
    }
  }

  lemma DiffTimes(a: nat, b: nat, p: nat)
    requires b <= a
    ensures (a - b) * p == a * p - b * p && b * p <= a * p
  {
  }

  lemma RunAsDifference(k: nat, f: nat)
    ensures Run(k, f) == Pow2(k + f) - Pow2(f) && Pow2(f) <= Pow2(k + f)
  {
    hide Pow2;
    Pow2Add(k, f);
    DiffTimes(Pow2(k), 1, Pow2(f));
  }

  /** A run that crosses the middle. */
  lemma RunAcross(k: nat, f: nat, h: nat)
    requires f < h < k + f
    ensures Run(k, f) / Pow2(h) == Pow2(k + f - h) - 1 && Run(k, f) % Pow2(h) == Pow2(h) - Pow2(f)
  {
    hide Pow2, Run;
    RunAsDifference(k, f);
    Pow2Add(k + f - h, h);
    Pow2Mono(f, h);
    DiffTimes(Pow2(k + f - h), 1, Pow2(h));
    DivModUnique(Run(k, f), Pow2(h), Pow2(k + f - h) - 1, Pow2(h) - Pow2(f));
  }

  /** A run in the upper half. */
  lemma RunAbove(k: nat, f: nat, h: nat)
    requires h <= f && k > 0
    ensures Run(k, f) / Pow2(h) > 0 && Run(k, f) % Pow2(h) == 0
  {
    hide Pow2, Run;
    RunAsDifference(k, f);
    Pow2Add(f - h, h);
    Pow2Add(k + f - h, h);
    Pow2Step(k + f - h);
    Pow2Mono(f - h, k + f - h - 1);
    var q := Pow2(k + f - h) - Pow2(f - h);
    DiffTimes(Pow2(k + f - h), Pow2(f - h), Pow2(h));
    DivModUnique(Run(k, f), Pow2(h), q, 0);
  }

  /** The halves of such an element differ. */
  lemma RunHalvesDiffer(k: nat, f: nat, h: nat)
    requires 0 < k < 2 * h && k + f <= 2 * h
    ensures Run(k, f) % Pow2(h) != Run(k, f) / Pow2(h)
  {
    hide Pow2, Run;
    Powers();
    if f >= h {
      RunAbove(k, f, h);
    } else if k + f > h {
      RunAcross(k, f, h);
      Pow2Step(k + f - h);
      Pow2Step(h);
      if f > 0 {
        Pow2Step(f);
      } else {
        Pow2Mono(k - h + 1, h);
        Pow2Step(k - h + 1);
      }
    } else {
      RunAsDifference(k, f);
      Pow2Mono(k + f, h);
      Pow2Step(k + f);
      Pow2Mono(f, k + f - 1);
      DivModUnique(Run(k, f), Pow2(h), 0, Run(k, f));
    }
  }

  lemma ComplementHalves(z: nat, p: nat)
    requires p > 0 && z < p * p
    ensures (p * p - 1 - z) / p == p - 1 - z / p && (p * p - 1 - z) % p == p - 1 - z % p
  {
    var q, r := z / p, z % p;
    Divide(z, p);
    if q >= p { TimesMono(p, q, p); }
    DiffTimes(p, q + 1, p);
    assert (q + 1) * p == q * p + p;
    DivModUnique(p * p - 1 - z, p, p - 1 - q, p - 1 - r);
  }

  lemma CoRunHalvesDiffer(k: nat, f: nat, h: nat)
    requires 0 < k < 2 * h && k + f <= 2 * h
    ensures CoRun(k, f, 2 * h) >= 0
    ensures CoRun(k, f, 2 * h) % Pow2(h) != CoRun(k, f, 2 * h) / Pow2(h)
  {
    hide Pow2, Run;
    RunBelow(k, f, 2 * h);
    RunHalvesDiffer(k, f, h);
    Pow2Add(h, h);
    ComplementHalves(Run(k, f), Pow2(h));
  }

  lemma PullOut(p: nat, q: nat, u: nat, v: nat)
    ensures p * (u + q * v) == p * u + p * q * v
  {
    assert p * (q * v) == p * q * v;
  }

  lemma {:induction false} ReplicateSplit(y: nat, e: nat, a: nat, b: nat, n: nat)
    requires n == e * a
    ensures Replicate(y, e, a + b) == Replicate(y, e, a) + Pow2(n) * Replicate(y, e, b)
    decreases a
  {
    hide Pow2;
    if a == 0 {
      Powers();
    } else {
      OneLess(e, a);
      ReplicateSplit(y, e, a - 1, b, n - e);
      Pow2Add(e, n - e);
      var p, q, u, v := Pow2(e), Pow2(n - e), Replicate(y, e, a - 1), Replicate(y, e, b);
      assert a + b - 1 == a - 1 + b;
      PullOut(p, q, u, v);
    }
  }

  /** A repeating word has equal halves at every size above that of its element, and its low bits are the element. */
  lemma HalvesAbove(imm: nat, y: nat, l: nat, len: nat)
    requires 1 <= l < len <= 6 && y < Pow2(Pow2(l)) && imm == Replicate(y, Pow2(l), Pow2(6 - l))
    ensures HalvesAgree(imm, len)
  {
    hide Pow2, Replicate;
    var e, a, c, n := Pow2(l), Pow2(len - 1 - l), Pow2(6 - l), Pow2(len - 1);
    Pow2Add(l, len - 1 - l);
    Pow2Mono(len - l, 6 - l);
    Pow2Step(len - l);
    ReplicateSplit(y, e, a, c - a, n);
    ReplicateSplit(y, e, a, c - 2 * a, n);
    ReplicateBound(y, e, a, n);
    LowAndHigh(Replicate(y, e, a), Pow2(n), Replicate(y, e, c - a));
    LowAndHigh(Replicate(y, e, a), Pow2(n), Replicate(y, e, c - 2 * a));
  }

  lemma LowAndHigh(x: nat, p: nat, v: nat)
    requires x < p
    ensures (x + p * v) % p == x && (x + p * v) / p == v
  {
    DivModUnique(x + p * v, p, v, x);
  }

  lemma LowElement(imm: nat, y: nat, l: nat)
    requires 1 <= l <= 6 && y < Pow2(Pow2(l)) && imm == Replicate(y, Pow2(l), Pow2(6 - l))
    ensures Element(imm, l) == y && Repeats(imm, l)
  {
    hide Pow2;
    LowAndHigh(y, Pow2(Pow2(l)), Replicate(y, Pow2(l), Pow2(6 - l) - 1));
  }

  /** The loop stops at the element of the fields, whichever fields stand for the word. */
  lemma OnlyRunsDecode(imm: U64, len: nat, f: Fields)
    requires InFields(f) && DecodeBitMasks(f) == Some(imm)
    requires IsSize(len) && Repeats(imm, len) && (len == 1 || !HalvesAgree(imm, len))
    ensures 0 < Element(imm, len) < Ones(Pow2(len))
    ensures IsRun(Element(imm, len)) || IsRun(Ones(Pow2(len)) - Element(imm, len))
  {
    hide Pow2, Replicate, Ror, IsRun, HalvesAgree, IsRotated;
    var l := ElementLog(f.n, f.imms);
    ElementSizes(l);
    var e := Pow2(l);
    var k, r := f.imms % e + 1, f.immr % e;
    var y := Ror(Ones(k), r, e);
    RotatedOnes(k, r, e);
    LowElement(imm, y, l);
    if len > l {
      HalvesAbove(imm, y, l, len);
    } else if len < l {
      ElementBelow(imm, len);
      HalvesAbove(imm, Element(imm, len), len, l);
      HalvesOfRotated(imm, y, l);
    }
  }

  lemma ElementBelow(imm: nat, len: nat)
    requires IsSize(len)
    ensures Element(imm, len) < Pow2(Pow2(len))
  {
  }

  /** A run, or all but a run, of an element of e bits. */
  ghost predicate IsRotated(y: nat, e: nat) {
    exists m, f :: 0 < m < e && m + f <= e && (y == Run(m, f) || y == CoRun(m, f, e))
  }

  lemma RotatedHalvesDiffer(y: nat, h: nat)
    requires IsRotated(y, 2 * h)
    ensures y % Pow2(h) != y / Pow2(h)
  {
    hide Pow2, Run, CoRun;
    var m, f :| 0 < m < 2 * h && m + f <= 2 * h && (y == Run(m, f) || y == CoRun(m, f, 2 * h));
    if y == Run(m, f) {
      RunHalvesDiffer(m, f, h);
    } else {
      CoRunHalvesDiffer(m, f, h);
    }
  }

  /** A word that repeats a rotated run has different halves at the size of that run's element. */
  lemma HalvesOfRotated(imm: nat, y: nat, l: nat)
    requires 2 <= l <= 6 && Element(imm, l) == y && IsRotated(y, Pow2(l))
    ensures !HalvesAgree(imm, l)
  {
    hide Pow2, IsRotated;
    var h := Pow2(l - 1);
    Pow2Step(l);
    RotatedHalvesDiffer(y, h);
    Halves(imm, h);
    LowAndHigh(imm % Pow2(h), Pow2(h), imm / Pow2(h) % Pow2(h));
  }

  lemma ExtremesHaveNoFields(imm: nat, f: Fields)
    requires imm == 0 || imm == TWO64 - 1
    requires InFields(f)
    ensures DecodeBitMasks(f) != Some(imm)
  {
    hide Pow2, Replicate, Ror;
    var l := ElementLog(f.n, f.imms);
    if l > 0 {
      ElementSizes(l);
      var e := Pow2(l);
      var s := f.imms % e;
      if s != e - 1 {
        var y := Ror(Ones(s + 1), f.immr % e, e);
        RotatedOnes(s + 1, f.immr % e, e);
        ReplicateExtremes(y, e, Pow2(6 - l), 64);
        Powers();
      }
    }
  }

  // ---------- the encoder ----------

  /** The words for which the fields come out right. The rotation is taken from the low 32 bits of the inverted
      element, so a 64-bit pattern with ones at both ends needs a high half of ones. */
  predicate Faithful(imm: U64) {
    imm % 2 == 0 || imm < TWO64 / 2 || imm / TWO32 == imm % TWO32 || imm / TWO32 == TWO32 - 1
  }

  /** The loop over the strides: it halves the element as long as the halves agree. */
  method FindElement(imm: U64) returns (esz: nat, mask: nat, ghost len: nat)
    ensures IsSize(len) && esz == Pow2(len) && mask == Ones(esz) && Repeats(imm, len)
    ensures len == 1 || !HalvesAgree(imm, len)
    ensures len < 6 ==> HalvesAgree(imm, 6)
  {
    hide And, Pow2, Replicate, Repeats;
    Powers();
    var tmp := 32;
    esz, mask, len := 64, TWO64 - 1, 6;
    RepeatsWhole(imm);
    while tmp >= 2
      invariant IsSize(len) && esz == Pow2(len) && mask == Ones(esz) && tmp == Pow2(len - 1)
      invariant Repeats(imm, len) && (len < 6 ==> HalvesAgree(imm, 6))
      decreases tmp
    {
      var emask := Ones(tmp);
      AndLow(imm, tmp);
      AndLow(imm / Pow2(tmp), tmp);
      if And(imm, emask) != And(imm / Pow2(tmp), emask) {
        return;
      }
      TmpAtLeast(len);
      RepeatsHalf(imm, len);
      esz, mask := tmp, emask;
      tmp, len := tmp / 2, len - 1;
      Pow2Step(len);
    }
    TmpAtLeast(len);
  }

  lemma TmpAtLeast(len: nat)
    requires IsSize(len)
    ensures Pow2(len - 1) >= 2 <==> len >= 2
    ensures len >= 2 ==> Pow2(len - 1) == 2 * Pow2(len - 2)
  {
    Powers();
  }

  /** aarch64_encode_immediate for the 64-bit variant, up to placing the three fields; None is a break fault. It
      finds fields exactly for the words that have some, and the right ones exactly for the faithful words. */
  method EncodeImmediate(imm: U64) returns (r: Option<Fields>)
    ensures r.Some? ==> InFields(r.value) && (DecodeBitMasks(r.value) == Some(imm) <==> Faithful(imm))
    ensures r.Some? <==> Encodable(imm)
  {
    hide And, Or, Pow2, Repeats, HalvesAgree, RangeOfOnes, IsRun, Trailing, BitLength, PopCount, Hweight64, Faithful,
         DecodeBitMasks, Prefix, FieldsOf, Encodable, InFields;
    if imm == 0 || imm == TWO64 - 1 {
      NoFieldsForExtremes(imm);
      return None;
    }
    var esz, mask, len := FindElement(imm);
    var n := if esz == 64 then 1 else 0;
    var x := And(imm, mask);
    AndLow(imm, esz);
    ElementProper(imm, len);
    ElementFits(imm, len);
    var ones := Hweight64(x);
    Hweight64Counts(x);
    var ror;
    RangeMeansRun(x);
    if RangeOfOnes(x) {
      ror := Trailing(x);
      RunOutcome(imm, len);
    } else {
      var filled := Or(x, TWO64 - 1 - mask);
      FilledElement(x, len);
      var z := TWO64 - 1 - filled;
      RangeMeansRun(z);
      if !RangeOfOnes(z) {
        NoFieldsForOthers(imm, len);
        return None;
      }
      ror := BitLength(z % TWO32);
      CoRunOutcome(imm, len, ror);
    }
    TrailingOf(1, len);
    var ffs := Trailing(esz) + 1;
    ImmsValue(len, ones);
    var imms := And(Or(ones - 1, 0xF * Pow2(ffs)), 63);
    var immr := (esz - ror) % esz;
    r := Some(Fields(n, immr, imms));
    TheseFields(len, ones, immr);
  }

  /** The word is a logical immediate. */
  ghost predicate Encodable(imm: nat) { exists f :: InFields(f) && DecodeBitMasks(f) == Some(imm) }

  lemma NoFieldsForExtremes(imm: nat)
    requires imm == 0 || imm == TWO64 - 1
    ensures !Encodable(imm)
  {
    hide DecodeBitMasks;
    forall f | InFields(f) ensures DecodeBitMasks(f) != Some(imm) { ExtremesHaveNoFields(imm, f); }
  }

  lemma NoFieldsForOthers(imm: U64, len: nat)
    requires IsSize(len) && Repeats(imm, len) && (len == 1 || !HalvesAgree(imm, len))
    requires 0 < Element(imm, len) < Ones(Pow2(len))
    requires !IsRun(Element(imm, len)) && !IsRun(Ones(Pow2(len)) - Element(imm, len))
    ensures !Encodable(imm)
  {
    hide DecodeBitMasks, IsRun, Repeats, HalvesAgree, Pow2;
    forall f | InFields(f) ensures DecodeBitMasks(f) != Some(imm) {
      if DecodeBitMasks(f) == Some(imm) { OnlyRunsDecode(imm, len, f); }
    }
  }

  lemma TheseFields(len: nat, ones: nat, immr: nat)
    requires IsSize(len) && 0 < ones < Pow2(len) && immr < Pow2(len)
    ensures Fields(if Pow2(len) == 64 then 1 else 0, immr, Prefix(len) + ones - 1) == FieldsOf(len, ones, immr)
    ensures InFields(FieldsOf(len, ones, immr))
  {
    hide Pow2, Prefix;
    SizeIs64(len);
    FieldsDecode(len, ones, immr);
  }

  /** The fields made with this rotation stand for the word exactly if it is faithful, and some fields do in any case. */
  ghost predicate Outcome(imm: U64, len: nat, ror: nat)
    requires IsSize(len)
  {
    var e, x := Pow2(len), Element(imm, len);
    && ror <= e && 0 < PopCount(x) < e
    && (DecodeBitMasksOf(len, PopCount(x), (e - ror) % e) == Some(imm) <==> Faithful(imm))
    && Encodable(imm)
  }

  /** Decoding the fields of a size, a count and a rotation. */
  function DecodeBitMasksOf(len: nat, k: nat, r: nat): Option<nat>
    requires IsSize(len)
  {
    if 0 < k < Pow2(len) && r < Pow2(len) then
      FieldsDecode(len, k, r);
      DecodeBitMasks(FieldsOf(len, k, r))
    else None
  }

  lemma RunOutcome(imm: U64, len: nat)
    requires IsSize(len) && Repeats(imm, len) && (len < 6 ==> HalvesAgree(imm, 6))
    requires 0 < Element(imm, len) < Ones(Pow2(len)) && IsRun(Element(imm, len))
    ensures Outcome(imm, len, Trailing(Element(imm, len)))
  {
    hide Pow2, Faithful, IsRun, PopCount, Trailing, DecodeBitMasks, HalvesAgree, Repeats, FieldsOf, InFields;
    RunCase(imm, len);
    RunIsFaithful(imm, len);
    var e, x := Pow2(len), Element(imm, len);
    FieldsDecode(len, PopCount(x), (e - Trailing(x)) % e);
  }

  lemma SizeIs64(len: nat)
    requires IsSize(len)
    ensures Pow2(len) == 64 <==> len == 6
  {
    Powers();
  }

  lemma ElementFits(imm: U64, len: nat)
    requires IsSize(len)
    ensures Element(imm, len) < TWO64 && Ones(Pow2(len)) <= TWO64 - 1
  {
    hide Pow2;
    Powers();
    ElementSizes(len);
    Pow2Mono(Pow2(len), 64);
  }

  /** Filling the bits above the element with ones and inverting leaves the inverted element. */
  lemma FilledElement(x: nat, len: nat)
    requires IsSize(len) && x < Ones(Pow2(len)) < TWO64
    ensures Or(x, TWO64 - 1 - Ones(Pow2(len))) == TWO64 - 1 - (Ones(Pow2(len)) - x)
  {
    hide Pow2, Or;
    Powers();
    ElementSizes(len);
    var e := Pow2(len);
    Pow2Add(64 - e, e);
    DiffTimes(Pow2(64 - e), 1, Pow2(e));
    OrDisjoint(Pow2(64 - e) - 1, e, x);
  }

  lemma HalvesAgreeHere(imm: U64)
    ensures HalvesAgree(imm, 6) <==> imm % TWO32 == imm / TWO32
  {
    Powers();
  }

  lemma RunIsFaithful(imm: U64, len: nat)
    requires IsSize(len) && (len < 6 ==> HalvesAgree(imm, 6))
    requires 0 < Element(imm, len) < Ones(Pow2(len)) && IsRun(Element(imm, len))
    ensures Faithful(imm)
  {
    hide Pow2, IsRun, HalvesAgree;
    HalvesAgreeHere(imm);
    Powers();
    if len == 6 && imm % 2 == 1 && imm >= TWO64 / 2 {
      assert Element(imm, len) == imm;
      var k, f := RunShape(imm);
      var n := k + f;
      RunFits(k, f, 64);
      RunAsDifference(k, f);
      Pow2Step(64);
      Pow2Step(n);
      if n < 64 {
        Pow2Mono(n, 63);
      } else if f > 0 {
        Pow2Step(f);
      }
    }
  }

  ghost predicate IsCoRun(x: nat, e: nat) {
    0 < x < Ones(e) && !IsRun(x) && IsRun(Ones(e) - x)
  }

  /** Rotated by the place where the zeros end. */
  lemma RightRotation(imm: U64, len: nat)
    requires IsSize(len) && Repeats(imm, len) && IsCoRun(Element(imm, len), Pow2(len)) && Faithful(imm)
    ensures Outcome(imm, len, BitLength(Ones(Pow2(len)) - Element(imm, len)))
  {
    hide Pow2, IsRun, BitLength, PopCount, DecodeBitMasks, Repeats, FieldsOf, InFields, Faithful;
    CoRunCase(imm, len);
    var e, x := Pow2(len), Element(imm, len);
    var hi := BitLength(Ones(e) - x);
    FieldsDecode(len, PopCount(x), e - hi);
    DivModUnique(e - hi, e, 0, e - hi);
  }

  lemma CoRunOutcome(imm: U64, len: nat, ror: nat)
    requires IsSize(len) && Repeats(imm, len) && 0 < imm < TWO64 - 1
    requires (len < 6 ==> HalvesAgree(imm, 6)) && (len == 6 ==> !HalvesAgree(imm, 6))
    requires IsCoRun(Element(imm, len), Pow2(len))
    requires ror == BitLength((Ones(Pow2(len)) - Element(imm, len)) % TWO32)
    ensures Outcome(imm, len, ror)
  {
    hide Pow2, IsRun, HalvesAgree, BitLength, PopCount, DecodeBitMasks, Repeats, FieldsOf, InFields, Outcome;
    HalvesAgreeHere(imm);
    Powers();
    if len < 6 {
      Pow2Mono(len, 5);
      Pow2Mono(Pow2(len), 32);
      RightRotation(imm, len);
    } else {
      assert Element(imm, len) == imm;
      BothEnds(imm);
      if TWO64 - 1 - imm < TWO32 {
        RightRotation(imm, len);
      } else {
        TooShort(imm, ror);
      }
    }
  }

  /** The low half of the zeros is too short to tell where they end. */
  lemma TooShort(imm: U64, ror: nat)
    requires Repeats(imm, 6) && IsCoRun(imm, 64) && TWO64 - 1 - imm >= TWO32 && !Faithful(imm)
    requires ror == BitLength((TWO64 - 1 - imm) % TWO32)
    ensures Outcome(imm, 6, ror)
  {
    hide Pow2, IsRun, BitLength, PopCount, DecodeBitMasks, Repeats, FieldsOf, InFields, Faithful;
    Powers();
    assert Element(imm, 6) == imm;
    LowLength(TWO64 - 1 - imm);
    CoRunCase(imm, 6);
    var k := PopCount(imm);
    FieldsDecode(6, k, 64 - BitLength(TWO64 - 1 - imm));
    WrongRotation(imm, ror);
  }

  /** The low half of a word has at most 32 significant bits, a word above it more. */
  lemma LowLength(z: nat)
    requires z >= TWO32
    ensures BitLength(z % TWO32) <= 32 < BitLength(z)
  {
    hide Pow2, BitLength;
    Powers();
    BitLengthBounds(z);
    if BitLength(z) <= 32 { Pow2Mono(BitLength(z), 32); }
    if z % TWO32 > 0 {
      BitLengthBounds(z % TWO32);
      if BitLength(z % TWO32) > 32 { Pow2Mono(32, BitLength(z % TWO32) - 1); }
    } else {
      assert BitLength(0) == 0 by { NoLength(); }
    }
  }

  lemma NoLength()
    ensures BitLength(0) == 0
  {
  }

  lemma BothEnds(imm: U64)
    requires 0 < imm < TWO64 - 1 && !IsRun(imm) && IsRun(TWO64 - 1 - imm)
    ensures imm % 2 == 1 && imm >= TWO64 / 2
    ensures imm / TWO32 == TWO32 - 1 <==> TWO64 - 1 - imm < TWO32
  {
    hide Pow2, IsRun;
    Powers();
    HighHalf(imm);
    var m, lo := CoRunShape(imm, 64);
    var n := m + lo;
    RunAsDifference(m, lo);
    Pow2Step(lo);
    Pow2Mono(n, 63);
    Pow2Step(64);
    Pow2Step(n);
    OddEnd(imm, Pow2(n - 1), Pow2(lo - 1));
  }

  lemma OddEnd(imm: nat, a: nat, b: nat)
    requires imm == TWO64 - 1 - (2 * a - 2 * b)
    ensures imm % 2 == 1
  {
    assert imm == 2 * (TWO64 / 2 - 1 - a + b) + 1;
  }

  lemma HighHalf(imm: U64)
    ensures imm / TWO32 == TWO32 - 1 <==> TWO64 - 1 - imm < TWO32
  {
  }

  /** Not every logical immediate is faithful: ones at places 0 and 63 only. */
  lemma SomeImmediateIsWrong()
    ensures Encodable(0x8000_0000_0000_0001) && !Faithful(0x8000_0000_0000_0001)
  {
    hide Pow2, Replicate, DecodeBitMasks, FieldsOf, InFields;
    Powers();
    Pow2Step(64);
    FieldsDecode(6, 2, 1);
    assert Ror(3, 1, 64) == 0x8000_0000_0000_0001;
    ReplicateOnce(Ror(Ones(2), 1, 64));
  }

  // ---------- the fields in the instruction ----------

  /** The opcode bits of AND, ORR, EOR and ANDS with an immediate. */
  predicate IsLogicalImmediate(insn: Word) { InsnFields.Field(insn, 23, 6) == 0x24 }

  /** The end of aarch64_encode_immediate. */
  function Placed(insn: Word, f: Fields): Word {
    var n := InsnFields.EncodeImmediate(InsnFields.ImmN, insn, f.n);
    var r := InsnFields.EncodeImmediate(InsnFields.ImmR, n, f.immr);
    InsnFields.EncodeImmediate(InsnFields.ImmS, r, f.imms)
  }

  lemma PlaceOne(t: InsnFields.ImmType, insn: Word, imm: nat)
    requires IsLogicalImmediate(insn) && imm < Pow2(InsnFields.WidthOf(t))
    requires t == InsnFields.ImmN || t == InsnFields.ImmR || t == InsnFields.ImmS
    ensures var w := InsnFields.EncodeImmediate(t, insn, imm);
      IsLogicalImmediate(w) && InsnFields.DecodeImmediate(t, w) == imm
    ensures forall u | u != t && (u == InsnFields.ImmN || u == InsnFields.ImmR || u == InsnFields.ImmS) ::
      InsnFields.DecodeImmediate(u, InsnFields.EncodeImmediate(t, insn, imm)) == InsnFields.DecodeImmediate(u, insn)
    ensures InsnFields.Field(InsnFields.EncodeImmediate(t, insn, imm), 0, 10) == InsnFields.Field(insn, 0, 10)
    ensures InsnFields.Field(InsnFields.EncodeImmediate(t, insn, imm), 29, 3) == InsnFields.Field(insn, 29, 3)
  {
    NotFault(insn);
    hide Pow2, InsnFields.SetField, InsnFields.Field;
    InsnFields.ImmediateReadsBack(t, insn, imm, 23, 6);
    InsnFields.ImmediateReadsBack(t, insn, imm, 0, 10);
    InsnFields.ImmediateReadsBack(t, insn, imm, 29, 3);
    InsnFields.ImmediateReadsBack(t, insn, imm, 22, 1);
    InsnFields.ImmediateReadsBack(t, insn, imm, 16, 6);
    InsnFields.ImmediateReadsBack(t, insn, imm, 10, 6);
  }

  lemma NotFault(insn: Word)
    requires IsLogicalImmediate(insn)
    ensures insn != InsnFields.BREAK_FAULT
  {
    hide Pow2;
    Powers();
    Pow2Step(23);
    assert Pow2(22) == 0x40_0000 by { Pow2Step(22); }
  }

  /** The instruction gets exactly these fields, and keeps its registers, operation and size. */
  lemma PlacedReadsBack(insn: Word, f: Fields)
    requires IsLogicalImmediate(insn) && InFields(f)
    ensures var w := Placed(insn, f);
      && Fields(InsnFields.DecodeImmediate(InsnFields.ImmN, w), InsnFields.DecodeImmediate(InsnFields.ImmR, w),
                InsnFields.DecodeImmediate(InsnFields.ImmS, w)) == f
      && IsLogicalImmediate(w)
      && InsnFields.Field(w, 0, 10) == InsnFields.Field(insn, 0, 10)
      && InsnFields.Field(w, 29, 3) == InsnFields.Field(insn, 29, 3)
  {
    Powers();
    hide Pow2, InsnFields.SetField, InsnFields.Field, IsLogicalImmediate, InsnFields.EncodeImmediate, InsnFields.DecodeImmediate;
    var n := InsnFields.EncodeImmediate(InsnFields.ImmN, insn, f.n);
    var r := InsnFields.EncodeImmediate(InsnFields.ImmR, n, f.immr);
    PlaceOne(InsnFields.ImmN, insn, f.n);
    PlaceOne(InsnFields.ImmR, n, f.immr);
    PlaceOne(InsnFields.ImmS, r, f.imms);
  }
}
