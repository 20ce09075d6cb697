/** Machine words as bounded naturals, with the bitwise operators C applies to them. */
module Bits {

  const TWO32: nat := 0x1_0000_0000
  const TWO64: nat := 0x1_0000_0000_0000_0000

  type Word = n: nat | n < TWO32
  type U64 = n: nat | n < TWO64

  function Pow2(k: nat): (p: nat)
    ensures p >= 1
  {
    if k == 0 then 1 else 2 * Pow2(k - 1)
  }

  function And(a: nat, b: nat): nat {
    if a == 0 || b == 0 then 0 else 2 * And(a / 2, b / 2) + (if a % 2 == 1 && b % 2 == 1 then 1 else 0)
  }

  function Or(a: nat, b: nat): nat {
    if a == 0 then b else if b == 0 then a
    else 2 * Or(a / 2, b / 2) + (if a % 2 == 1 || b % 2 == 1 then 1 else 0)
  }

  lemma {:induction false} Pow2Add(i: nat, j: nat)
    ensures Pow2(i + j) == Pow2(i) * Pow2(j)
    decreases j
  {
    if j > 0 {
      Pow2Add(i, j - 1);
      assert i + j - 1 == i + (j - 1);
      assert Pow2(i + j) == 2 * Pow2(i + (j - 1));
      assert Pow2(i) * (2 * Pow2(j - 1)) == 2 * (Pow2(i) * Pow2(j - 1));
    }
  }

  lemma {:induction false} Pow2Mono(i: nat, j: nat)
    requires i <= j
    ensures Pow2(i) <= Pow2(j)
    decreases j
  {
    if i < j {
      Pow2Mono(i, j - 1);
    }
  }

  lemma HalfSum(x: nat, p: nat, y: nat)
    ensures (x * (2 * p) + y) / 2 == x * p + y / 2
    ensures (x * (2 * p) + y) % 2 == y % 2
  {
    Double(x, p);
  }

  lemma Double(x: nat, p: nat)
    ensures x * (2 * p) == 2 * (x * p)
  {
  }

  lemma DoublePow(k: nat)
    ensures Pow2(0) == 1 && (k > 0 ==> Pow2(k) == 2 * Pow2(k - 1))
  {
  }

  lemma AndNone()
    ensures And(0, 0) == 0
  {
  }

  lemma OrNone()
    ensures Or(0, 0) == 0
  {
  }

  /** And works on the two halves of a split word separately. */
  lemma {:induction false} AndSplit(k: nat, x: nat, y: nat, u: nat, v: nat)
    requires y < Pow2(k) && v < Pow2(k)
    ensures And(x * Pow2(k) + y, u * Pow2(k) + v) == And(x, u) * Pow2(k) + And(y, v)
    decreases k
  {
    hide And, Pow2;
    DoublePow(k);
    if k > 0 {
      var p, a, b := Pow2(k - 1), x * Pow2(k) + y, u * Pow2(k) + v;
      HalfSum(x, p, y);
      HalfSum(u, p, v);
      AndHalf(a, b);
      AndHalf(y, v);
      AndSplit(k - 1, x, y / 2, u, v / 2);
      Double(And(x, u), p);
    } else {
      AndNone();
    }
  }

  lemma AndHalf(a: nat, b: nat)
    ensures And(a, b) == 2 * And(a / 2, b / 2) + (if a % 2 == 1 && b % 2 == 1 then 1 else 0)
  {
  }

  lemma {:induction false} OrSplit(k: nat, x: nat, y: nat, u: nat, v: nat)
    requires y < Pow2(k) && v < Pow2(k)
    ensures Or(x * Pow2(k) + y, u * Pow2(k) + v) == Or(x, u) * Pow2(k) + Or(y, v)
    decreases k
  {
    hide Or, Pow2;
    DoublePow(k);
    if k > 0 {
      var p, a, b := Pow2(k - 1), x * Pow2(k) + y, u * Pow2(k) + v;
      HalfSum(x, p, y);
      HalfSum(u, p, v);
      OrHalf(a, b);
      OrHalf(y, v);
      OrSplit(k - 1, x, y / 2, u, v / 2);
      Double(Or(x, u), p);
    } else {
      OrNone();
    }
  }

  lemma OrHalf(a: nat, b: nat)
    ensures Or(a, b) == 2 * Or(a / 2, b / 2) + (if a % 2 == 1 || b % 2 == 1 then 1 else 0)
  {
  }

  lemma {:induction false} AndBound(a: nat, b: nat)
    ensures And(a, b) <= b
    decreases a
  {
    if a > 0 {
      AndBound(a / 2, b / 2);
    }
  }

  lemma {:induction false} OrBound(a: nat, b: nat, k: nat)
    requires a < Pow2(k) && b < Pow2(k)
    ensures Or(a, b) < Pow2(k)
    decreases k
  {
    if k > 0 {
      OrBound(a / 2, b / 2, k - 1);
    }
  }

  /** The operators on machine words. */
  function And32(a: Word, b: Word): Word {
    AndBound(a, b);
    And(a, b)
  }

  function And64(a: U64, b: U64): U64 {
    AndBound(a, b);
    And(a, b)
  }

  function Or64(a: U64, b: U64): U64 {
    Powers();
    OrBound(a, b, 64);
    Or(a, b)
  }

  function Or32(a: Word, b: Word): Word {
    Powers();
    OrBound(a, b, 32);
    Or(a, b)
  }

  /** A mask of `len` ones keeps the low bits. */
  lemma {:induction false} AndLow(x: nat, len: nat)
    ensures And(x, Pow2(len) - 1) == x % Pow2(len)
    decreases len
  {
    if len > 0 {
      AndLow(x / 2, len - 1);
      var p := Pow2(len - 1);
      assert (Pow2(len) - 1) / 2 == p - 1;
      AndHalf(x, Pow2(len) - 1);
      ModHalf(x, p);
    }
  }

  lemma ModHalf(x: nat, p: nat)
    requires p > 0
    ensures x % (2 * p) == 2 * ((x / 2) % p) + x % 2
  {
    var q, r := (x / 2) / p, (x / 2) % p;
    assert x / 2 == q * p + r;
    assert x == q * (2 * p) + (2 * r + x % 2);
    DivModUnique(x, 2 * p, q, 2 * r + x % 2);
  }

  lemma DivModUnique(x: nat, d: nat, q: nat, r: nat)
    requires r < d && x == q * d + r
    ensures x / d == q && x % d == r
  {
    var q', r' := x / d, x % d;
    assert (q' - q) * d == r - r';
    if q' > q {
      TimesAtLeast(q' - q, d);
    } else if q > q' {
      TimesAtLeast(q - q', d);
    }
  }

  lemma TimesAtLeast(k: nat, d: nat)
    requires k > 0
    ensures k * d >= d
  {
  }

  lemma {:induction false} AndZero(x: nat)
    ensures And(x, 0) == 0 && And(0, x) == 0
  {
  }

  lemma OrZero(x: nat)
    ensures Or(x, 0) == x && Or(0, x) == x
  {
  }

  /** A mask of `len` ones starting at bit `lo` keeps that field in place. */
  lemma AndField(x: nat, lo: nat, len: nat)
    ensures And(x, (Pow2(len) - 1) * Pow2(lo)) == ((x / Pow2(lo)) % Pow2(len)) * Pow2(lo)
  {
    var p, m := Pow2(lo), Pow2(len) - 1;
    hide And;
    hide Pow2;
    var h, l := x / p, x % p;
    assert x == h * p + l;
    AndSplit(lo, h, l, m, 0);
    assert m * p + 0 == m * p;
    AndZero(l);
    AndLow(h, len);
  }

  lemma AndShift(x: nat, m: nat, k: nat, p: nat, xh: nat, xl: nat, mh: nat, ml: nat)
    requires p == Pow2(k) && x == xh * p + xl && m == mh * p + ml && xl < p && ml < p
    ensures And(x, m) / p == And(xh, mh) && And(x, m) % p == And(xl, ml)
  {
    hide And, Pow2;
    AndSplit(k, xh, xl, mh, ml);
    AndBound(xl, ml);
    DivModUnique(And(x, m), p, And(xh, mh), And(xl, ml));
  }

  lemma OrShift(x: nat, m: nat, k: nat, p: nat, xh: nat, xl: nat, mh: nat, ml: nat)
    requires p == Pow2(k) && x == xh * p + xl && m == mh * p + ml && xl < p && ml < p
    ensures Or(x, m) / p == Or(xh, mh) && Or(x, m) % p == Or(xl, ml)
  {
    hide Or, Pow2;
    OrSplit(k, xh, xl, mh, ml);
    OrBound(xl, ml, k);
    DivModUnique(Or(x, m), p, Or(xh, mh), Or(xl, ml));
  }

  /** A field that the mask covers with ones comes through unchanged. */
  lemma AndKeepsField(x: nat, m: nat, lo: nat, len: nat)
    requires m / Pow2(lo) % Pow2(len) == Pow2(len) - 1
    ensures And(x, m) / Pow2(lo) % Pow2(len) == x / Pow2(lo) % Pow2(len)
  {
    hide And, Pow2;
    var p, q := Pow2(lo), Pow2(len);
    var xh, mh := x / p, m / p;
    Divide(x, p);
    Divide(m, p);
    AndShift(x, m, lo, p, xh, x % p, mh, m % p);
    AndKeepsLow(xh, mh, len, q);
  }

  lemma AndKeepsLow(x: nat, m: nat, len: nat, q: nat)
    requires q == Pow2(len) && m % q == q - 1
    ensures And(x, m) % q == x % q
  {
    hide And, Pow2;
    Divide(x, q);
    Divide(m, q);
    AndShift(x, m, len, q, x / q, x % q, m / q, q - 1);
    AndLow(x % q, len);
    DivModUnique(x % q, q, 0, x % q);
  }

  /** A field in which the other operand has no bit comes through unchanged. */
  lemma OrKeepsField(x: nat, m: nat, lo: nat, len: nat)
    requires m / Pow2(lo) % Pow2(len) == 0
    ensures Or(x, m) / Pow2(lo) % Pow2(len) == x / Pow2(lo) % Pow2(len)
  {
    hide Or, Pow2;
    var p, q := Pow2(lo), Pow2(len);
    var xh, mh := x / p, m / p;
    Divide(x, p);
    Divide(m, p);
    OrShift(x, m, lo, p, xh, x % p, mh, m % p);
    OrKeepsLow(xh, mh, len, q);
  }

  lemma OrKeepsLow(x: nat, m: nat, len: nat, q: nat)
    requires q == Pow2(len) && m % q == 0
    ensures Or(x, m) % q == x % q
  {
    hide Or, Pow2;
    Divide(x, q);
    Divide(m, q);
    OrShift(x, m, len, q, x / q, x % q, m / q, 0);
    OrZero(x % q);
  }

  /** A mask of two fields keeps both. */
  lemma AndTwoFields(x: nat, hi: nat, hlen: nat, lo: nat, len: nat)
    requires lo + len <= hi
    ensures And(x, (Pow2(hlen) - 1) * Pow2(hi) + (Pow2(len) - 1) * Pow2(lo))
         == x / Pow2(hi) % Pow2(hlen) * Pow2(hi) + x / Pow2(lo) % Pow2(len) * Pow2(lo)
  {
    hide And, Pow2;
    var p, m := Pow2(hi), (Pow2(len) - 1) * Pow2(lo);
    FieldBound(lo, len, hi);
    Nonnegative(Pow2(len) - 1, Pow2(lo));
    Divide(x, p);
    AndSplit(hi, x / p, x % p, Pow2(hlen) - 1, m);
    AndLow(x / p, hlen);
    AndField(x % p, lo, len);
    FieldOfLow(x, hi, lo, len);
  }

  lemma FieldBound(lo: nat, len: nat, hi: nat)
    requires lo + len <= hi
    ensures (Pow2(len) - 1) * Pow2(lo) < Pow2(hi)
  {
    hide Pow2;
    Pow2Add(len, lo);
    Pow2Mono(lo + len, hi);
    Distribute(Pow2(len), -1, Pow2(lo));
  }

  lemma Distribute(a: int, b: int, c: int)
    ensures (a + b) * c == a * c + b * c
  {
  }

  lemma Assoc(a: int, b: int, c: int)
    ensures (a * b) * c == a * (b * c)
  {
  }

  /** A field below bit `hi` is the same in the word and in its low part. */
  lemma FieldOfLow(x: nat, hi: nat, lo: nat, len: nat)
    requires lo + len <= hi
    ensures x % Pow2(hi) / Pow2(lo) % Pow2(len) == x / Pow2(lo) % Pow2(len)
  {
    var d := hi - lo - len;
    var p, m, k, n := Pow2(lo), Pow2(len), Pow2(d), Pow2(len + d);
    assert Pow2(hi) == p * n && n == m * k by {
      Pow2Add(lo, len + d);
      Pow2Add(len, d);
      assert lo + (len + d) == hi;
    }
    hide Pow2;
    FieldOfPart(x, p, m, k, n, Pow2(hi));
  }

  lemma FieldOfPart(x: nat, p: nat, m: nat, k: nat, n: nat, b: nat)
    requires p > 0 && m > 0 && k > 0 && n > 0 && b > 0 && n == m * k && b == p * n
    ensures x % b / p % m == x / p % m
  {
    DivOfMod(x, p, n, b);
    ModOfMod(x / p, m, k, n);
  }

  lemma Divide(x: nat, d: nat)
    requires d > 0
    ensures x == x / d * d + x % d && x % d < d
  {
  }

  /** Mixed-radix digits: regrouping q * (p * n) + (u * p + v). */
  lemma Regroup(q: nat, p: nat, n: nat, u: nat, v: nat)
    ensures q * (p * n) + (u * p + v) == (q * n + u) * p + v
  {
    Assoc(q, n, p);
    Distribute(q * n, u, p);
  }

  lemma DigitBound(u: nat, p: nat, v: nat, n: nat)
    requires u * p + v < p * n
    ensures u < n
  {
    if u >= n {
      Distribute(u - n, n, p);
      Nonnegative(u - n, p);
    }
  }

  lemma Nonnegative(k: nat, d: nat)
    ensures k * d >= 0
  {
  }

  lemma DigitsDiv(x: nat, p: nat, n: nat, q: nat, u: nat, v: nat)
    requires p > 0 && n > 0 && v < p && u * p + v < p * n && x == q * (p * n) + (u * p + v)
    ensures x / p % n == u
  {
    Regroup(q, p, n, u, v);
    DigitBound(u, p, v, n);
    DivModUnique(x, p, q * n + u, v);
    DivModUnique(q * n + u, n, q, u);
  }

  lemma DigitsMod(y: nat, m: nat, k: nat, q: nat, s: nat, t: nat)
    requires m > 0 && t < m && y == q * (m * k) + (s * m + t)
    ensures y % m == t
  {
    Regroup(q, m, k, s, t);
    DivModUnique(y, m, q * k + s, t);
  }

  lemma DivOfMod(x: nat, p: nat, n: nat, b: nat)
    requires p > 0 && n > 0 && b > 0 && b == p * n
    ensures x % b / p == x / p % n
  {
    Divide(x, b);
    Divide(x % b, p);
    DigitsDiv(x, p, n, x / b, x % b / p, x % b % p);
  }

  lemma ModOfMod(y: nat, m: nat, k: nat, b: nat)
    requires m > 0 && k > 0 && b > 0 && b == m * k
    ensures y % b % m == y % m
  {
    Divide(y, b);
    Divide(y % b, m);
    DigitsMod(y, m, k, y / b, y % b / m, y % b % m);
  }

  /** Or of a low part and a multiple of the next power of two is a sum. */
  lemma OrDisjoint(q: nat, k: nat, r: nat)
    requires r < Pow2(k)
    ensures Or(q * Pow2(k), r) == q * Pow2(k) + r
    ensures Or(r, q * Pow2(k)) == q * Pow2(k) + r
  {
    hide Or, Pow2;
    OrSplit(k, q, 0, 0, r);
    OrSplit(k, 0, r, q, 0);
    OrZero(q);
    OrZero(r);
  }

  lemma Powers()
    ensures Pow2(0) == 1 && Pow2(1) == 2 && Pow2(7) == 0x80 && Pow2(13) == 0x2000 && Pow2(19) == 0x8_0000
    ensures Pow2(2) == 4 && Pow2(3) == 8 && Pow2(14) == 0x4000 && Pow2(15) == 0x8000 && Pow2(20) == 0x10_0000
    ensures Pow2(21) == 0x20_0000 && Pow2(27) == 0x800_0000 && Pow2(28) == 0x1000_0000 && Pow2(29) == 0x2000_0000
    ensures Pow2(30) == 0x4000_0000 && Pow2(34) == 0x4_0000_0000 && Pow2(36) == 0x10_0000_0000
    ensures Pow2(31) == 0x8000_0000 && Pow2(33) == 0x2_0000_0000 && Pow2(52) == 0x10_0000_0000_0000
    ensures Pow2(4) == 0x10 && Pow2(5) == 0x20 && Pow2(6) == 0x40 && Pow2(8) == 0x100
    ensures Pow2(12) == 0x1000 && Pow2(16) == 0x1_0000
    ensures Pow2(24) == 0x100_0000 && Pow2(26) == 0x400_0000 && Pow2(32) == TWO32
    ensures Pow2(48) == 0x1_0000_0000_0000 && Pow2(64) == TWO64
  {
    assert Pow2(4) == 2 * Pow2(3);
    assert Pow2(6) == 2 * Pow2(5);
    assert Pow2(8) == 2 * Pow2(7);
    Pow2Add(8, 4);
    Pow2Add(8, 5);
    Pow2Add(8, 8);
    Pow2Add(12, 2);
    Pow2Add(12, 3);
    Pow2Add(12, 7);
    Pow2Add(16, 4);
    Pow2Add(16, 5);
    Pow2Add(24, 3);
    Pow2Add(24, 4);
    Pow2Add(24, 5);
    Pow2Add(24, 7);
    Pow2Add(16, 8);
    Pow2Add(24, 2);
    assert Pow2(2) == 4;
    Pow2Add(16, 16);
    Pow2Add(16, 14);
    Pow2Add(32, 1);
    Pow2Add(32, 2);
    Pow2Add(32, 4);
    Pow2Add(32, 16);
    Pow2Add(32, 20);
    Pow2Add(32, 32);
  }

  lemma DigitStep(d: nat, p: nat, v: nat, q: nat)
    requires d < p && v < q
    ensures d + p * v < p * q
  {
    assert p * v <= p * (q - 1);
    assert p * (q - 1) == p * q - p;
  }

  function Quotient(a: nat, b: nat): nat
    requires b > 0
  {
    a / b
  }

  function Remainder(a: nat, b: nat): nat
    requires b > 0
  {
    a % b
  }

  function Times(a: nat, b: nat): nat { a * b }

  lemma TimesMono(a: nat, b: nat, p: nat)
    requires a <= b
    ensures a * p <= b * p
  {
  }

  lemma DivTwice(x: nat, p: nat, q: nat)
    requires p > 0 && q > 0
    ensures p * q > 0 && x / (p * q) == x / p / q
  {
    var u, a, b, c := x / p, x / p / q, x / p % q, x % p;
    Divide(x, p);
    Divide(u, q);
    Distribute(a * q, b, p);
    Assoc3(a, q, p);
    DigitStep(c, p, b, q);
    assert b * p == p * b;
    DivModUnique(x, p * q, a, b * p + c);
  }

  lemma Assoc3(a: nat, q: nat, p: nat)
    ensures a * q * p == a * (p * q)
  {
  }
}
