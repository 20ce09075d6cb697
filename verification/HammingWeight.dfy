/** Counting the ones of a 64-bit word by adding neighbouring fields in parallel. */
module HammingWeight {
  import opened Bits

  function PopCount(w: nat): nat { if w == 0 then 0 else w % 2 + PopCount(w / 2) }

  // ---------- numbers as digits ----------

  /** Digits, lowest first. */
  datatype Digits = Nil | Cons(head: nat, tail: Digits)

  /** The number with these digits in base p. */
  function Value(ds: Digits, p: nat): nat { if ds.Nil? then 0 else ds.head + p * Value(ds.tail, p) }

  function Sum(ds: Digits): nat { if ds.Nil? then 0 else ds.head + Sum(ds.tail) }

  /** There are n digits, none above b. */
  predicate Fits(ds: Digits, n: nat, b: nat) {
    if n == 0 then ds.Nil? else ds.Cons? && ds.head <= b && Fits(ds.tail, n - 1, b)
  }

  /** The digits at even and at odd places, and the sums of each two neighbours. */
  function Evens(ds: Digits): Digits {
    if ds.Cons? && ds.tail.Cons? then Cons(ds.head, Evens(ds.tail.tail)) else ds
  }

  function Odds(ds: Digits): Digits {
    if ds.Cons? && ds.tail.Cons? then Cons(ds.tail.head, Odds(ds.tail.tail)) else Nil
  }

  function Pairs(ds: Digits): Digits {
    if ds.Cons? && ds.tail.Cons? then Cons(ds.head + ds.tail.head, Pairs(ds.tail.tail)) else ds
  }

  /** The mask of the even places: n digits p - 1 with zeros between. */
  function Mask(p: nat, n: nat): nat
    requires p > 0
  {
    if n == 0 then 0 else p - 1 + p * p * Mask(p, n - 1)
  }

  lemma MaskAlgebra(p: nat, pp: nat, m: nat, q: nat)
    requires p > 0 && pp == p * p && m * (p + 1) == q - 1
    ensures (p - 1 + pp * m) * (p + 1) == pp * q - 1
  {
    assert (p - 1) * (p + 1) == pp - 1;
    assert (p - 1 + pp * m) * (p + 1) == (p - 1) * (p + 1) + pp * m * (p + 1);
    assert pp * m * (p + 1) == pp * (m * (p + 1));
    assert pp * (q - 1) == pp * q - pp;
  }

  lemma {:induction false} MaskTimes(k: nat, p: nat, n: nat, e: nat)
    requires p == Pow2(k) && p * p == Pow2(2 * k) && e == 2 * k * n
    ensures Mask(p, n) * (p + 1) == Pow2(e) - 1
    decreases n
  {
    if n > 0 {
      assert 2 * k * (n - 1) == e - 2 * k;
      hide Pow2;
      MaskTimes(k, p, n - 1, e - 2 * k);
      Pow2Add(2 * k, e - 2 * k);
      MaskAlgebra(p, p * p, Mask(p, n - 1), Pow2(e - 2 * k));
    }
  }

  lemma Masks()
    ensures Mask(2, 32) == 0x5555_5555_5555_5555
    ensures Mask(4, 16) == 0x3333_3333_3333_3333
    ensures Mask(16, 8) == 0x0F0F_0F0F_0F0F_0F0F
  {
    hide Mask;
    Powers();
    MaskTimes(1, 2, 32, 64);
    MaskTimes(2, 4, 16, 64);
    MaskTimes(4, 16, 8, 64);
  }

  lemma TwoDigits(a: nat, b: nat, v: nat, p: nat, pp: nat)
    requires pp == p * p
    ensures a + p * (b + p * v) == v * pp + (a + p * b)
  {
    assert p * (b + p * v) == p * b + p * (p * v);
    assert p * (p * v) == pp * v;
  }

  lemma TwoDigitsSmall(a: nat, b: nat, p: nat, pp: nat)
    requires pp == p * p && a < p && b < p
    ensures a + p * b < pp && (a + p * b) % p == a
  {
    assert p * b <= p * (p - 1);
    assert p * (p - 1) == pp - p;
    assert a + p * b == b * p + a;
    DivModUnique(a + p * b, p, b, a);
  }

  /** Masking two digits against the low one. */
  lemma MaskTwo(a: nat, b: nat, v: nat, k: nat, p: nat, n: nat)
    requires p == Pow2(k) && p * p == Pow2(2 * k) && a < p && b < p && n > 0
    ensures And(a + p * (b + p * v), Mask(p, n)) == a + p * p * And(v, Mask(p, n - 1))
  {
    hide And, Pow2;
    var pp, m := p * p, Mask(p, n - 1);
    TwoDigits(a, b, v, p, pp);
    TwoDigitsSmall(a, b, p, pp);
    TwoDigitsSmall(p - 1, 0, p, pp);
    MaskPair(a + p * b, v, k, p, pp, m);
  }

  lemma MaskPair(low: nat, v: nat, k: nat, p: nat, pp: nat, m: nat)
    requires p == Pow2(k) && pp == Pow2(2 * k) && low < pp && p - 1 < pp
    ensures And(v * pp + low, p - 1 + pp * m) == low % p + pp * And(v, m)
  {
    hide And, Pow2;
    AndSplit(2 * k, v, low, m, p - 1);
    AndLow(low, k);
    Commute(pp, m);
    Commute(pp, And(v, m));
  }

  lemma Commute(a: nat, b: nat)
    ensures a * b == b * a
  {
  }

  /** Masking keeps the digits at even places; shifting by one digit first, those at odd places. */
  lemma {:induction false} MaskKeeps(ds: Digits, k: nat, p: nat, n: nat)
    requires p == Pow2(k) && p * p == Pow2(2 * k) && Fits(ds, 2 * n, p - 1)
    ensures And(Value(ds, p), Mask(p, n)) == Value(Evens(ds), p * p)
    ensures ds.Cons? ==> And(Value(ds.tail, p), Mask(p, n)) == Value(Odds(ds), p * p)
    decreases n
  {
    hide And, Mask, Pow2;
    if n == 0 {
      assert And(0, Mask(p, 0)) == 0 by { AndZero(Mask(p, 0)); }
    } else {
      var a, b, rest := ds.head, ds.tail.head, ds.tail.tail;
      MaskKeeps(rest, k, p, n - 1);
      MaskTwo(a, b, Value(rest, p), k, p, n);
      if n == 1 {
        MaskTwo(b, 0, 0, k, p, n);
        AndZero(Mask(p, 0));
      } else {
        MaskTwo(b, rest.head, Value(rest.tail, p), k, p, n);
      }
    }
  }

  lemma PairStep(a: nat, b: nat, p: nat, pp: nat, e: nat, o: nat)
    requires pp == p * p
    ensures a + p * (b + p * (e + p * o)) == (a + pp * e) + p * (b + pp * o)
    ensures (a + b) + pp * (e + o) == (a + pp * e) + (b + pp * o)
  {
    TwoDigits(a, b, e + p * o, p, pp);
    assert (e + p * o) * pp == pp * e + p * (pp * o);
    assert p * (b + pp * o) == p * b + p * (pp * o);
    assert pp * (e + o) == pp * e + pp * o;
  }

  /** A number is its even digits plus its odd ones, which count p times. */
  lemma {:induction false} EvensAndOdds(ds: Digits, p: nat, n: nat, b: nat)
    requires Fits(ds, 2 * n, b)
    ensures Value(ds, p) == Value(Evens(ds), p * p) + p * Value(Odds(ds), p * p)
    ensures Value(Pairs(ds), p * p) == Value(Evens(ds), p * p) + Value(Odds(ds), p * p)
    ensures Sum(Pairs(ds)) == Sum(ds) && Fits(Pairs(ds), n, 2 * b)
    decreases n
  {
    if n > 0 {
      var rest, pp := ds.tail.tail, p * p;
      EvensAndOdds(rest, p, n - 1, b);
      PairStep(ds.head, ds.tail.head, p, pp, Value(Evens(rest), pp), Value(Odds(rest), pp));
    }
  }

  // ---------- the word and its bits ----------

  function BitsOf(w: nat, n: nat): Digits { if n == 0 then Nil else Cons(w % 2, BitsOf(w / 2, n - 1)) }

  lemma {:induction false} BitsOfWord(w: nat, n: nat)
    requires w < Pow2(n)
    ensures Value(BitsOf(w, n), 2) == w && Sum(BitsOf(w, n)) == PopCount(w) && Fits(BitsOf(w, n), n, 1)
    decreases n
  {
    if n > 0 { BitsOfWord(w / 2, n - 1); }
  }

  // ---------- the parallel count ----------

  /** hweight64, with the wrap-around of 64-bit arithmetic written out. */
  function Hweight64(w: U64): nat {
    var a := (w - And64(w / 2, 0x5555_5555_5555_5555)) % TWO64;
    var b := (And64(a, 0x3333_3333_3333_3333) + And64(a / 4, 0x3333_3333_3333_3333)) % TWO64;
    var c := And64((b + b / 16) % TWO64, 0x0F0F_0F0F_0F0F_0F0F);
    var d := (c + c / 0x100) % TWO64;
    var e := (d + d / 0x1_0000) % TWO64;
    And64((e + e / 0x1_0000_0000) % TWO64, 0xFF)
  }

  lemma OneLess(k: nat, n: nat)
    requires n > 0
    ensures k * (n - 1) == k * n - k && k <= k * n
  {
  }

  lemma {:induction false} ValueBound(ds: Digits, k: nat, p: nat, n: nat, e: nat)
    requires p == Pow2(k) && e == k * n && Fits(ds, n, p - 1)
    ensures Value(ds, p) < Pow2(e)
    decreases n
  {
    hide Pow2;
    if n > 0 {
      OneLess(k, n);
      ValueBound(ds.tail, k, p, n - 1, e - k);
      Pow2Add(k, e - k);
      DigitStep(ds.head, p, Value(ds.tail, p), Pow2(e - k));
    } else {
      assert Pow2(e) >= 1;
    }
  }

  lemma {:induction false} FitsMore(ds: Digits, n: nat, b: nat, c: nat)
    requires Fits(ds, n, b) && b <= c
    ensures Fits(ds, n, c)
    decreases n
  {
    if n > 0 { FitsMore(ds.tail, n - 1, b, c); }
  }

  lemma ShiftDigit(ds: Digits, p: nat)
    requires ds.Cons? && ds.head < p
    ensures Value(ds, p) / p == Value(ds.tail, p)
  {
    assert Value(ds, p) == Value(ds.tail, p) * p + ds.head;
    DivModUnique(Value(ds, p), p, Value(ds.tail, p), ds.head);
  }

  lemma Shape(ds: Digits, n: nat, b: nat)
    requires Fits(ds, n, b)
    ensures n > 0 ==> ds.Cons? && ds.head <= b
  {
  }

  /** The powers the steps work with. */
  lemma FieldPowers()
    ensures Pow2(1) == 2 && Pow2(2) == 4 && Pow2(4) == 16 && Pow2(8) == 256 && Pow2(64) == TWO64
  {
    Powers();
  }

  /** The first step: fields of two bits. */
  lemma CountTwos(w: U64)
    ensures var ds := Pairs(BitsOf(w, 64));
      Fits(ds, 32, 2) && Sum(ds) == PopCount(w) && (w - And64(w / 2, 0x5555_5555_5555_5555)) % TWO64 == Value(ds, 4)
  {
    hide And, Mask, Evens, Odds, Pairs, BitsOf, PopCount, Fits, Value, Pow2, Sum;
    var bits := BitsOf(w, 64);
    FieldPowers();
    Masks();
    BitsOfWord(w, 64);
    Shape(bits, 64, 1);
    MaskKeeps(bits, 1, 2, 32);
    ShiftDigit(bits, 2);
    EvensAndOdds(bits, 2, 32, 1);
    FitsMore(Pairs(bits), 32, 2, 3);
    ValueBound(Pairs(bits), 2, 4, 32, 64);
  }

  /** The second step: fields of four bits. */
  lemma CountFours(a: U64, ds: Digits)
    requires Fits(ds, 32, 2) && a == Value(ds, 4)
    ensures Fits(Pairs(ds), 16, 4) && Sum(Pairs(ds)) == Sum(ds)
    ensures (And64(a, 0x3333_3333_3333_3333) + And64(a / 4, 0x3333_3333_3333_3333)) % TWO64 == Value(Pairs(ds), 16)
  {
    hide And, Mask, Evens, Odds, Pairs, Fits, Value, Pow2, Sum;
    FieldPowers();
    Masks();
    Shape(ds, 32, 2);
    FitsMore(ds, 32, 2, 3);
    MaskKeeps(ds, 2, 4, 16);
    ShiftDigit(ds, 4);
    EvensAndOdds(ds, 4, 16, 2);
    FitsMore(Pairs(ds), 16, 4, 15);
    ValueBound(Pairs(ds), 4, 16, 16, 64);
  }

  /** Each digit plus the next one. */
  function Neighbours(ds: Digits): Digits {
    if ds.Nil? then Nil else Cons(ds.head + (if ds.tail.Cons? then ds.tail.head else 0), Neighbours(ds.tail))
  }

  lemma TimesSum(p: nat, u: nat, v: nat)
    ensures p * (u + v) == p * u + p * v
  {
  }

  lemma {:induction false} AddNeighbours(ds: Digits, p: nat, n: nat, b: nat)
    requires Fits(ds, n, b)
    ensures Fits(Neighbours(ds), n, 2 * b)
    ensures ds.Cons? ==> Value(ds, p) + Value(ds.tail, p) == Value(Neighbours(ds), p)
    decreases n
  {
    if n > 1 {
      AddNeighbours(ds.tail, p, n - 1, b);
      var u, v := Value(ds.tail, p), Value(ds.tail.tail, p);
      TimesSum(p, u, v);
    }
  }

  lemma {:induction false} EvensOfNeighbours(ds: Digits, n: nat, b: nat)
    requires Fits(ds, 2 * n, b)
    ensures Evens(Neighbours(ds)) == Pairs(ds)
    decreases n
  {
    if n > 0 { EvensOfNeighbours(ds.tail.tail, n - 1, b); }
  }

  /** The third step: fields of eight bits, masked after the addition. */
  lemma CountEights(b: U64, ds: Digits)
    requires Fits(ds, 16, 4) && b == Value(ds, 16)
    ensures Fits(Pairs(ds), 8, 8) && Sum(Pairs(ds)) == Sum(ds)
    ensures And64((b + b / 16) % TWO64, 0x0F0F_0F0F_0F0F_0F0F) == Value(Pairs(ds), 256)
  {
    hide And, Mask, Evens, Odds, Pairs, Neighbours, Fits, Value, Pow2, Sum;
    FieldPowers();
    Masks();
    Shape(ds, 16, 4);
    FitsMore(ds, 16, 4, 15);
    ShiftDigit(ds, 16);
    AddNeighbours(ds, 16, 16, 4);
    FitsMore(Neighbours(ds), 16, 8, 15);
    MaskKeeps(Neighbours(ds), 4, 16, 8);
    ValueBound(Neighbours(ds), 4, 16, 16, 64);
    EvensOfNeighbours(ds, 8, 4);
    EvensAndOdds(ds, 16, 8, 4);
  }

  /** Digit-wise sum. */
  function Plus(ds: Digits, es: Digits): Digits {
    if ds.Cons? && es.Cons? then Cons(ds.head + es.head, Plus(ds.tail, es.tail)) else ds
  }

  function Drop(ds: Digits, k: nat): Digits { if k == 0 || ds.Nil? then ds else Drop(ds.tail, k - 1) }

  lemma {:induction false} PlusValue(ds: Digits, es: Digits, p: nat, n: nat, m: nat, b: nat)
    requires Fits(ds, n, b) && Fits(es, m, b) && m <= n
    ensures Value(Plus(ds, es), p) == Value(ds, p) + Value(es, p) && Fits(Plus(ds, es), n, 2 * b)
    decreases n
  {
    if m > 0 {
      PlusValue(ds.tail, es.tail, p, n - 1, m - 1, b);
      var u, v := Value(ds.tail, p), Value(es.tail, p);
      assert p * (u + v) == p * u + p * v;
    } else {
      FitsMore(ds, n, b, 2 * b);
    }
  }

  lemma {:induction false} DropBytes(ds: Digits, k: nat, n: nat, b: nat)
    requires k <= n && Fits(ds, n, b) && b < 256
    ensures Fits(Drop(ds, k), n - k, b) && Value(ds, 256) / Pow2(8 * k) == Value(Drop(ds, k), 256)
    decreases k
  {
    if k > 0 {
      hide Pow2;
      FieldPowers();
      var v, q := Value(ds, 256), Pow2(8 * (k - 1));
      DropBytes(ds.tail, k - 1, n - 1, b);
      ShiftDigit(ds, 256);
      assert 8 * k == 8 + 8 * (k - 1);
      Pow2Add(8, 8 * (k - 1));
      DivTwice(v, 256, q);
    }
  }

  /** One of the last steps: each byte is added to the one k places up. */
  lemma AddBytes(c: U64, ds: Digits, k: nat, b: nat)
    requires k <= 8 && Fits(ds, 8, b) && 2 * b < 256 && c == Value(ds, 256)
    ensures var es := Plus(ds, Drop(ds, k));
      Fits(es, 8, 2 * b) && (c + c / Pow2(8 * k)) % TWO64 == Value(es, 256)
  {
    hide Value, Fits, Pow2, Drop, Plus;
    FieldPowers();
    DropBytes(ds, k, 8, b);
    var es := Plus(ds, Drop(ds, k));
    PlusValue(ds, Drop(ds, k), 256, 8, 8 - k, b);
    FitsMore(es, 8, 2 * b, 255);
    ValueBound(es, 8, 256, 8, 64);
  }

  lemma LowByte(c: U64, ds: Digits, b: nat)
    requires Fits(ds, 8, b) && b < 256 && c == Value(ds, 256)
    ensures And64(c, 0xFF) == ds.head
  {
    hide And;
    AndLow(c, 8);
    FieldPowers();
    assert c == Value(ds.tail, 256) * 256 + ds.head;
    DivModUnique(c, 256, Value(ds.tail, 256), ds.head);
  }

  function At(ds: Digits, k: nat): nat { if ds.Nil? then 0 else if k == 0 then ds.head else At(ds.tail, k - 1) }

  lemma {:induction false} PlusAt(ds: Digits, es: Digits, k: nat, n: nat, m: nat, b: nat)
    requires Fits(ds, n, b) && Fits(es, m, b) && m <= n
    ensures At(Plus(ds, es), k) == At(ds, k) + At(es, k)
    decreases n
  {
    if m > 0 && k > 0 { PlusAt(ds.tail, es.tail, k - 1, n - 1, m - 1, b); }
  }

  lemma {:induction false} DropAt(ds: Digits, k: nat, j: nat)
    ensures At(Drop(ds, k), j) == At(ds, k + j)
    decreases k
  {
    if k > 0 && ds.Cons? { DropAt(ds.tail, k - 1, j); }
  }

  lemma SumAt(ds: Digits, b: nat)
    requires Fits(ds, 8, b)
    ensures Sum(ds) == At(ds, 0) + At(ds, 1) + At(ds, 2) + At(ds, 3) + At(ds, 4) + At(ds, 5) + At(ds, 6) + At(ds, 7)
  {
    hide At, Sum, Fits;
    SumFrom(ds, 8, b);
    assert Upto(ds, 2) == Upto(ds, 1) + At(ds, 1) && Upto(ds, 1) == At(ds, 0);
    assert Upto(ds, 4) == Upto(ds, 3) + At(ds, 3) && Upto(ds, 3) == Upto(ds, 2) + At(ds, 2);
    assert Upto(ds, 6) == Upto(ds, 5) + At(ds, 5) && Upto(ds, 5) == Upto(ds, 4) + At(ds, 4);
    assert Upto(ds, 8) == Upto(ds, 7) + At(ds, 7) && Upto(ds, 7) == Upto(ds, 6) + At(ds, 6);
  }

  function Upto(ds: Digits, n: nat): nat { if n == 0 then 0 else Upto(ds, n - 1) + At(ds, n - 1) }

  lemma {:induction false} UptoTail(ds: Digits, n: nat)
    requires ds.Cons?
    ensures Upto(ds, n + 1) == ds.head + Upto(ds.tail, n)
    decreases n
  {
    if n > 0 { UptoTail(ds, n - 1); }
  }

  lemma {:induction false} SumFrom(ds: Digits, n: nat, b: nat)
    requires Fits(ds, n, b)
    ensures Sum(ds) == Upto(ds, n)
    decreases n
  {
    if n > 0 {
      SumFrom(ds.tail, n - 1, b);
      UptoTail(ds, n - 1);
    }
  }

  /** Adding each byte to the one k places up. */
  lemma StepAt(ds: Digits, k: nat, j: nat, b: nat)
    requires k <= 8 && Fits(ds, 8, b) && b < 256
    ensures At(Plus(ds, Drop(ds, k)), j) == At(ds, j) + At(ds, k + j)
  {
    DropBytes(ds, k, 8, b);
    PlusAt(ds, Drop(ds, k), j, 8, 8 - k, b);
    DropAt(ds, k, j);
  }

  /** The last three steps leave the sum of all eight bytes in the lowest. */
  lemma CountAll(c: U64, ds: Digits)
    requires Fits(ds, 8, 8) && c == Value(ds, 256)
    ensures var d := (c + c / 0x100) % TWO64;
      var e := (d + d / 0x1_0000) % TWO64;
      And64((e + e / 0x1_0000_0000) % TWO64, 0xFF) == Sum(ds)
  {
    hide And, Value, Fits, Sum, Plus, Drop, At, Pow2;
    BytePowers();
    var ds1 := Plus(ds, Drop(ds, 1));
    var ds2 := Plus(ds1, Drop(ds1, 2));
    var d := (c + c / 0x100) % TWO64;
    var e := (d + d / 0x1_0000) % TWO64;
    AddBytes(c, ds, 1, 8);
    AddBytes(d, ds1, 2, 16);
    AddBytes(e, ds2, 4, 32);
    LowByte((e + e / 0x1_0000_0000) % TWO64, Plus(ds2, Drop(ds2, 4)), 64);
    StepAt(ds2, 4, 0, 32);
    StepAt(ds1, 2, 0, 16);
    StepAt(ds1, 2, 4, 16);
    forall j | j in {0, 2, 4, 6} ensures At(ds1, j) == At(ds, j) + At(ds, 1 + j) { StepAt(ds, 1, j, 8); }
    SumAt(ds, 8);
    HeadAt(Plus(ds2, Drop(ds2, 4)), 64);
  }

  lemma HeadAt(ds: Digits, b: nat)
    requires Fits(ds, 8, b)
    ensures ds.Cons? && ds.head == At(ds, 0)
  {
  }

  lemma BytePowers()
    ensures Pow2(8) == 0x100 && Pow2(16) == 0x1_0000 && Pow2(32) == 0x1_0000_0000
  {
    hide Pow2;
    FieldPowers();
    Powers();
    Pow2Add(8, 8);
  }

  /** The parallel count is the number of ones. */
  lemma Hweight64Counts(w: U64)
    ensures Hweight64(w) == PopCount(w)
  {
    hide And, Value, Fits, Sum, PopCount, Pairs, BitsOf;
    var twos := Pairs(BitsOf(w, 64));
    var a := (w - And64(w / 2, 0x5555_5555_5555_5555)) % TWO64;
    var b := (And64(a, 0x3333_3333_3333_3333) + And64(a / 4, 0x3333_3333_3333_3333)) % TWO64;
    CountTwos(w);
    CountFours(a, twos);
    CountEights(b, Pairs(twos));
    CountAll(And64((b + b / 16) % TWO64, 0x0F0F_0F0F_0F0F_0F0F), Pairs(Pairs(twos)));
  }
}
