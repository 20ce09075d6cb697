/** An SELinux policy database as a value: the rule table, the type maps, classes and roles. */
module PolicyDatabase {
  import opened Options
  import opened Constraint

  // ---------- access vectors ----------

  /** An access vector has one bit for each permission of a class. */
  type Av = bv32

  predicate OneBit(b: Av) { b != 0 && b & (b - 1) == 0 }

  predicate Has(av: Av, b: Av) { av & b != 0 }

  lemma HasOr(a: Av, c: Av, b: Av)
    ensures Has(a | c, b) <==> Has(a, b) || Has(c, b)
  {
    assert (a | c) & b == (a & b) | (c & b);
  }

  lemma HasAnd(a: Av, c: Av, b: Av)
    requires OneBit(b)
    ensures Has(a & c, b) <==> Has(a, b) && Has(c, b)
  {
  }

  lemma HasNot(a: Av, b: Av)
    requires OneBit(b)
    ensures Has(!a, b) <==> !Has(a, b)
  {
  }

  lemma HasMinus(a: Av, c: Av, n: Av, b: Av)
    requires OneBit(b) && n == !c
    ensures Has(a & n, b) <==> Has(a, b) && !Has(c, b)
  {
    assert Has(n, b) <==> !Has(c, b) by { HasNot(c, b); }
    hide Has, OneBit;
    HasAnd(a, n, b);
  }

  lemma OrBits(a: Av, c: Av)
    ensures forall b :: Has(a | c, b) <==> Has(a, b) || Has(c, b)
  {
    hide Has;
    forall b ensures Has(a | c, b) <==> Has(a, b) || Has(c, b) { HasOr(a, c, b); }
  }

  lemma AndBits(a: Av, c: Av)
    ensures forall b | OneBit(b) :: Has(a & c, b) <==> Has(a, b) && Has(c, b)
  {
    hide Has, OneBit;
    forall b | OneBit(b) ensures Has(a & c, b) <==> Has(a, b) && Has(c, b) { HasAnd(a, c, b); }
  }

  lemma MinusBits(a: Av, c: Av, n: Av)
    requires n == !c
    ensures forall b | OneBit(b) :: Has(a & n, b) <==> Has(a, b) && !Has(c, b)
  {
    hide Has, OneBit;
    forall b | OneBit(b) ensures Has(a & n, b) <==> Has(a, b) && !Has(c, b) { HasMinus(a, c, n, b); }
  }

  lemma HasBit(a: Av, b: Av)
    requires OneBit(a) && OneBit(b)
    ensures Has(a, b) <==> a == b
  {
  }

  /** The permissions of either vector. */
  function Join(a: Av, c: Av): (r: Av)
    ensures forall b :: Has(r, b) <==> Has(a, b) || Has(c, b)
  {
    OrBits(a, c);
    a | c
  }

  /** The permissions of both vectors. */
  function Meet(a: Av, c: Av): (r: Av)
    ensures forall b | OneBit(b) :: Has(r, b) <==> Has(a, b) && Has(c, b)
  {
    AndBits(a, c);
    a & c
  }

  /** The permissions of the first vector only. */
  function Minus(a: Av, c: Av): (r: Av)
    ensures forall b | OneBit(b) :: Has(r, b) <==> Has(a, b) && !Has(c, b)
  {
    MinusBits(a, c, !c);
    a & !c
  }

  /** Different vectors differ in some permission. */
  lemma Differ(a: Av, c: Av) returns (b: Av)
    requires a != c
    ensures OneBit(b) && (Has(a, b) <==> !Has(c, b))
  {
    var d := a ^ c;
    b := d & (!d + 1);
  }

  /** Two vectors with the same permissions are the same vector. */
  lemma SameBits(a: Av, c: Av)
    requires forall b | OneBit(b) :: Has(a, b) <==> Has(c, b)
    ensures a == c
  {
    hide Has, OneBit;
    if a != c {
      var b := Differ(a, c);
    }
  }

  function BitOf(value: nat): Av
    requires 1 <= value <= 32
  {
    (1 as bv32) << (value - 1)
  }

  lemma BitOfIsOneBit(value: nat)
    requires 1 <= value <= 32
    ensures OneBit(BitOf(value))
  {
  }

  // ---------- the rule table ----------

  datatype RuleKind = Allowed | AuditAllow | AuditDeny

  datatype Key = Key(source: nat, target: nat, cls: nat, kind: RuleKind)

  type Avtab = map<Key, Av>

  /** What a missing node stands for. */
  function Default(kind: RuleKind): Av { if kind == AuditDeny then 0xFFFF_FFFF else 0 }

  function Data(avtab: Avtab, key: Key): Av { if key in avtab then avtab[key] else Default(key.kind) }

  /** A rule carries a permission when it makes a difference to it: audit denials do so by a clear bit. */
  predicate Carries(avtab: Avtab, key: Key, b: Av) {
    if key.kind == AuditDeny then !Has(Data(avtab, key), b) else Has(Data(avtab, key), b)
  }

  // ---------- the database ----------

  /** `bounds` is the value of the bounding type, 0 for none. */
  datatype TypeDatum = TypeDatum(value: nat, isAttribute: bool, bounds: nat)

  datatype ConstraintNode = ConstraintNode(permissions: Av, expr: seq<Node>)

  datatype ClassDatum = ClassDatum(name: string, perms: map<string, nat>, common: Option<map<string, nat>>,
                                   constraints: seq<ConstraintNode>)

  /** `attrs[v - 1]` holds the values set in the attribute map of type v, `structs[v - 1]` its record,
      `classes[v - 1]` the class of value v. */
  datatype Policy = Policy(avtab: Avtab, attrs: seq<set<nat>>, structs: seq<Option<TypeDatum>>,
                           classes: seq<ClassDatum>, processClass: nat, processTrans: Av,
                           roleAllow: seq<(nat, nat)>, dominates: Dominates)

  /** What loading a policy guarantees. */
  predicate WellFormed(p: Policy) {
    && |p.structs| == |p.attrs|
    && (forall v, a :: 0 <= v < |p.attrs| && a in p.attrs[v] ==> 1 <= a <= |p.attrs|)
    && (forall v :: 0 <= v < |p.structs| && p.structs[v].Some? ==> p.structs[v].value.bounds <= |p.attrs|)
  }

  predicate ValidType(p: Policy, typ: nat) { 1 <= typ <= |p.attrs| }

  function Attrs(p: Policy, typ: nat): set<nat>
    requires ValidType(p, typ)
  {
    p.attrs[typ - 1]
  }

  /** Some pair of attributes of the two types names a rule of this kind that carries the permission. */
  ghost predicate Ruled(p: Policy, source: nat, target: nat, cls: nat, kind: RuleKind, b: Av)
    requires ValidType(p, source) && ValidType(p, target)
  {
    exists x, y :: x in Attrs(p, source) && y in Attrs(p, target) && Carries(p.avtab, Key(x, y, cls, kind), b)
  }
}
