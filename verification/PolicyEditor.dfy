/** Editing a loaded policy: rules with wildcards, new types and attributes. */
module PolicyEditor {
  import opened Options
  import opened Bits
  import opened Constraint
  import opened PolicyDatabase
  import opened AccessVector

  /** The size a rule takes in the serialized policy: a key of four 16-bit words and a datum of eight bytes. */
  const NODE_SIZE: nat := 16

  // ---------- what an edit means ----------

  function Applied(d: Av, perm: Option<Av>, invert: bool): Av {
    match perm
    case Some(bit) => if invert then Minus(d, bit) else Join(d, bit)
    case None => if invert then 0 else 0xFFFF_FFFF
  }

  predicate Hit(key: Key, sources: set<nat>, targets: set<nat>, classes: set<nat>, kind: RuleKind) {
    key.source in sources && key.target in targets && key.cls in classes && key.kind == kind
  }

  /** Rules in scope are rewritten and kept only if they say something; nothing else changes. */
  ghost predicate Edited(was: Avtab, now: Avtab, sources: set<nat>, targets: set<nat>, classes: set<nat>,
                         perm: Option<Av>, kind: RuleKind, invert: bool)
  {
    forall key: Key ::
      if Hit(key, sources, targets, classes, kind) then
        Data(now, key) == Applied(Data(was, key), perm, invert) && (key in now <==> Data(now, key) != Default(key.kind))
      else
        Data(now, key) == Data(was, key) && (key in now <==> key in was)
  }

  lemma AppliedTwice(d: Av, perm: Option<Av>, invert: bool)
    ensures Applied(Applied(d, perm, invert), perm, invert) == Applied(d, perm, invert)
  {
    hide Has, OneBit, Join, Meet, Minus;
    SameBits(Applied(Applied(d, perm, invert), perm, invert), Applied(d, perm, invert));
  }

  /** Edits compose over any split of their scope, in any order and with repetitions. */
  lemma EditedTwice(a: Avtab, b: Avtab, c: Avtab, s1: set<nat>, t1: set<nat>, c1: set<nat>,
                    s2: set<nat>, t2: set<nat>, c2: set<nat>, s: set<nat>, t: set<nat>, cs: set<nat>,
                    perm: Option<Av>, kind: RuleKind, invert: bool)
    requires Edited(a, b, s1, t1, c1, perm, kind, invert) && Edited(b, c, s2, t2, c2, perm, kind, invert)
    requires forall key :: Hit(key, s, t, cs, kind) <==> Hit(key, s1, t1, c1, kind) || Hit(key, s2, t2, c2, kind)
    ensures Edited(a, c, s, t, cs, perm, kind, invert)
  {
    hide Applied, Data, Default, Hit;
    forall key: Key
      ensures if Hit(key, s, t, cs, kind) then
                Data(c, key) == Applied(Data(a, key), perm, invert) && (key in c <==> Data(c, key) != Default(key.kind))
              else
                Data(c, key) == Data(a, key) && (key in c <==> key in a)
    {
      AppliedTwice(Data(a, key), perm, invert);
    }
  }

  // ---------- the database ----------

  datatype TypeName = TypeName(name: string, datum: TypeDatum)

  function Lookup(types: seq<TypeName>, name: string): (r: Option<TypeDatum>)
    ensures r.Some? ==> TypeName(name, r.value) in types
    ensures r.None? ==> forall e | e in types :: e.name != name
  {
    if types == [] then None
    else if types[0].name == name then Some(types[0].datum)
    else Lookup(types[1..], name)
  }

  /** The values a wildcard stands for: every type, or only the attributes. */
  function Named(types: seq<TypeName>, all: bool): set<nat> {
    set e | e in types && (all || e.datum.isAttribute) :: e.datum.value
  }

  /** Removing rules looks at every type, adding them at attributes only; an audit denial is added by clearing. */
  predicate StripAv(effect: RuleKind, invert: bool) { (effect == AuditDeny) == !invert }

  function ScopeOf(types: seq<TypeName>, one: Option<nat>, all: bool): set<nat> {
    if one.Some? then {one.value} else Named(types, all)
  }

  function UpTo(n: nat): (s: set<nat>)
    ensures forall v: nat :: v in s <==> 1 <= v <= n
  {
    if n == 0 then {} else UpTo(n - 1) + {n}
  }

  function ClassScope(count: nat, one: Option<nat>): set<nat> {
    if one.Some? then {one.value} else UpTo(count)
  }

  /** The value of the class of this name. */
  function FindClass(classes: seq<ClassDatum>, name: string): (r: Option<nat>)
    ensures r.Some? ==> 1 <= r.value <= |classes| && classes[r.value - 1].name == name
    ensures r.None? ==> forall c | c in classes :: c.name != name
  {
    if classes == [] then None
    else if classes[|classes| - 1].name == name then Some(|classes|)
    else FindClass(classes[..|classes| - 1], name)
  }

  function FindPerm(c: ClassDatum, name: string): Option<nat> {
    if name in c.perms then Some(c.perms[name])
    else if c.common.Some? && name in c.common.value then Some(c.common.value[name])
    else None
  }

  /** A rule's names, each resolved to a value or left as a wildcard. */
  datatype Scope = Scope(src: Option<nat>, tgt: Option<nat>, cls: Option<nat>, perm: Option<nat>)

  function ResolveType(types: seq<TypeName>, name: Option<string>): Option<Option<nat>> {
    if name.None? then Some(None)
    else
      var d := Lookup(types, name.value);
      if d.None? then None else Some(Some(d.value.value))
  }

  /** The scope a rule's names denote; there is none if a name is unknown or a permission comes without a class. */
  function Resolve(types: seq<TypeName>, classes: seq<ClassDatum>, s: Option<string>, t: Option<string>,
                   c: Option<string>, p: Option<string>): Option<Scope>
  {
    var src, tgt := ResolveType(types, s), ResolveType(types, t);
    var cls := if c.None? then None else FindClass(classes, c.value);
    if src.None? || tgt.None? || (c.Some? && cls.None?) then None
    else if p.None? then Some(Scope(src.value, tgt.value, cls, None))
    else if cls.None? then None
    else
      var perm := FindPerm(classes[cls.value - 1], p.value);
      if perm.None? then None else Some(Scope(src.value, tgt.value, cls, perm))
  }

  function PermBit(perm: Option<nat>): Option<Av>
    requires perm.Some? ==> 1 <= perm.value <= 32
  {
    if perm.None? then None else Some(BitOf(perm.value))
  }

  /** The edit rewrites the scope's rules; wildcards stand for every type when removing, for attributes when adding. */
  ghost predicate Rewrites(was: Avtab, now: Avtab, types: seq<TypeName>, classCount: nat, x: Scope, kind: RuleKind, invert: bool) {
    && (x.perm.Some? ==> 1 <= x.perm.value <= 32)
    && Edited(was, now, ScopeOf(types, x.src, StripAv(kind, invert)), ScopeOf(types, x.tgt, StripAv(kind, invert)),
              ClassScope(classCount, x.cls), PermBit(x.perm), kind, invert)
  }

  lemma {:induction false} LookupAppended(types: seq<TypeName>, name: string, d: TypeDatum)
    requires Lookup(types, name).None?
    ensures Lookup(types + [TypeName(name, d)], name) == Some(d)
  {
    if types != [] {
      LookupAppended(types[1..], name, d);
      assert (types + [TypeName(name, d)])[1..] == types[1..] + [TypeName(name, d)];
    }
  }

  predicate IsAttribute(types: seq<TypeName>, name: string, attribute: bool) {
    Lookup(types, name).Some? && Lookup(types, name).value.isAttribute == attribute
  }

  /** The policy with one more type, whose only attribute is itself. */
  function WithType(p: Policy, d: TypeDatum): Policy {
    p.(attrs := p.attrs + [{d.value}], structs := p.structs + [Some(d)])
  }

  function NameInNode(e: Node, typ: nat, attr: nat): Node {
    if e.kind == NamesKind && attr in e.typeNames then e.(names := e.names + {typ}) else e
  }

  function NameInExpr(expr: seq<Node>, typ: nat, attr: nat): seq<Node> {
    seq(|expr|, i requires 0 <= i < |expr| => NameInNode(expr[i], typ, attr))
  }

  function NameInConstraint(c: ConstraintNode, typ: nat, attr: nat): ConstraintNode {
    c.(expr := NameInExpr(c.expr, typ, attr))
  }

  function NameInClass(c: ClassDatum, typ: nat, attr: nat): ClassDatum {
    c.(constraints := seq(|c.constraints|, i requires 0 <= i < |c.constraints| => NameInConstraint(c.constraints[i], typ, attr)))
  }

  /** The policy in which the type has the attribute, also in the constraints that name the attribute. */
  function WithAttribute(p: Policy, typ: nat, attr: nat): Policy
    requires ValidType(p, typ)
  {
    p.(attrs := p.attrs[typ - 1 := p.attrs[typ - 1] + {attr}],
       classes := seq(|p.classes|, i requires 0 <= i < |p.classes| => NameInClass(p.classes[i], typ, attr)))
  }

  lemma SamePerms(p: Policy, typ: nat, attr: nat)
    requires ValidType(p, typ)
    ensures forall c | c in WithAttribute(p, typ, attr).classes ::
      exists c0 :: c0 in p.classes && c.perms == c0.perms && c.common == c0.common
  {
    var q := WithAttribute(p, typ, attr);
    forall c | c in q.classes
      ensures exists c0 :: c0 in p.classes && c.perms == c0.perms && c.common == c0.common
    {
      var i :| 0 <= i < |q.classes| && q.classes[i] == c;
      assert p.classes[i] in p.classes;
    }
  }

  lemma RulesKeepForm(p: Policy, avtab: Avtab)
    ensures WellFormed(p) ==> WellFormed(p.(avtab := avtab))
  {
  }

  lemma WithTypeWellFormed(p: Policy, d: TypeDatum)
    requires WellFormed(p) && d.value == |p.attrs| + 1 && d.bounds == 0
    ensures WellFormed(WithType(p, d))
  {
  }

  class PolicyDb {
    var avtab: Avtab
    var nel: nat
    var len: nat
    var types: seq<TypeName>
    var attrs: seq<set<nat>>
    var structs: seq<Option<TypeDatum>>
    var classes: seq<ClassDatum>
    var roleTypes: seq<set<nat>>
    var roleAllow: seq<(nat, nat)>
    var dominates: Dominates
    var processClass: nat
    var processTrans: Av

    function View(): Policy
      reads this
    {
      Policy(avtab, attrs, structs, classes, processClass, processTrans, roleAllow, dominates)
    }

    predicate Valid()
      reads this
    {
      && nel == |avtab|
      && NODE_SIZE * nel <= len
      && WellFormed(View())
      && (forall e :: e in types ==> 1 <= e.datum.value <= |attrs|)
      && (forall c, name :: c in classes && name in c.perms ==> 1 <= c.perms[name] <= 32)
      && (forall c, name :: c in classes && c.common.Some? && name in c.common.value ==> 1 <= c.common.value[name] <= 32)
    }

    /** The bytes of the serialized policy that are not rules. */
    function Rest(): int
      reads this
    {
      len - NODE_SIZE * nel
    }

    /** Find the rule, or insert one that says nothing. */
    method GetAvtabNode(key: Key)
      requires nel == |avtab|
      modifies this`avtab, this`nel, this`len
      ensures avtab == if key in old(avtab) then old(avtab) else old(avtab)[key := Default(key.kind)]
      ensures nel == |avtab| && Rest() == old(Rest()) && len == old(len) + if key in old(avtab) then 0 else 16
    {
      if key !in avtab {
        avtab := avtab[key := Default(key.kind)];
        nel := nel + 1;
        len := len + NODE_SIZE;
      }
    }

    method RemoveAvtabNode(key: Key) returns (ok: bool)
      requires nel == |avtab| && NODE_SIZE * nel <= len
      modifies this`avtab, this`nel, this`len
      ensures ok == (key in old(avtab)) && avtab == old(avtab) - {key}
      ensures nel == |avtab| && Rest() == old(Rest()) && old(len) == len + if ok then 16 else 0
    {
      if key !in avtab {
        return false;
      }
      ghost var was := avtab;
      avtab := avtab - {key};
      assert was.Keys == avtab.Keys + {key};
      if nel > 0 {
        nel := nel - 1;
      }
      if len >= NODE_SIZE {
        len := len - NODE_SIZE;
      }
      return true;
    }

    predicate IsRedundant(key: Key): (r: bool)
      requires key in avtab
      reads this
      ensures r <==> avtab[key] == Default(key.kind)
    {
      if key.kind == AuditDeny then avtab[key] == 0xFFFF_FFFF else avtab[key] == 0
    }

    /** add_rule_raw on one source, target and class. */
    method EditOne(key: Key, perm: Option<Av>, invert: bool) returns (ok: bool)
      requires nel == |avtab| && NODE_SIZE * nel <= len
      modifies this`avtab, this`nel, this`len
      ensures ok && Edited(old(avtab), avtab, {key.source}, {key.target}, {key.cls}, perm, key.kind, invert)
      ensures nel == |avtab| && Rest() == old(Rest())
    {
      hide Applied, Default, Edited;
      ghost var was := avtab;
      if invert && key.kind != AuditDeny {
        if key !in avtab {
          NothingToRemove(perm);
          EditedOne(was, avtab, key, perm, invert);
          return true;
        }
      } else {
        GetAvtabNode(key);
      }
      avtab := avtab[key := Applied(avtab[key], perm, invert)];
      ok := true;
      if IsRedundant(key) {
        ok := RemoveAvtabNode(key);
      }
      EditedOne(was, avtab, key, perm, invert);
    }

    /** add_rule_raw: a missing source, target or class stands for all of them, one at a time. */
    method AddRuleRaw(src: Option<nat>, tgt: Option<nat>, cls: Option<nat>, perm: Option<Av>, effect: RuleKind, invert: bool)
      returns (ok: bool)
      requires nel == |avtab| && NODE_SIZE * nel <= len
      modifies this`avtab, this`nel, this`len
      ensures ok && nel == |avtab| && Rest() == old(Rest())
      ensures Edited(old(avtab), avtab, ScopeOf(types, src, StripAv(effect, invert)), ScopeOf(types, tgt, StripAv(effect, invert)),
                     ClassScope(|classes|, cls), perm, effect, invert)
      decreases src.None?, tgt.None?, cls.None?
    {
      hide Edited;
      ok := true;
      ghost var start := avtab;
      var all := StripAv(effect, invert);
      ghost var ss, ts, cs := ScopeOf(types, src, all), ScopeOf(types, tgt, all), ClassScope(|classes|, cls);
      if src.None? {
        EditedNothing(start, {}, ts, cs, perm, effect, invert);
        assert Named(types[..0], all) == {};
        for i := 0 to |types|
          invariant ok && nel == |avtab| && Rest() == old(Rest())
          invariant Edited(start, avtab, Named(types[..i], all), ts, cs, perm, effect, invert)
        {
          NamedNext(types, i, all);
          if all || types[i].datum.isAttribute {
            ghost var mid := avtab;
            var done := AddRuleRaw(Some(types[i].datum.value), tgt, cls, perm, effect, invert);
            ok := ok && done;
            EditedTwice(start, mid, avtab, Named(types[..i], all), ts, cs, {types[i].datum.value}, ts, cs,
                        Named(types[..i + 1], all), ts, cs, perm, effect, invert);
          }
        }
        assert types[..|types|] == types;
      } else if tgt.None? {
        EditedNothing(start, ss, {}, cs, perm, effect, invert);
        assert Named(types[..0], all) == {};
        for i := 0 to |types|
          invariant ok && nel == |avtab| && Rest() == old(Rest())
          invariant Edited(start, avtab, ss, Named(types[..i], all), cs, perm, effect, invert)
        {
          NamedNext(types, i, all);
          if all || types[i].datum.isAttribute {
            ghost var mid := avtab;
            var done := AddRuleRaw(src, Some(types[i].datum.value), cls, perm, effect, invert);
            ok := ok && done;
            EditedTwice(start, mid, avtab, ss, Named(types[..i], all), cs, ss, {types[i].datum.value}, cs,
                        ss, Named(types[..i + 1], all), cs, perm, effect, invert);
          }
        }
        assert types[..|types|] == types;
      } else if cls.None? {
        EditedNothing(start, ss, ts, {}, perm, effect, invert);
        for i := 0 to |classes|
          invariant ok && nel == |avtab| && Rest() == old(Rest())
          invariant Edited(start, avtab, ss, ts, UpTo(i), perm, effect, invert)
        {
          ghost var mid := avtab;
          var done := AddRuleRaw(src, tgt, Some(i + 1), perm, effect, invert);
          ok := ok && done;
          EditedTwice(start, mid, avtab, ss, ts, UpTo(i), ss, ts, {i + 1},
                      ss, ts, UpTo(i + 1), perm, effect, invert);
        }
      } else {
        ok := EditOne(Key(src.value, tgt.value, cls.value, effect), perm, invert);
      }
    }

    /** add_rule: look the names up, then edit. */
    method AddRule(s: Option<string>, t: Option<string>, c: Option<string>, p: Option<string>, effect: RuleKind, invert: bool)
      returns (ok: bool)
      requires Valid()
      modifies this`avtab, this`nel, this`len
      ensures Valid() && Rest() == old(Rest())
      ensures ok == Resolve(types, classes, s, t, c, p).Some?
      ensures ok ==> Rewrites(old(avtab), avtab, types, |classes|, Resolve(types, classes, s, t, c, p).value, effect, invert)
      ensures ok ==> NamedEdit(old(avtab), avtab, types, classes, s, t, c, p, effect, invert)
      ensures !ok ==> avtab == old(avtab)
    {
      hide Edited, WellFormed, BitOf, ScopeOf, ClassScope, Lookup, FindClass, StripAv, NamedEdit;
      var src, tgt, cls, perm := None, None, None, None;
      if s.Some? {
        var d := Lookup(types, s.value);
        if d.None? { return false; }
        src := Some(d.value.value);
      }
      if t.Some? {
        var d := Lookup(types, t.value);
        if d.None? { return false; }
        tgt := Some(d.value.value);
      }
      if c.Some? {
        cls := FindClass(classes, c.value);
        if cls.None? { return false; }
      }
      if p.Some? {
        if c.None? { return false; }
        perm := FindPerm(classes[cls.value - 1], p.value);
        if perm.None? { return false; }
      }
      ghost var was := View();
      ok := AddRuleRaw(src, tgt, cls, PermBit(perm), effect, invert);
      RulesKeepForm(was, avtab);
      RewritesByName(was.avtab, avtab, types, classes, s, t, c, p, effect, invert);
    }

    method KsuAllow(s: Option<string>, t: Option<string>, c: Option<string>, p: Option<string>) returns (ok: bool)
      requires Valid()
      modifies this`avtab, this`nel, this`len
      ensures Valid() && Rest() == old(Rest())
      ensures ok == Resolve(types, classes, s, t, c, p).Some?
      ensures ok ==> Adds(old(View()), View(), types, Resolve(types, classes, s, t, c, p).value, Allowed)
      ensures ok ==> NamedEdit(old(avtab), avtab, types, classes, s, t, c, p, Allowed, false)
      ensures !ok ==> View() == old(View())
    {
      hide NamedEdit;
      ok := AddRule(s, t, c, p, Allowed, false);
    }

    method KsuDeny(s: Option<string>, t: Option<string>, c: Option<string>, p: Option<string>) returns (ok: bool)
      requires Valid()
      modifies this`avtab, this`nel, this`len
      ensures Valid() && Rest() == old(Rest())
      ensures ok == Resolve(types, classes, s, t, c, p).Some?
      ensures ok ==> Removes(old(View()), View(), types, Resolve(types, classes, s, t, c, p).value)
      ensures ok ==> NamedEdit(old(avtab), avtab, types, classes, s, t, c, p, Allowed, true)
      ensures !ok ==> View() == old(View())
    {
      hide NamedEdit;
      ok := AddRule(s, t, c, p, Allowed, true);
    }

    method KsuAuditallow(s: Option<string>, t: Option<string>, c: Option<string>, p: Option<string>) returns (ok: bool)
      requires Valid()
      modifies this`avtab, this`nel, this`len
      ensures Valid() && Rest() == old(Rest())
      ensures ok == Resolve(types, classes, s, t, c, p).Some?
      ensures ok ==> Adds(old(View()), View(), types, Resolve(types, classes, s, t, c, p).value, AuditAllow)
      ensures ok ==> NamedEdit(old(avtab), avtab, types, classes, s, t, c, p, AuditAllow, false)
      ensures !ok ==> View() == old(View())
    {
      hide NamedEdit;
      ok := AddRule(s, t, c, p, AuditAllow, false);
    }

    method KsuDontaudit(s: Option<string>, t: Option<string>, c: Option<string>, p: Option<string>) returns (ok: bool)
      requires Valid()
      modifies this`avtab, this`nel, this`len
      ensures Valid() && Rest() == old(Rest())
      ensures ok == Resolve(types, classes, s, t, c, p).Some?
      ensures ok ==> Adds(old(View()), View(), types, Resolve(types, classes, s, t, c, p).value, AuditDeny)
      ensures ok ==> NamedEdit(old(avtab), avtab, types, classes, s, t, c, p, AuditDeny, true)
      ensures !ok ==> View() == old(View())
    {
      hide NamedEdit;
      ok := AddRule(s, t, c, p, AuditDeny, true);
    }

    /** add_type: a type or attribute of its own, known to every role; an existing name is left alone. */
    method AddType(name: string, attribute: bool) returns (ok: bool)
      requires Valid()
      modifies this`types, this`attrs, this`structs, this`roleTypes
      ensures Valid() && ok && Lookup(types, name).Some?
      ensures Lookup(old(types), name).Some? ==> types == old(types) && View() == old(View()) && roleTypes == old(roleTypes)
      ensures Lookup(old(types), name).None? ==>
        var d := TypeDatum(|old(attrs)| + 1, attribute, 0);
        && types == old(types) + [TypeName(name, d)] && Lookup(types, name) == Some(d)
        && View() == WithType(old(View()), d)
        && |roleTypes| == |old(roleTypes)| && (forall i :: 0 <= i < |roleTypes| ==> roleTypes[i] == old(roleTypes[i]) + {d.value})
    {
      hide WellFormed, Lookup;
      if Lookup(types, name).Some? {
        return true;
      }
      var value := |attrs| + 1;
      var d := TypeDatum(value, attribute, 0);
      LookupAppended(types, name, d);
      types := types + [TypeName(name, d)];
      attrs := attrs + [{value}];
      structs := structs + [Some(d)];
      AddToRoles(value);
      WithTypeWellFormed(old(View()), d);
      return true;
    }

    method AddToRoles(value: nat)
      modifies this`roleTypes
      ensures |roleTypes| == |old(roleTypes)| && (forall i :: 0 <= i < |roleTypes| ==> roleTypes[i] == old(roleTypes[i]) + {value})
    {
      for i := 0 to |roleTypes|
        invariant |roleTypes| == |old(roleTypes)|
        invariant forall j :: 0 <= j < |roleTypes| ==> roleTypes[j] == if j < i then old(roleTypes[j]) + {value} else old(roleTypes[j])
      {
        roleTypes := roleTypes[i := roleTypes[i] + {value}];
      }
    }

    /** add_typeattribute_raw: the attribute joins the type's map, and the type every name list that has the
        attribute. */
    method AddTypeattributeRaw(typ: nat, attr: nat)
      requires Valid() && 1 <= typ <= |attrs| && 1 <= attr <= |attrs|
      modifies this`attrs, this`classes
      ensures Valid() && View() == WithAttribute(old(View()), typ, attr)
    {
      attrs := attrs[typ - 1 := attrs[typ - 1] + {attr}];
      for i := 0 to |classes|
        modifies this`classes
        invariant |classes| == |old(classes)|
        invariant forall j :: 0 <= j < |classes| ==>
          classes[j] == if j < i then NameInClass(old(classes[j]), typ, attr) else old(classes[j])
      {
        var cs := classes[i].constraints;
        for n := 0 to |cs|
          invariant |cs| == |classes[i].constraints|
          invariant forall j :: 0 <= j < |cs| ==>
            cs[j] == if j < n then NameInConstraint(classes[i].constraints[j], typ, attr) else classes[i].constraints[j]
        {
          var expr := cs[n].expr;
          for e := 0 to |expr|
            invariant |expr| == |cs[n].expr|
            invariant forall j :: 0 <= j < |expr| ==> expr[j] == if j < e then NameInNode(cs[n].expr[j], typ, attr) else cs[n].expr[j]
          {
            if expr[e].kind == NamesKind && attr in expr[e].typeNames {
              expr := expr[e := expr[e].(names := expr[e].names + {typ})];
            }
          }
          assert expr == NameInExpr(cs[n].expr, typ, attr);
          cs := cs[n := cs[n].(expr := expr)];
        }
        assert cs == NameInClass(classes[i], typ, attr).constraints;
        classes := classes[i := classes[i].(constraints := cs)];
      }
      assert classes == WithAttribute(old(View()), typ, attr).classes;
      SamePerms(old(View()), typ, attr);
    }

    /** add_typeattribute: only a type takes an attribute, and only an attribute is one. */
    method AddTypeattribute(typ: string, attr: string) returns (ok: bool)
      requires Valid()
      modifies this`attrs, this`classes
      ensures Valid()
      ensures ok <==> IsAttribute(types, typ, false) && IsAttribute(types, attr, true)
      ensures View() == if ok then WithAttribute(old(View()), Lookup(types, typ).value.value, Lookup(types, attr).value.value)
                        else old(View())
    {
      var d := Lookup(types, typ);
      if d.None? || d.value.isAttribute {
        return false;
      }
      var a := Lookup(types, attr);
      if a.None? || !a.value.isAttribute {
        return false;
      }
      AddTypeattributeRaw(d.value.value, a.value.value);
      return true;
    }
  }

  lemma NothingToRemove(perm: Option<Av>)
    ensures forall kind | kind != AuditDeny :: Applied(Default(kind), perm, true) == Default(kind)
  {
    if perm.Some? {
      assert 0 & !perm.value == 0;
    }
  }

  lemma EditedOne(was: Avtab, now: Avtab, key: Key, perm: Option<Av>, invert: bool)
    requires forall k | k != key :: Data(now, k) == Data(was, k) && (k in now <==> k in was)
    requires Data(now, key) == Applied(Data(was, key), perm, invert)
    requires key in now <==> Data(now, key) != Default(key.kind)
    ensures Edited(was, now, {key.source}, {key.target}, {key.cls}, perm, key.kind, invert)
  {
    hide Applied, Data, Default;
    forall k | Hit(k, {key.source}, {key.target}, {key.cls}, key.kind) ensures k == key {}
  }

  lemma EditedNothing(a: Avtab, s: set<nat>, t: set<nat>, c: set<nat>, perm: Option<Av>, kind: RuleKind, invert: bool)
    requires s == {} || t == {} || c == {}
    ensures Edited(a, a, s, t, c, perm, kind, invert)
  {
    hide Applied;
  }

  lemma NamedNext(types: seq<TypeName>, i: nat, all: bool)
    requires i < |types|
    ensures Named(types[..i + 1], all)
         == if all || types[i].datum.isAttribute then Named(types[..i], all) + {types[i].datum.value} else Named(types[..i], all)
  {
    assert types[..i + 1] == types[..i] + [types[i]];
  }

  // ---------- edits and decisions ----------

  predicate Covers(perm: Option<nat>, b: Av)
    requires perm.Some? ==> 1 <= perm.value <= 32
  {
    perm.None? || b == BitOf(perm.value)
  }

  /** The edit adds the scope's rules, of this kind: with wildcards standing for attributes. */
  ghost predicate Adds(p: Policy, q: Policy, types: seq<TypeName>, x: Scope, kind: RuleKind) {
    && (x.perm.Some? ==> 1 <= x.perm.value <= 32)
    && q == p.(avtab := q.avtab)
    && Rewrites(p.avtab, q.avtab, types, |p.classes|, x, kind, kind == AuditDeny)
  }

  /** The edit removes the scope's allow rules: with wildcards standing for every type. */
  ghost predicate Removes(p: Policy, q: Policy, types: seq<TypeName>, x: Scope) {
    && (x.perm.Some? ==> 1 <= x.perm.value <= 32)
    && q == p.(avtab := q.avtab)
    && Rewrites(p.avtab, q.avtab, types, |p.classes|, x, Allowed, true)
  }

  /** What one rewritten rule carries: the covered permissions are added, or removed. */
  lemma CarriesAfter(was: Avtab, now: Avtab, key: Key, perm: Option<nat>, invert: bool, b: Av)
    requires OneBit(b) && (perm.Some? ==> 1 <= perm.value <= 32)
    requires Data(now, key) == Applied(Data(was, key), PermBit(perm), invert)
    ensures Carries(now, key, b) <==>
      if StripAv(key.kind, invert) then Carries(was, key, b) && !Covers(perm, b)
      else Carries(was, key, b) || Covers(perm, b)
  {
    hide Has, OneBit, Join, Minus, Data;
    NoneAndAll(b);
    if perm.Some? {
      BitOfIsOneBit(perm.value);
      HasBit(BitOf(perm.value), b);
    }
  }

  lemma NoneAndAll(b: Av)
    requires OneBit(b)
    ensures !Has(0, b) && Has(0xFFFF_FFFF, b)
  {
  }

  /** Adding rules changes the type-enforcement decision by exactly the requested permissions, for exactly the
      pairs with an attribute in the source scope and one in the target scope. */
  lemma AddsExactly(p: Policy, q: Policy, types: seq<TypeName>, x: Scope, kind: RuleKind,
                    s: nat, t: nat, cls: nat, k: RuleKind, b: Av)
    requires Adds(p, q, types, x, kind) && OneBit(b)
    requires ValidType(p, s) && ValidType(p, t)
    ensures Ruled(q, s, t, cls, k, b) <==>
      Ruled(p, s, t, cls, k, b)
      || (k == kind && cls in ClassScope(|p.classes|, x.cls) && Covers(x.perm, b)
          && Attrs(p, s) * ScopeOf(types, x.src, false) != {} && Attrs(p, t) * ScopeOf(types, x.tgt, false) != {})
  {
    hide Applied, Data, Covers, OneBit, Carries, ScopeOf, ClassScope, PermBit;
    var ss, ts, cs := ScopeOf(types, x.src, false), ScopeOf(types, x.tgt, false), ClassScope(|p.classes|, x.cls);
    forall i: nat, j: nat
      ensures Carries(q.avtab, Key(i, j, cls, k), b) <==>
        Carries(p.avtab, Key(i, j, cls, k), b) || (Hit(Key(i, j, cls, k), ss, ts, cs, kind) && Covers(x.perm, b))
    {
      var key := Key(i, j, cls, k);
      if Hit(key, ss, ts, cs, kind) {
        CarriesAfter(p.avtab, q.avtab, key, x.perm, kind == AuditDeny, b);
      } else {
        SameData(p.avtab, q.avtab, key, b);
      }
    }
    if k == kind && cls in cs && Covers(x.perm, b) && Attrs(p, s) * ss != {} && Attrs(p, t) * ts != {} {
      var i :| i in Attrs(p, s) * ss;
      var j :| j in Attrs(p, t) * ts;
      assert Carries(q.avtab, Key(i, j, cls, k), b);
    }
    if Ruled(q, s, t, cls, k, b) {
      var i, j :| i in Attrs(p, s) && j in Attrs(p, t) && Carries(q.avtab, Key(i, j, cls, k), b);
      if !Carries(p.avtab, Key(i, j, cls, k), b) {
        assert i in Attrs(p, s) * ss && j in Attrs(p, t) * ts;
      }
    }
  }

  lemma SameData(was: Avtab, now: Avtab, key: Key, b: Av)
    requires Data(was, key) == Data(now, key)
    ensures Carries(was, key, b) <==> Carries(now, key, b)
  {
  }

  /** Removing rules leaves exactly what an out-of-scope rule still carries. */
  lemma RemovesExactly(p: Policy, q: Policy, types: seq<TypeName>, x: Scope, s: nat, t: nat, cls: nat, k: RuleKind, b: Av)
    requires Removes(p, q, types, x) && OneBit(b)
    requires ValidType(p, s) && ValidType(p, t)
    ensures Ruled(q, s, t, cls, k, b) <==> Spared(p, types, x, s, t, cls, k, b)
  {
    hide Applied, Data, Covers, OneBit, Carries, ScopeOf, ClassScope, PermBit;
    var ss, ts, cs := ScopeOf(types, x.src, true), ScopeOf(types, x.tgt, true), ClassScope(|p.classes|, x.cls);
    forall i: nat, j: nat
      ensures Carries(q.avtab, Key(i, j, cls, k), b) <==>
        Carries(p.avtab, Key(i, j, cls, k), b) && !(Hit(Key(i, j, cls, k), ss, ts, cs, Allowed) && Covers(x.perm, b))
    {
      var key := Key(i, j, cls, k);
      if Hit(key, ss, ts, cs, Allowed) {
        CarriesAfter(p.avtab, q.avtab, key, x.perm, true, b);
      } else {
        SameData(p.avtab, q.avtab, key, b);
      }
    }
  }

  /** A removal with both types left open clears its permissions for every pair of types. */
  lemma WildcardRemovalClears(p: Policy, q: Policy, types: seq<TypeName>, x: Scope, s: nat, t: nat, cls: nat, b: Av)
    requires Removes(p, q, types, x) && OneBit(b) && x.src.None? && x.tgt.None?
    requires ValidType(p, s) && ValidType(p, t) && Attrs(p, s) + Attrs(p, t) <= Named(types, true)
    requires cls in ClassScope(|p.classes|, x.cls) && Covers(x.perm, b)
    ensures !Ruled(q, s, t, cls, Allowed, b)
  {
    hide OneBit, Carries, ClassScope, Edited, Named, Covers;
    RemovesExactly(p, q, types, x, s, t, cls, Allowed, b);
  }

  /** A scope names an attribute of both types, the class and the permission. */
  predicate Reached(p: Policy, types: seq<TypeName>, x: Scope, s: nat, t: nat, cls: nat, b: Av)
    requires ValidType(p, s) && ValidType(p, t) && (x.perm.Some? ==> 1 <= x.perm.value <= 32)
  {
    && cls in ClassScope(|p.classes|, x.cls)
    && Covers(x.perm, b)
    && Attrs(p, s) * ScopeOf(types, x.src, false) != {}
    && Attrs(p, t) * ScopeOf(types, x.tgt, false) != {}
  }

  /** Which pairs of types have an allow rule for one class and permission. */
  type Rules = (nat, nat) -> bool

  /** The permission passes everything but the type bounds, were these the rules. */
  ghost predicate PassesGiven(p: Policy, ruled: Rules, s: Context, t: Context, cls: nat, b: Av)
    requires ValidType(p, s.typ) && ValidType(p, t.typ)
  {
    && 1 <= cls <= |p.classes|
    && ruled(s.typ, t.typ)
    && Upheld(EnvOf(p, s, t), p.classes[cls - 1].constraints, b)
    && RoleHolds(p, s, t, cls, b)
  }

  /** It does so at every level of the chain of bounding types. */
  ghost predicate PassesUpToGiven(p: Policy, ruled: Rules, s: Context, t: Context, cls: nat, b: Av, len: nat)
    requires WellFormed(p) && ValidType(p, s.typ) && ValidType(p, t.typ)
  {
    forall k: nat | k <= len :: PassesGiven(p, ruled, Up(p, s, k), Up(p, t, k), cls, b)
  }

  /** The pairs with an old rule, or reached by an added one. */
  ghost function AllowedBy(p: Policy, types: seq<TypeName>, x: Scope, cls: nat, b: Av): Rules
    requires x.perm.Some? ==> 1 <= x.perm.value <= 32
  {
    (s: nat, t: nat) => ValidType(p, s) && ValidType(p, t) && (Ruled(p, s, t, cls, Allowed, b) || Reached(p, types, x, s, t, cls, b))
  }

  /** Some old rule for the pair is out of the scope of a removal. */
  ghost predicate Spared(p: Policy, types: seq<TypeName>, x: Scope, s: nat, t: nat, cls: nat, k: RuleKind, b: Av)
    requires ValidType(p, s) && ValidType(p, t) && (x.perm.Some? ==> 1 <= x.perm.value <= 32)
  {
    exists i, j :: i in Attrs(p, s) && j in Attrs(p, t) && Carries(p.avtab, Key(i, j, cls, k), b)
      && !(Hit(Key(i, j, cls, k), ScopeOf(types, x.src, true), ScopeOf(types, x.tgt, true), ClassScope(|p.classes|, x.cls), Allowed)
           && Covers(x.perm, b))
  }

  /** The pairs with such a rule. */
  ghost function SparedBy(p: Policy, types: seq<TypeName>, x: Scope, cls: nat, b: Av): Rules
    requires x.perm.Some? ==> 1 <= x.perm.value <= 32
  {
    (s: nat, t: nat) => ValidType(p, s) && ValidType(p, t) && Spared(p, types, x, s, t, cls, Allowed, b)
  }

  lemma {:induction false} SameBounds(p: Policy, q: Policy, typ: nat, n: nat)
    requires WellFormed(p) && q == p.(avtab := q.avtab) && ValidType(p, typ) && EndsWithin(p, typ, n)
    ensures WellFormed(q) && EndsWithin(q, typ, n) && ChainLength(q, typ, n) == ChainLength(p, typ, n)
    decreases n
  {
    assert BoundOf(q, typ) == BoundOf(p, typ);
    if BoundOf(p, typ) != 0 { SameBounds(p, q, BoundOf(p, typ), n - 1); }
  }

  lemma {:induction false} SameUp(p: Policy, q: Policy, c: Context, k: nat)
    requires WellFormed(p) && WellFormed(q) && q == p.(avtab := q.avtab) && ValidType(p, c.typ)
    ensures Up(q, c, k) == Up(p, c, k)
    decreases k
  {
    if k > 0 { SameUp(p, q, Lowered(p, c), k - 1); }
  }

  /** After an edit of the rules, the whole decision is the one those rules give to the policy before it. */
  lemma DecisionByRules(p: Policy, q: Policy, ruled: Rules, s: Context, t: Context, cls: nat, b: Av, n: nat)
    requires WellFormed(p) && q == p.(avtab := q.avtab)
    requires forall x: nat, y: nat | ValidType(p, x) && ValidType(p, y) :: Ruled(q, x, y, cls, Allowed, b) <==> ruled(x, y)
    requires ValidType(p, s.typ) && ValidType(p, t.typ) && EndsWithin(p, s.typ, n)
    ensures WellFormed(q) && EndsWithin(q, s.typ, n)
    ensures Granted(q, s, t, cls, b, n) <==> PassesUpToGiven(p, ruled, s, t, cls, b, ChainLength(p, s.typ, n))
  {
    hide Ruled, Upheld, RoleHolds, Granted, EndsWithin, ChainLength, Up;
    SameBounds(p, q, s.typ, n);
    GrantedExactly(q, s, t, cls, b, n);
    forall k: nat
      ensures Up(q, s, k) == Up(p, s, k) && Up(q, t, k) == Up(p, t, k)
      ensures Passes(q, Up(q, s, k), Up(q, t, k), cls, b) <==> PassesGiven(p, ruled, Up(p, s, k), Up(p, t, k), cls, b)
    {
      SameUp(p, q, s, k);
      SameUp(p, q, t, k);
      SameChecks(p, q, Up(p, s, k), Up(p, t, k), cls, b);
    }
    AllAtOnce(p, q, ruled, s, t, cls, b, ChainLength(p, s.typ, n));
  }

  /** Constraints and role rules do not look at the rule table. */
  lemma SameChecks(p: Policy, q: Policy, s: Context, t: Context, cls: nat, b: Av)
    requires q == p.(avtab := q.avtab)
    ensures EnvOf(p, s, t) == EnvOf(q, s, t)
    ensures RoleHolds(p, s, t, cls, b) <==> RoleHolds(q, s, t, cls, b)
  {
  }

  lemma AllAtOnce(p: Policy, q: Policy, ruled: Rules, s: Context, t: Context, cls: nat, b: Av, len: nat)
    requires WellFormed(p) && WellFormed(q) && |p.attrs| == |q.attrs| && ValidType(p, s.typ) && ValidType(p, t.typ)
    requires forall k: nat :: Passes(q, Up(q, s, k), Up(q, t, k), cls, b) <==> PassesGiven(p, ruled, Up(p, s, k), Up(p, t, k), cls, b)
    ensures PassesUpTo(q, s, t, cls, b, len) <==> PassesUpToGiven(p, ruled, s, t, cls, b, len)
  {
    hide Passes, PassesGiven;
  }

  /** The whole decision after an allow edit, in terms of the policy before it. */
  lemma AllowDecides(p: Policy, q: Policy, types: seq<TypeName>, x: Scope, s: Context, t: Context, cls: nat, b: Av, n: nat)
    requires Adds(p, q, types, x, Allowed) && OneBit(b) && WellFormed(p)
    requires ValidType(p, s.typ) && ValidType(p, t.typ) && EndsWithin(p, s.typ, n)
    ensures WellFormed(q) && EndsWithin(q, s.typ, n)
    ensures Granted(q, s, t, cls, b, n) <==>
      PassesUpToGiven(p, AllowedBy(p, types, x, cls, b), s, t, cls, b, ChainLength(p, s.typ, n))
  {
    hide Ruled, Granted, PassesUpToGiven, Covers, OneBit, ScopeOf, ClassScope, Rewrites, EndsWithin;
    forall i: nat, j: nat | ValidType(p, i) && ValidType(p, j)
      ensures Ruled(q, i, j, cls, Allowed, b) <==> AllowedBy(p, types, x, cls, b)(i, j)
    {
      AddsExactly(p, q, types, x, Allowed, i, j, cls, Allowed, b);
    }
    DecisionByRules(p, q, AllowedBy(p, types, x, cls, b), s, t, cls, b, n);
  }

  /** The whole decision after a deny edit: what a spared rule grants at every level. */
  lemma DenyDecides(p: Policy, q: Policy, types: seq<TypeName>, x: Scope, s: Context, t: Context, cls: nat, b: Av, n: nat)
    requires Removes(p, q, types, x) && OneBit(b) && WellFormed(p)
    requires ValidType(p, s.typ) && ValidType(p, t.typ) && EndsWithin(p, s.typ, n)
    ensures WellFormed(q) && EndsWithin(q, s.typ, n)
    ensures Granted(q, s, t, cls, b, n) <==>
      PassesUpToGiven(p, SparedBy(p, types, x, cls, b), s, t, cls, b, ChainLength(p, s.typ, n))
  {
    hide Ruled, Spared, Granted, PassesUpToGiven, Covers, OneBit, ScopeOf, ClassScope, Rewrites, EndsWithin;
    forall i: nat, j: nat | ValidType(p, i) && ValidType(p, j)
      ensures Ruled(q, i, j, cls, Allowed, b) <==> SparedBy(p, types, x, cls, b)(i, j)
    {
      RemovesExactly(p, q, types, x, i, j, cls, Allowed, b);
    }
    DecisionByRules(p, q, SparedBy(p, types, x, cls, b), s, t, cls, b, n);
  }

  lemma SameRuled(p: Policy, q: Policy, s: nat, t: nat, cls: nat, b: Av)
    requires q == p.(avtab := q.avtab) && ValidType(p, s) && ValidType(p, t)
    requires forall key: Key | key.kind == Allowed :: Data(p.avtab, key) == Data(q.avtab, key)
    ensures Ruled(p, s, t, cls, Allowed, b) <==> Ruled(q, s, t, cls, Allowed, b)
  {
    hide Data, Carries;
    forall x: nat, y: nat
      ensures Carries(p.avtab, Key(x, y, cls, Allowed), b) <==> Carries(q.avtab, Key(x, y, cls, Allowed), b)
    {
      SameData(p.avtab, q.avtab, Key(x, y, cls, Allowed), b);
    }
  }

  /** Edits that leave the allow rules' meaning alone leave every decision alone: those of audit rules, and
      dropping rules that say nothing. */
  lemma {:induction false} SameAllowsSameDecision(p: Policy, q: Policy, s: Context, t: Context, cls: nat, b: Av, n: nat)
    requires WellFormed(p) && q == p.(avtab := q.avtab)
    requires forall key: Key | key.kind == Allowed :: Data(p.avtab, key) == Data(q.avtab, key)
    requires ValidType(p, s.typ) && ValidType(p, t.typ) && EndsWithin(p, s.typ, n)
    ensures WellFormed(q) && EndsWithin(q, s.typ, n)
    ensures Granted(q, s, t, cls, b, n) <==> Granted(p, s, t, cls, b, n)
    decreases n
  {
    hide Data, Upheld, Ruled;
    SameBounds(p, q, s.typ, n);
    SameRuled(p, q, s.typ, t.typ, cls, b);
    assert EnvOf(p, s, t) == EnvOf(q, s, t);
    assert RoleHolds(p, s, t, cls, b) <==> RoleHolds(q, s, t, cls, b);
    if BoundOf(p, s.typ) != 0 {
      assert Lowered(p, s) == Lowered(q, s) && Lowered(p, t) == Lowered(q, t);
      SameAllowsSameDecision(p, q, Lowered(p, s), Lowered(p, t), cls, b, n - 1);
    }
  }

  /** Audit edits change no decision. */
  lemma AuditEditsDecideNothing(p: Policy, q: Policy, types: seq<TypeName>, x: Scope, kind: RuleKind,
                                s: Context, t: Context, cls: nat, b: Av, n: nat)
    requires Adds(p, q, types, x, kind) && kind != Allowed && WellFormed(p)
    requires ValidType(p, s.typ) && ValidType(p, t.typ) && EndsWithin(p, s.typ, n)
    ensures WellFormed(q) && EndsWithin(q, s.typ, n)
    ensures Granted(q, s, t, cls, b, n) <==> Granted(p, s, t, cls, b, n)
  {
    hide Granted, Applied, Data;
    SameAllowsSameDecision(p, q, s, t, cls, b, n);
  }

  /** Dropping a rule that says nothing changes no rule lookup. */
  lemma RedundantDropsNothing(avtab: Avtab, key: Key)
    requires key in avtab && avtab[key] == Default(key.kind)
    ensures forall k :: Data(avtab - {key}, k) == Data(avtab, k)
  {
  }

  // ---------- new types and attributes ----------

  /** Rules name known types only, and so do the constraints' name lists. */
  predicate InRange(p: Policy) {
    && (forall key :: key in p.avtab ==> 1 <= key.source <= |p.attrs| && 1 <= key.target <= |p.attrs|)
    && (forall c, n, e, a :: c in p.classes && n in c.constraints && e in n.expr && a in e.typeNames ==> 1 <= a <= |p.attrs|)
  }

  /** A new type has no rule of any kind, as a source or as a target, until one is given to it. */
  lemma NewTypeHasNoRule(p: Policy, d: TypeDatum, t: nat, cls: nat, kind: RuleKind, b: Av)
    requires InRange(p) && d.value == |p.attrs| + 1 && OneBit(b)
    requires ValidType(WithType(p, d), t)
    ensures !Ruled(WithType(p, d), d.value, t, cls, kind, b) && !Ruled(WithType(p, d), t, d.value, cls, kind, b)
  {
    hide Has, OneBit;
    NothingByDefault();
  }

  /** A new type changes no decision between the types there were. */
  lemma {:induction false} NewTypeKeepsDecisions(p: Policy, d: TypeDatum, s: Context, t: Context, cls: nat, b: Av, n: nat)
    requires WellFormed(p) && d.value == |p.attrs| + 1 && d.bounds == 0
    requires ValidType(p, s.typ) && ValidType(p, t.typ) && EndsWithin(p, s.typ, n)
    ensures WellFormed(WithType(p, d)) && EndsWithin(WithType(p, d), s.typ, n)
    ensures Granted(WithType(p, d), s, t, cls, b, n) <==> Granted(p, s, t, cls, b, n)
    decreases n
  {
    hide Carries, Upheld;
    var q := WithType(p, d);
    assert EnvOf(p, s, t) == EnvOf(q, s, t);
    assert Attrs(p, s.typ) == Attrs(q, s.typ) && Attrs(p, t.typ) == Attrs(q, t.typ);
    assert Ruled(q, s.typ, t.typ, cls, Allowed, b) <==> Ruled(p, s.typ, t.typ, cls, Allowed, b);
    assert Lowered(p, s) == Lowered(q, s) && Lowered(p, t) == Lowered(q, t);
    if BoundOf(p, s.typ) != 0 {
      NewTypeKeepsDecisions(p, d, Lowered(p, s), Lowered(p, t), cls, b, n - 1);
    }
  }

  /** Taking an attribute adds exactly the rules of the attribute, as a source and as a target. */
  lemma AttributeAddsExactly(p: Policy, typ: nat, attr: nat, s: nat, t: nat, cls: nat, kind: RuleKind, b: Av)
    requires ValidType(p, typ) && ValidType(p, s) && ValidType(p, t)
    ensures var q := WithAttribute(p, typ, attr);
      Ruled(q, s, t, cls, kind, b) <==>
        Ruled(p, s, t, cls, kind, b)
        || (s == typ && exists y :: y in Attrs(q, t) && Carries(p.avtab, Key(attr, y, cls, kind), b))
        || (t == typ && exists x :: x in Attrs(q, s) && Carries(p.avtab, Key(x, attr, cls, kind), b))
  {
    hide Carries;
    var q := WithAttribute(p, typ, attr);
    assert Attrs(q, s) == if s == typ then Attrs(p, s) + {attr} else Attrs(p, s);
    assert Attrs(q, t) == if t == typ then Attrs(p, t) + {attr} else Attrs(p, t);
  }

  /** A constraint that names an attribute names every type that has it. */
  ghost predicate Synced(p: Policy) {
    forall c, n, e, v: nat, a | c in p.classes && n in c.constraints && e in n.expr && e.kind == NamesKind
      && a in e.typeNames && ValidType(p, v) && a in Attrs(p, v) :: v in e.names
  }

  lemma AttributeKeepsSync(p: Policy, typ: nat, attr: nat)
    requires Synced(p) && ValidType(p, typ)
    ensures Synced(WithAttribute(p, typ, attr))
  {
    var q := WithAttribute(p, typ, attr);
    forall c, n, e, v: nat, a | c in q.classes && n in c.constraints && e in n.expr && e.kind == NamesKind
      && a in e.typeNames && ValidType(q, v) && a in Attrs(q, v)
      ensures v in e.names
    {
      var e0 := NodeBefore(p, typ, attr, c, n, e);
      assert v != typ || a != attr ==> a in Attrs(p, v);
    }
  }

  /** The node a renamed node comes from. */
  lemma NodeBefore(p: Policy, typ: nat, attr: nat, c: ClassDatum, n: ConstraintNode, e: Node) returns (e0: Node)
    requires ValidType(p, typ) && c in WithAttribute(p, typ, attr).classes && n in c.constraints && e in n.expr
    ensures e == NameInNode(e0, typ, attr)
    ensures exists c0, n0 :: c0 in p.classes && n0 in c0.constraints && e0 in n0.expr
  {
    hide NameInNode;
    var i :| 0 <= i < |p.classes| && WithAttribute(p, typ, attr).classes[i] == c;
    var j :| 0 <= j < |c.constraints| && c.constraints[j] == n;
    var k :| 0 <= k < |n.expr| && n.expr[k] == e;
    e0 := p.classes[i].constraints[j].expr[k];
    assert p.classes[i] in p.classes && p.classes[i].constraints[j] in p.classes[i].constraints;
  }

  lemma NewTypeKeepsSync(p: Policy, d: TypeDatum)
    requires Synced(p) && InRange(p) && d.value == |p.attrs| + 1
    ensures Synced(WithType(p, d)) && InRange(WithType(p, d))
  {
    var q := WithType(p, d);
    forall c, n, e, v: nat, a | c in q.classes && n in c.constraints && e in n.expr && e.kind == NamesKind
      && a in e.typeNames && ValidType(q, v) && a in Attrs(q, v)
      ensures v in e.names
    {
      assert v <= |p.attrs| ==> Attrs(q, v) == Attrs(p, v);
    }
  }

  // ---------- edits as functions ----------

  function RuleKeys(sources: set<nat>, targets: set<nat>, classes: set<nat>, kind: RuleKind): set<Key> {
    set x, y, z | x in sources && y in targets && z in classes :: Key(x, y, z, kind)
  }

  /** The table after an edit. */
  function Rewritten(a: Avtab, sources: set<nat>, targets: set<nat>, classes: set<nat>,
                     perm: Option<Av>, kind: RuleKind, invert: bool): Avtab
  {
    map key | key in a.Keys + RuleKeys(sources, targets, classes, kind)
              && (Hit(key, sources, targets, classes, kind) ==> Applied(Data(a, key), perm, invert) != Default(key.kind))
      :: if Hit(key, sources, targets, classes, kind) then Applied(Data(a, key), perm, invert) else a[key]
  }

  lemma RewrittenAt(a: Avtab, sources: set<nat>, targets: set<nat>, classes: set<nat>,
                    perm: Option<Av>, kind: RuleKind, invert: bool, key: Key)
    ensures var r := Rewritten(a, sources, targets, classes, perm, kind, invert);
      if Hit(key, sources, targets, classes, kind) then
        Data(r, key) == Applied(Data(a, key), perm, invert) && (key in r <==> Data(r, key) != Default(key.kind))
      else
        Data(r, key) == Data(a, key) && (key in r <==> key in a)
  {
    hide Applied, Default;
  }

  lemma OneOutcome(a: Avtab, b: Avtab, c: Avtab, sources: set<nat>, targets: set<nat>, classes: set<nat>,
                   perm: Option<Av>, kind: RuleKind, invert: bool)
    requires Edited(a, b, sources, targets, classes, perm, kind, invert)
    requires Edited(a, c, sources, targets, classes, perm, kind, invert)
    ensures b == c
  {
    hide Applied, Default, Hit;
    forall key: Key
      ensures (key in b <==> key in c) && (key in b ==> b[key] == c[key])
    {
      assert Data(b, key) == Data(c, key);
    }
    assert b.Keys == c.Keys;
  }

  /** An edit has one outcome. */
  lemma RewrittenIs(a: Avtab, b: Avtab, sources: set<nat>, targets: set<nat>, classes: set<nat>,
                    perm: Option<Av>, kind: RuleKind, invert: bool)
    ensures Edited(a, b, sources, targets, classes, perm, kind, invert) <==>
      b == Rewritten(a, sources, targets, classes, perm, kind, invert)
  {
    hide Edited, Rewritten;
    RewrittenEdits(a, sources, targets, classes, perm, kind, invert);
    if Edited(a, b, sources, targets, classes, perm, kind, invert) {
      OneOutcome(a, b, Rewritten(a, sources, targets, classes, perm, kind, invert), sources, targets, classes, perm, kind, invert);
    }
  }

  lemma RewrittenEdits(a: Avtab, sources: set<nat>, targets: set<nat>, classes: set<nat>,
                       perm: Option<Av>, kind: RuleKind, invert: bool)
    ensures Edited(a, Rewritten(a, sources, targets, classes, perm, kind, invert), sources, targets, classes, perm, kind, invert)
  {
    var r := Rewritten(a, sources, targets, classes, perm, kind, invert);
    hide Applied, Default, Hit, Rewritten, Data;
    forall key: Key
      ensures if Hit(key, sources, targets, classes, kind) then
                Data(r, key) == Applied(Data(a, key), perm, invert) && (key in r <==> Data(r, key) != Default(key.kind))
              else
                Data(r, key) == Data(a, key) && (key in r <==> key in a)
    {
      RewrittenAt(a, sources, targets, classes, perm, kind, invert, key);
    }
  }

  // ---------- rules by name ----------

  /** The value a name stands for among the types, or none for no name. */
  predicate TypeNamed(types: seq<TypeName>, name: Option<string>, v: Option<nat>) {
    match name
    case None => v.None?
    case Some(n) =>
      v.Some? && (exists i :: 0 <= i < |types| && types[i].name == n && types[i].datum.value == v.value
                    && forall j :: 0 <= j < i ==> types[j].name != n)
  }

  /** Classes are counted from one. */
  predicate ClassNamed(classes: seq<ClassDatum>, name: Option<string>, v: Option<nat>) {
    match name
    case None => v.None?
    case Some(n) =>
      v.Some? && 1 <= v.value <= |classes| && classes[v.value - 1].name == n
        && forall j :: v.value <= j < |classes| ==> classes[j].name != n
  }

  /** A permission belongs to the class named with it, which may inherit it from its common. */
  predicate PermNamed(classes: seq<ClassDatum>, cls: Option<nat>, name: Option<string>, v: Option<nat>)
    requires cls.Some? ==> 1 <= cls.value <= |classes|
  {
    match name
    case None => v.None?
    case Some(n) =>
      cls.Some? && v.Some?
      && var c := classes[cls.value - 1];
         || (n in c.perms && v.value == c.perms[n])
         || (n !in c.perms && c.common.Some? && n in c.common.value && v.value == c.common.value[n])
  }

  predicate Denotes(types: seq<TypeName>, classes: seq<ClassDatum>, s: Option<string>, t: Option<string>,
                    c: Option<string>, p: Option<string>, x: Scope)
  {
    && TypeNamed(types, s, x.src)
    && TypeNamed(types, t, x.tgt)
    && ClassNamed(classes, c, x.cls)
    && PermNamed(classes, x.cls, p, x.perm)
  }

  lemma {:induction false} LookupFirst(types: seq<TypeName>, name: string, v: nat)
    ensures Lookup(types, name).Some? && Lookup(types, name).value.value == v <==> TypeNamed(types, Some(name), Some(v))
    decreases |types|
  {
    if types != [] && types[0].name != name {
      hide TypeNamed;
      LookupFirst(types[1..], name, v);
      NamedInRest(types, name, v);
    }
  }

  lemma NamedInRest(types: seq<TypeName>, name: string, v: nat)
    requires types != [] && types[0].name != name
    ensures TypeNamed(types, Some(name), Some(v)) <==> TypeNamed(types[1..], Some(name), Some(v))
  {
    var rest := types[1..];
    if TypeNamed(types, Some(name), Some(v)) {
      var i :| 0 <= i < |types| && types[i].name == name && types[i].datum.value == v && forall j :: 0 <= j < i ==> types[j].name != name;
      assert rest[i - 1] == types[i] && forall j :: 0 <= j < i - 1 ==> rest[j] == types[j + 1];
    }
    if TypeNamed(rest, Some(name), Some(v)) {
      var i :| 0 <= i < |rest| && rest[i].name == name && rest[i].datum.value == v && forall j :: 0 <= j < i ==> rest[j].name != name;
      assert types[i + 1] == rest[i] && forall j :: 0 < j < i + 1 ==> types[j] == rest[j - 1];
    }
  }

  lemma {:induction false} ClassLast(classes: seq<ClassDatum>, name: string, v: nat)
    ensures FindClass(classes, name) == Some(v) <==> ClassNamed(classes, Some(name), Some(v))
    decreases |classes|
  {
    if classes != [] && classes[|classes| - 1].name != name {
      ClassLast(classes[..|classes| - 1], name, v);
    }
  }

  lemma TypeResolved(types: seq<TypeName>, name: Option<string>, v: Option<nat>)
    ensures ResolveType(types, name) == Some(v) <==> TypeNamed(types, name, v)
  {
    hide Lookup;
    if name.Some? && v.Some? {
      LookupFirst(types, name.value, v.value);
    }
  }

  /** A rule's names resolve to a scope if and only if the scope is what they denote. */
  lemma ResolveMeans(types: seq<TypeName>, classes: seq<ClassDatum>, s: Option<string>, t: Option<string>,
                     c: Option<string>, p: Option<string>, x: Scope)
    ensures Resolve(types, classes, s, t, c, p) == Some(x) <==> Denotes(types, classes, s, t, c, p, x)
  {
    hide ResolveType, TypeNamed, FindClass;
    TypeResolved(types, s, x.src);
    TypeResolved(types, t, x.tgt);
    if c.Some? && x.cls.Some? {
      ClassLast(classes, c.value, x.cls.value);
    }
  }

  /** An edit with all four names rewrites one rule: that of the named source, target and class. */
  ghost predicate OneRule(was: Avtab, now: Avtab, s: nat, t: nat, cls: nat, kind: RuleKind, data: Av) {
    && Data(now, Key(s, t, cls, kind)) == data
    && forall key: Key | key != Key(s, t, cls, kind) :: Data(now, key) == Data(was, key)
  }

  /** What the edit by names does, said without resolving them. */
  ghost predicate NamedEdit(was: Avtab, now: Avtab, types: seq<TypeName>, classes: seq<ClassDatum>, s: Option<string>,
                            t: Option<string>, c: Option<string>, p: Option<string>, kind: RuleKind, invert: bool)
  {
    forall vs, vt, k, v: nat |
      s.Some? && t.Some? && c.Some? && p.Some? && Denotes(types, classes, s, t, c, p, Scope(Some(vs), Some(vt), Some(k), Some(v))) ::
        1 <= v <= 32 && OneRule(was, now, vs, vt, k, kind,
          if invert then Minus(Data(was, Key(vs, vt, k, kind)), BitOf(v)) else Join(Data(was, Key(vs, vt, k, kind)), BitOf(v)))
  }

  lemma RewritesByName(was: Avtab, now: Avtab, types: seq<TypeName>, classes: seq<ClassDatum>, s: Option<string>,
                       t: Option<string>, c: Option<string>, p: Option<string>, kind: RuleKind, invert: bool)
    requires Resolve(types, classes, s, t, c, p).Some?
    requires Rewrites(was, now, types, |classes|, Resolve(types, classes, s, t, c, p).value, kind, invert)
    ensures NamedEdit(was, now, types, classes, s, t, c, p, kind, invert)
  {
    hide Resolve, Denotes, Rewrites, OneRule, Data, BitOf, Minus, Join;
    forall vs, vt, k, v: nat |
      s.Some? && t.Some? && c.Some? && p.Some? && Denotes(types, classes, s, t, c, p, Scope(Some(vs), Some(vt), Some(k), Some(v)))
      ensures 1 <= v <= 32 && OneRule(was, now, vs, vt, k, kind,
        if invert then Minus(Data(was, Key(vs, vt, k, kind)), BitOf(v)) else Join(Data(was, Key(vs, vt, k, kind)), BitOf(v)))
    {
      ResolveMeans(types, classes, s, t, c, p, Scope(Some(vs), Some(vt), Some(k), Some(v)));
      RewritesOne(was, now, types, |classes|, vs, vt, k, v, kind, invert);
    }
  }

  /** An allow rule given by four names decides for the types that have the two named ones, as source and as target:
      they get the named permission of the named class, if the other checks pass, and nobody else does. */
  lemma NamedAllowDecides(p: Policy, q: Policy, vs: nat, vt: nat, k: nat, v: nat, s: Context, t: Context, n: nat)
    requires WellFormed(p) && q == p.(avtab := q.avtab) && 1 <= v <= 32
    requires OneRule(p.avtab, q.avtab, vs, vt, k, Allowed, Join(Data(p.avtab, Key(vs, vt, k, Allowed)), BitOf(v)))
    requires ValidType(p, s.typ) && ValidType(p, t.typ) && EndsWithin(p, s.typ, n)
    ensures WellFormed(q) && EndsWithin(q, s.typ, n)
    ensures Granted(q, s, t, k, BitOf(v), n) <==>
      PassesUpToGiven(p, NamedRules(p, vs, vt, k, v), s, t, k, BitOf(v), ChainLength(p, s.typ, n))
  {
    hide Ruled, Granted, PassesUpToGiven, EndsWithin, BitOf, Join, OneRule;
    forall x: nat, y: nat | ValidType(p, x) && ValidType(p, y)
      ensures Ruled(q, x, y, k, Allowed, BitOf(v)) <==> NamedRules(p, vs, vt, k, v)(x, y)
    {
      NamedRuled(p, q, vs, vt, k, v, x, y);
    }
    DecisionByRules(p, q, NamedRules(p, vs, vt, k, v), s, t, k, BitOf(v), n);
  }

  /** The pairs with an old rule, or with the two named types among their attributes. */
  ghost function NamedRules(p: Policy, vs: nat, vt: nat, k: nat, v: nat): Rules
    requires 1 <= v <= 32
  {
    (x: nat, y: nat) => ValidType(p, x) && ValidType(p, y)
      && (Ruled(p, x, y, k, Allowed, BitOf(v)) || (vs in Attrs(p, x) && vt in Attrs(p, y)))
  }

  lemma NamedRuled(p: Policy, q: Policy, vs: nat, vt: nat, k: nat, v: nat, x: nat, y: nat)
    requires q == p.(avtab := q.avtab) && 1 <= v <= 32 && ValidType(p, x) && ValidType(p, y)
    requires OneRule(p.avtab, q.avtab, vs, vt, k, Allowed, Join(Data(p.avtab, Key(vs, vt, k, Allowed)), BitOf(v)))
    ensures Ruled(q, x, y, k, Allowed, BitOf(v)) <==>
      Ruled(p, x, y, k, Allowed, BitOf(v)) || (vs in Attrs(p, x) && vt in Attrs(p, y))
  {
    hide BitOf, Join, Data, Has, OneBit;
    BitOfIsOneBit(v);
    HasBit(BitOf(v), BitOf(v));
    forall i: nat, j: nat
      ensures Carries(q.avtab, Key(i, j, k, Allowed), BitOf(v)) <==>
        Carries(p.avtab, Key(i, j, k, Allowed), BitOf(v)) || (i == vs && j == vt)
    {
    }
    assert vs in Attrs(p, x) && vt in Attrs(p, y) ==> Carries(q.avtab, Key(vs, vt, k, Allowed), BitOf(v));
  }

  lemma RewritesOne(was: Avtab, now: Avtab, types: seq<TypeName>, count: nat, s: nat, t: nat, cls: nat, v: nat,
                    kind: RuleKind, invert: bool)
    requires Rewrites(was, now, types, count, Scope(Some(s), Some(t), Some(cls), Some(v)), kind, invert)
    ensures 1 <= v <= 32
    ensures OneRule(was, now, s, t, cls, kind,
      if invert then Minus(Data(was, Key(s, t, cls, kind)), BitOf(v)) else Join(Data(was, Key(s, t, cls, kind)), BitOf(v)))
  {
    hide Data, Default, BitOf, Minus, Join;
  }

  /** The bit of a permission, as a number. */
  lemma BitOfIsPower(v: nat)
    requires 1 <= v <= 32
    ensures BitOf(v) as int == Pow2(v - 1)
  {
    hide Pow2, BitOf;
    WordPowers();
    if v <= 8 {
      LowestBits(v);
    } else if v <= 16 {
      LowBits(v);
    } else if v <= 24 {
      HighBits(v);
    } else {
      HighestBits(v);
    }
  }

  const POWERS: seq<nat> := [
    0x1, 0x2, 0x4, 0x8, 0x10, 0x20, 0x40, 0x80,
    0x100, 0x200, 0x400, 0x800, 0x1000, 0x2000, 0x4000, 0x8000,
    0x10000, 0x20000, 0x40000, 0x80000, 0x100000, 0x200000, 0x400000, 0x800000,
    0x1000000, 0x2000000, 0x4000000, 0x8000000, 0x10000000, 0x20000000, 0x40000000, 0x80000000]

  lemma WordPowers()
    ensures forall i: nat | i < 32 :: Pow2(i) == POWERS[i]
  {
    forall i: nat | i < 32 ensures Pow2(i) == POWERS[i] { PowerIs(i); }
  }

  lemma PowerIs(i: nat)
    requires i < 32
    ensures Pow2(i) == POWERS[i]
  {
    if i > 0 { PowerIs(i - 1); }
  }

  lemma LowestBits(v: nat)
    requires 1 <= v <= 8
    ensures BitOf(v) as int == POWERS[v - 1]
  {
    if v == 1 {
      assert BitOf(1) as int == 0x1;
    } else if v == 2 {
      assert BitOf(2) as int == 0x2;
    } else if v == 3 {
      assert BitOf(3) as int == 0x4;
    } else if v == 4 {
      assert BitOf(4) as int == 0x8;
    } else if v == 5 {
      assert BitOf(5) as int == 0x10;
    } else if v == 6 {
      assert BitOf(6) as int == 0x20;
    } else if v == 7 {
      assert BitOf(7) as int == 0x40;
    } else {
      assert BitOf(8) as int == 0x80;
    }
  }

  lemma LowBits(v: nat)
    requires 9 <= v <= 16
    ensures BitOf(v) as int == POWERS[v - 1]
  {
    if v == 9 {
      assert BitOf(9) as int == 0x100;
    } else if v == 10 {
      assert BitOf(10) as int == 0x200;
    } else if v == 11 {
      assert BitOf(11) as int == 0x400;
    } else if v == 12 {
      assert BitOf(12) as int == 0x800;
    } else if v == 13 {
      assert BitOf(13) as int == 0x1000;
    } else if v == 14 {
      assert BitOf(14) as int == 0x2000;
    } else if v == 15 {
      assert BitOf(15) as int == 0x4000;
    } else {
      assert BitOf(16) as int == 0x8000;
    }
  }

  lemma HighBits(v: nat)
    requires 17 <= v <= 24
    ensures BitOf(v) as int == POWERS[v - 1]
  {
    if v == 17 {
      assert BitOf(17) as int == 0x10000;
    } else if v == 18 {
      assert BitOf(18) as int == 0x20000;
    } else if v == 19 {
      assert BitOf(19) as int == 0x40000;
    } else if v == 20 {
      assert BitOf(20) as int == 0x80000;
    } else if v == 21 {
      assert BitOf(21) as int == 0x100000;
    } else if v == 22 {
      assert BitOf(22) as int == 0x200000;
    } else if v == 23 {
      assert BitOf(23) as int == 0x400000;
    } else {
      assert BitOf(24) as int == 0x800000;
    }
  }

  lemma HighestBits(v: nat)
    requires 25 <= v <= 32
    ensures BitOf(v) as int == POWERS[v - 1]
  {
    if v == 25 {
      assert BitOf(25) as int == 0x1000000;
    } else if v == 26 {
      assert BitOf(26) as int == 0x2000000;
    } else if v == 27 {
      assert BitOf(27) as int == 0x4000000;
    } else if v == 28 {
      assert BitOf(28) as int == 0x8000000;
    } else if v == 29 {
      assert BitOf(29) as int == 0x10000000;
    } else if v == 30 {
      assert BitOf(30) as int == 0x20000000;
    } else if v == 31 {
      assert BitOf(31) as int == 0x40000000;
    } else {
      assert BitOf(32) as int == 0x80000000;
    }
  }
}
