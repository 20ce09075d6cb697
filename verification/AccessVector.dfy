/** Computing an access decision: rules, constraints, role transitions and type bounds. */
module AccessVector {
  import opened Options
  import opened Constraint
  import opened PolicyDatabase

  // ---------- type bounds ----------

  /** The bounding type, 0 for none (or for a type without a record, where the evaluator stops). */
  function BoundOf(p: Policy, typ: nat): nat
    requires WellFormed(p) && ValidType(p, typ)
  {
    var d := p.structs[typ - 1];
    if d.Some? then d.value.bounds else 0
  }

  /** The chain of bounding types ends within n steps. */
  predicate EndsWithin(p: Policy, typ: nat, n: nat)
    requires WellFormed(p) && ValidType(p, typ)
    decreases n
  {
    BoundOf(p, typ) == 0 || (n > 0 && EndsWithin(p, BoundOf(p, typ), n - 1))
  }

  /** The context with its type replaced by the bounding type, if there is one. */
  function Lowered(p: Policy, c: Context): Context
    requires WellFormed(p) && ValidType(p, c.typ)
  {
    if BoundOf(p, c.typ) == 0 then c else c.(typ := BoundOf(p, c.typ))
  }

  // ---------- what a decision means ----------

  function EnvOf(p: Policy, s: Context, t: Context): Env { Env(p.dominates, s, t, None) }

  /** A process may only change to a role its own role may enter. */
  predicate RoleHolds(p: Policy, s: Context, t: Context, cls: nat, b: Av) {
    cls == p.processClass && Has(p.processTrans, b) && s.role != t.role ==> (s.role, t.role) in p.roleAllow
  }

  /** The permission passes everything but the type bounds. */
  ghost predicate Passes(p: Policy, s: Context, t: Context, cls: nat, b: Av)
    requires ValidType(p, s.typ) && ValidType(p, t.typ)
  {
    && 1 <= cls <= |p.classes|
    && Ruled(p, s.typ, t.typ, cls, Allowed, b)
    && Upheld(EnvOf(p, s, t), p.classes[cls - 1].constraints, b)
    && RoleHolds(p, s, t, cls, b)
  }

  /** The decision: the permission passes here and is granted to the bounding type, whose target is the target's
      own bounding type where there is one. */
  ghost predicate Granted(p: Policy, s: Context, t: Context, cls: nat, b: Av, n: nat)
    requires WellFormed(p) && ValidType(p, s.typ) && ValidType(p, t.typ) && EndsWithin(p, s.typ, n)
    decreases n
  {
    && Passes(p, s, t, cls, b)
    && (BoundOf(p, s.typ) == 0 || Granted(p, Lowered(p, s), Lowered(p, t), cls, b, n - 1))
  }

  /** The evaluator meets no BUG on this pair: both types have records and every constraint is a formula. */
  ghost predicate Sound(p: Policy, s: Context, t: Context, cls: nat)
    requires WellFormed(p) && ValidType(p, s.typ) && ValidType(p, t.typ)
  {
    && p.structs[s.typ - 1].Some?
    && p.structs[t.typ - 1].Some?
    && (1 <= cls <= |p.classes| ==>
          forall c :: c in p.classes[cls - 1].constraints ==> Machine(EnvOf(p, s, t), c.expr, Nil) != Bug)
  }

  ghost predicate SoundChain(p: Policy, s: Context, t: Context, cls: nat, n: nat)
    requires WellFormed(p) && ValidType(p, s.typ) && ValidType(p, t.typ) && EndsWithin(p, s.typ, n)
    decreases n
  {
    && Sound(p, s, t, cls)
    && (BoundOf(p, s.typ) == 0 || SoundChain(p, Lowered(p, s), Lowered(p, t), cls, n - 1))
  }

  // ---------- the evaluator ----------

  class AvDecision {
    var allowed: Av
    var auditallow: Av
    var auditdeny: Av

    constructor () {
      allowed, auditallow, auditdeny := 0, 0, 0;
    }

    /** The decision has taken a rule of this kind for the permission. */
    predicate Took(kind: RuleKind, b: Av)
      reads this
    {
      match kind
      case Allowed => Has(allowed, b)
      case AuditAllow => Has(auditallow, b)
      case AuditDeny => !Has(auditdeny, b)
    }

    method TakeRule(kind: RuleKind, data: Av)
      modifies this
      ensures forall q, b | OneBit(b) ::
        Took(q, b) <==> old(Took(q, b)) || (q == kind && (if q == AuditDeny then !Has(data, b) else Has(data, b)))
    {
      hide Has, OneBit, Join, Meet;
      if kind == Allowed {
        allowed := Join(allowed, data);
      } else if kind == AuditAllow {
        auditallow := Join(auditallow, data);
      } else {
        auditdeny := Meet(auditdeny, data);
      }
    }

    /** The rules found for one key, in table order. */
    method TakeRules(avtab: Avtab, x: nat, y: nat, cls: nat)
      modifies this
      ensures forall q, b | OneBit(b) :: Took(q, b) <==> old(Took(q, b)) || Carries(avtab, Key(x, y, cls, q), b)
    {
      hide Has, OneBit;
      NothingByDefault();
      if Key(x, y, cls, Allowed) in avtab {
        TakeRule(Allowed, avtab[Key(x, y, cls, Allowed)]);
      }
      if Key(x, y, cls, AuditAllow) in avtab {
        TakeRule(AuditAllow, avtab[Key(x, y, cls, AuditAllow)]);
      }
      if Key(x, y, cls, AuditDeny) in avtab {
        TakeRule(AuditDeny, avtab[Key(x, y, cls, AuditDeny)]);
      }
    }

    /** The two loops over the attribute maps. */
    method TakeAttributes(p: Policy, source: nat, target: nat, cls: nat)
      requires WellFormed(p) && ValidType(p, source) && ValidType(p, target)
      modifies this
      ensures forall q, b | OneBit(b) :: Took(q, b) <==> old(Took(q, b)) || Ruled(p, source, target, cls, q, b)
    {
      hide Has, OneBit, Took, Carries;
      var sattr, tattr := Attrs(p, source), Attrs(p, target);
      for x := 1 to |p.attrs| + 1
        invariant forall q, b | OneBit(b) :: Took(q, b) <==> old(Took(q, b)) || RuledBefore(p, sattr, tattr, cls, q, b, x, 0)
      {
        if x in sattr {
          for y := 1 to |p.attrs| + 1
            invariant forall q, b | OneBit(b) :: Took(q, b) <==> old(Took(q, b)) || RuledBefore(p, sattr, tattr, cls, q, b, x, y)
          {
            if y in tattr {
              TakeRules(p.avtab, x, y, cls);
            }
          }
        }
      }
    }

    /** Drop what a failing constraint covers; a BUG in an expression stops the loop. */
    method ApplyConstraints(p: Policy, s: Context, t: Context, constraints: seq<ConstraintNode>) returns (bug: bool)
      modifies this`allowed
      ensures !bug ==> forall b | OneBit(b) ::
        Has(allowed, b) <==> old(Has(allowed, b)) && Upheld(EnvOf(p, s, t), constraints, b)
      ensures bug ==> exists c :: c in constraints && Machine(EnvOf(p, s, t), c.expr, Nil) == Bug
    {
      hide Has, OneBit, Meet, Minus, Machine;
      for k := 0 to |constraints|
        invariant forall b | OneBit(b) ::
          Has(allowed, b) <==> old(Has(allowed, b)) && Upheld(EnvOf(p, s, t), constraints[..k], b)
      {
        var c := constraints[k];
        UpheldNext(EnvOf(p, s, t), constraints, k);
        if Meet(c.permissions, allowed) != 0 {
          var v := ConstraintExprEval(EnvOf(p, s, t), c.expr);
          if v.Bug? {
            return true;
          }
          if !v.v {
            allowed := Minus(allowed, c.permissions);
          }
        } else {
          NothingMet(c.permissions, allowed);
        }
      }
      assert constraints[..|constraints|] == constraints;
      return false;
    }

    /** A process transition to another role needs a role rule. */
    method CheckRole(p: Policy, s: Context, t: Context, cls: nat)
      modifies this`allowed
      ensures forall b | OneBit(b) :: Has(allowed, b) <==> old(Has(allowed, b)) && RoleHolds(p, s, t, cls, b)
    {
      hide Has, OneBit, Meet, Minus;
      if cls == p.processClass && s.role != t.role {
        if Meet(allowed, p.processTrans) == 0 {
          NothingMet(allowed, p.processTrans);
        } else {
          var k := 0;
          while k < |p.roleAllow| && !(s.role == p.roleAllow[k].0 && t.role == p.roleAllow[k].1)
            invariant k <= |p.roleAllow| && (s.role, t.role) !in p.roleAllow[..k]
          {
            k := k + 1;
          }
          if k == |p.roleAllow| {
            assert p.roleAllow[..k] == p.roleAllow;
            allowed := Minus(allowed, p.processTrans);
          }
        }
      }
    }

    /** context_struct_compute_av. The bound on the chain of bounding types is what makes the recursion end. */
    method ContextStructComputeAv(p: Policy, s: Context, t: Context, cls: nat, ghost n: nat) returns (bug: bool)
      requires WellFormed(p) && ValidType(p, s.typ) && ValidType(p, t.typ) && EndsWithin(p, s.typ, n)
      modifies this
      ensures SoundChain(p, s, t, cls, n) ==> !bug
      ensures !bug ==> forall b | OneBit(b) :: Took(Allowed, b) <==> Granted(p, s, t, cls, b, n)
      ensures !bug ==> forall b, q | OneBit(b) && q != Allowed ::
        Took(q, b) <==> 1 <= cls <= |p.classes| && Ruled(p, s.typ, t.typ, cls, q, b)
      decreases n, 1
    {
      hide Has, OneBit, Ruled, Upheld, RoleHolds, Machine;
      allowed, auditallow, auditdeny := 0, 0, 0xFFFF_FFFF;
      NothingByDefault();
      if cls == 0 || cls > |p.classes| {
        return false;
      }
      TakeAttributes(p, s.typ, t.typ, cls);
      bug := ApplyConstraints(p, s, t, p.classes[cls - 1].constraints);
      if bug {
        return;
      }
      CheckRole(p, s, t, cls);
      bug := TypeAttributeBoundsAv(p, s, t, cls, n);
    }

    /** type_attribute_bounds_av: keep only what the bounding type is granted too. */
    method TypeAttributeBoundsAv(p: Policy, s: Context, t: Context, cls: nat, ghost n: nat) returns (bug: bool)
      requires WellFormed(p) && ValidType(p, s.typ) && ValidType(p, t.typ) && EndsWithin(p, s.typ, n)
      modifies this`allowed
      ensures bug && p.structs[s.typ - 1].Some? && p.structs[t.typ - 1].Some? ==>
        BoundOf(p, s.typ) != 0 && !SoundChain(p, Lowered(p, s), Lowered(p, t), cls, n - 1)
      ensures !bug ==> forall b | OneBit(b) :: Has(allowed, b) <==>
        old(Has(allowed, b)) && (BoundOf(p, s.typ) == 0 || Granted(p, Lowered(p, s), Lowered(p, t), cls, b, n - 1))
      decreases n, 0
    {
      hide Has, OneBit, Minus, Meet, Passes, Granted, SoundChain;
      var source := p.structs[s.typ - 1];
      if source.None? {
        return true;
      }
      if source.value.bounds == 0 {
        return false;
      }
      var target := p.structs[t.typ - 1];
      if target.None? {
        return true;
      }
      var lo_avd := new AvDecision();
      var lo_s := s.(typ := source.value.bounds);
      var lo_t := t;
      if target.value.bounds != 0 {
        lo_t := t.(typ := target.value.bounds);
      }
      bug := lo_avd.ContextStructComputeAv(p, lo_s, lo_t, cls, n - 1);
      if bug {
        return;
      }
      var masked := Minus(allowed, lo_avd.allowed);
      if masked == 0 {
        NothingLeft(allowed, lo_avd.allowed);
        return;
      }
      allowed := Minus(allowed, masked);
    }
  }

  lemma NothingLeft(a: Av, c: Av)
    requires Minus(a, c) == 0
    ensures forall b | OneBit(b) :: Has(a, b) ==> Has(c, b)
  {
    hide OneBit;
    assert forall b :: !Has(Minus(a, c), b);
  }

  /** The rules met by the loops before they reach attribute y of the target under attribute x of the source. */
  ghost predicate RuledBefore(p: Policy, sattr: set<nat>, tattr: set<nat>, cls: nat, kind: RuleKind, b: Av, x: nat, y: nat) {
    exists i, j :: i in sattr && j in tattr && (i < x || (i == x && j < y)) && Carries(p.avtab, Key(i, j, cls, kind), b)
  }

  /** Every constraint on the permission holds. */
  ghost predicate Upheld(env: Env, constraints: seq<ConstraintNode>, b: Av) {
    forall c :: c in constraints && Has(c.permissions, b) ==> Machine(env, c.expr, Nil) == Value(true)
  }

  lemma UpheldNext(env: Env, constraints: seq<ConstraintNode>, k: nat)
    requires k < |constraints|
    ensures forall b :: Upheld(env, constraints[..k + 1], b) <==>
      Upheld(env, constraints[..k], b)
      && (Has(constraints[k].permissions, b) ==> Machine(env, constraints[k].expr, Nil) == Value(true))
  {
    hide Has, Machine;
    assert constraints[..k + 1] == constraints[..k] + [constraints[k]];
  }

  lemma NothingMet(a: Av, c: Av)
    requires Meet(a, c) == 0
    ensures forall b | OneBit(b) :: !(Has(a, b) && Has(c, b))
  {
    hide OneBit;
    assert forall b :: !Has(Meet(a, c), b);
  }

  /** A missing rule carries nothing. */
  lemma NothingByDefault()
    ensures forall b | OneBit(b) :: !Has(Default(Allowed), b) && !Has(Default(AuditAllow), b) && Has(Default(AuditDeny), b)
  {
  }

  // ---------- the chain of bounding types ----------

  /** The context k bounds up; it stays put at the top. */
  function Up(p: Policy, c: Context, k: nat): (r: Context)
    requires WellFormed(p) && ValidType(p, c.typ)
    ensures ValidType(p, r.typ)
    decreases k
  {
    if k == 0 then c else Up(p, Lowered(p, c), k - 1)
  }

  function ChainLength(p: Policy, typ: nat, n: nat): (k: nat)
    requires WellFormed(p) && ValidType(p, typ) && EndsWithin(p, typ, n)
    ensures k <= n
    decreases n
  {
    if BoundOf(p, typ) == 0 then 0 else 1 + ChainLength(p, BoundOf(p, typ), n - 1)
  }

  /** Whatever is granted to a bounded type is granted to each of its ancestors, over the target's. */
  lemma {:induction false} GrantedToAncestors(p: Policy, s: Context, t: Context, cls: nat, b: Av, n: nat, k: nat)
    requires WellFormed(p) && ValidType(p, s.typ) && ValidType(p, t.typ) && EndsWithin(p, s.typ, n)
    requires Granted(p, s, t, cls, b, n) && k <= ChainLength(p, s.typ, n)
    ensures EndsWithin(p, Up(p, s, k).typ, n - k) && Granted(p, Up(p, s, k), Up(p, t, k), cls, b, n - k)
    decreases k
  {
    hide Passes;
    if k > 0 {
      GrantedToAncestors(p, Lowered(p, s), Lowered(p, t), cls, b, n - 1, k - 1);
    }
  }

  ghost predicate PassesUpTo(p: Policy, s: Context, t: Context, cls: nat, b: Av, len: nat)
    requires WellFormed(p) && ValidType(p, s.typ) && ValidType(p, t.typ)
  {
    forall k: nat | k <= len :: Passes(p, Up(p, s, k), Up(p, t, k), cls, b)
  }

  /** The recursive decision is one condition on the whole chain: the permission passes at every level of it. */
  lemma {:induction false} GrantedExactly(p: Policy, s: Context, t: Context, cls: nat, b: Av, n: nat)
    requires WellFormed(p) && ValidType(p, s.typ) && ValidType(p, t.typ) && EndsWithin(p, s.typ, n)
    ensures Granted(p, s, t, cls, b, n) <==> PassesUpTo(p, s, t, cls, b, ChainLength(p, s.typ, n))
    decreases n
  {
    hide Passes;
    var len := ChainLength(p, s.typ, n);
    if Granted(p, s, t, cls, b, n) {
      forall k: nat | k <= len
        ensures Passes(p, Up(p, s, k), Up(p, t, k), cls, b)
      {
        GrantedToAncestors(p, s, t, cls, b, n, k);
      }
    } else if Passes(p, s, t, cls, b) {
      GrantedExactly(p, Lowered(p, s), Lowered(p, t), cls, b, n - 1);
      var k: nat :| k <= len - 1 && !Passes(p, Up(p, Lowered(p, s), k), Up(p, Lowered(p, t), k), cls, b);
      assert !Passes(p, Up(p, s, k + 1), Up(p, t, k + 1), cls, b);
    } else {
      assert Up(p, s, 0) == s && Up(p, t, 0) == t;
    }
  }

  /** The bound on the chain only makes the recursion end; it does not affect the decision. */
  lemma {:induction false} BoundIrrelevant(p: Policy, s: Context, t: Context, cls: nat, b: Av, n: nat, m: nat)
    requires WellFormed(p) && ValidType(p, s.typ) && ValidType(p, t.typ)
    requires EndsWithin(p, s.typ, n) && EndsWithin(p, s.typ, m)
    ensures Granted(p, s, t, cls, b, n) <==> Granted(p, s, t, cls, b, m)
    decreases n
  {
    hide Passes;
    if BoundOf(p, s.typ) != 0 {
      BoundIrrelevant(p, Lowered(p, s), Lowered(p, t), cls, b, n - 1, m - 1);
    }
  }

  /** A constraint that covers a granted permission is true as a formula, at every level of the chain, and
      fits the evaluator's stack. */
  lemma GrantedMeetsFormula(p: Policy, s: Context, t: Context, cls: nat, b: Av, n: nat, k: nat, c: ConstraintNode, f: Tree)
    requires WellFormed(p) && ValidType(p, s.typ) && ValidType(p, t.typ) && EndsWithin(p, s.typ, n)
    requires Granted(p, s, t, cls, b, n) && k <= ChainLength(p, s.typ, n)
    requires c in p.classes[cls - 1].constraints && Has(c.permissions, b)
    requires c.expr == Postfix(f) && Spelled(f) && Legal(EnvOf(p, Up(p, s, k), Up(p, t, k)), f)
    ensures Depth(f) <= CEXPR_MAXDEPTH && Eval(EnvOf(p, Up(p, s, k), Up(p, t, k)), f)
  {
    hide Postfix, Spelled, Legal, Depth, Eval, Machine;
    GrantedToAncestors(p, s, t, cls, b, n, k);
    EvaluatesFormula(EnvOf(p, Up(p, s, k), Up(p, t, k)), f);
  }

  // ---------- the recursion ends exactly on acyclic bounds ----------

  /** Following k bounds from one type leads to another. */
  predicate Leads(p: Policy, from: nat, to: nat, k: nat)
    requires WellFormed(p) && ValidType(p, from)
    decreases k
  {
    if k == 0 then from == to else BoundOf(p, from) != 0 && Leads(p, BoundOf(p, from), to, k - 1)
  }

  ghost predicate Reaches(p: Policy, from: nat, to: nat)
    requires WellFormed(p) && ValidType(p, from)
  {
    exists k: nat :: k > 0 && Leads(p, from, to, k)
  }

  ghost predicate Ends(p: Policy, typ: nat)
    requires WellFormed(p) && ValidType(p, typ)
  {
    exists n: nat :: EndsWithin(p, typ, n)
  }

  ghost predicate Acyclic(p: Policy)
    requires WellFormed(p)
  {
    forall typ: nat | ValidType(p, typ) :: !Reaches(p, typ, typ)
  }

  lemma {:induction false} LeadsOn(p: Policy, from: nat, to: nat, k: nat)
    requires WellFormed(p) && ValidType(p, from) && Leads(p, from, to, k)
    ensures ValidType(p, to)
    ensures BoundOf(p, to) != 0 ==> Leads(p, from, BoundOf(p, to), k + 1)
    decreases k
  {
    if k > 0 { LeadsOn(p, BoundOf(p, from), to, k - 1); }
  }

  lemma {:induction false} EndsAfter(p: Policy, from: nat, to: nat, k: nat, n: nat)
    requires WellFormed(p) && ValidType(p, from) && Leads(p, from, to, k) && EndsWithin(p, from, n)
    ensures k <= n && ValidType(p, to) && EndsWithin(p, to, n - k)
    decreases k
  {
    if k > 0 { EndsAfter(p, BoundOf(p, from), to, k - 1, n - 1); }
  }

  lemma {:induction false} NoLoopEnds(p: Policy, typ: nat, k: nat, n: nat)
    requires WellFormed(p) && ValidType(p, typ) && k > 0 && Leads(p, typ, typ, k)
    ensures !EndsWithin(p, typ, n)
    decreases n
  {
    if EndsWithin(p, typ, n) {
      EndsAfter(p, typ, typ, k, n);
      NoLoopEnds(p, typ, k, n - k);
    }
  }

  lemma {:induction false} FewTypes(s: set<nat>, m: nat)
    requires forall x | x in s :: 1 <= x <= m
    ensures |s| <= m
    decreases m
  {
    if m == 0 {
      assert s == {};
    } else {
      FewTypes(s - {m}, m - 1);
    }
  }

  /** A chain that has visited the types in `seen` has room for the others only. */
  lemma {:induction false} EndsInRoom(p: Policy, typ: nat, seen: set<nat>)
    requires WellFormed(p) && Acyclic(p) && ValidType(p, typ)
    requires forall x: nat | x in seen :: ValidType(p, x) && Reaches(p, x, typ)
    ensures |seen| < |p.attrs| && EndsWithin(p, typ, |p.attrs| - |seen| - 1)
    decreases |p.attrs| - |seen|
  {
    var next := BoundOf(p, typ);
    var more := seen + {typ};
    assert typ !in seen;
    FewTypes(more, |p.attrs|);
    assert |more| == |seen| + 1;
    if next != 0 {
      forall x: nat | x in more
        ensures ValidType(p, x) && Reaches(p, x, next)
      {
        if x == typ {
          assert Leads(p, next, next, 0);
          assert Leads(p, x, next, 1);
        } else {
          var k: nat :| k > 0 && Leads(p, x, typ, k);
          LeadsOn(p, x, typ, k);
          assert Leads(p, x, next, k + 1);
        }
      }
      EndsInRoom(p, next, more);
    }
  }

  /** Every decision ends, whatever the contexts, exactly when no type bounds itself. */
  lemma EndsExactly(p: Policy)
    requires WellFormed(p)
    ensures (forall typ: nat | ValidType(p, typ) :: Ends(p, typ)) <==> Acyclic(p)
  {
    if Acyclic(p) {
      forall typ: nat | ValidType(p, typ)
        ensures Ends(p, typ)
      {
        EndsInRoom(p, typ, {});
        assert EndsWithin(p, typ, |p.attrs| - 1);
      }
    } else {
      var typ: nat :| ValidType(p, typ) && Reaches(p, typ, typ);
      var k: nat :| k > 0 && Leads(p, typ, typ, k);
      forall n: nat
        ensures !EndsWithin(p, typ, n)
      {
        NoLoopEnds(p, typ, k, n);
      }
    }
  }
}
