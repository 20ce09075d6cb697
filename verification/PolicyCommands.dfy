/** Applying the commands of a batch, and what a batch of rule commands does to access decisions. */
module PolicyCommands {
  import opened Options
  import opened Bytes
  import opened Constraint
  import opened PolicyDatabase
  import opened AccessVector
  import opened PolicyEditor
  import Batch = PolicyBatch

  type Command = Batch.Command

  const NORMAL_PERM := 1
  const TYPE := 4
  const TYPE_ATTR := 5
  const ATTR := 6

  const ALLOW := 1
  const DENY := 2
  const AUDITALLOW := 3
  const DONTAUDIT := 4

  // ---------- the database as a value ----------

  datatype Db = Db(p: Policy, types: seq<TypeName>)

  predicate KnownPerms(perms: map<string, nat>) { forall name :: name in perms ==> 1 <= perms[name] <= 32 }

  predicate Loaded(d: Db) {
    && WellFormed(d.p)
    && (forall e :: e in d.types ==> ValidType(d.p, e.datum.value))
    && (forall c :: c in d.p.classes ==> KnownPerms(c.perms) && (c.common.Some? ==> KnownPerms(c.common.value)))
  }

  type Database = d: Db | Loaded(d)
    witness Db(Policy(map[], [], [], [], 0, 0, [], map[]), [])

  ghost function ValueOf(db: PolicyDb): Database
    requires db.Valid()
    reads db
  {
    Db(db.View(), db.types)
  }

  // ---------- one command ----------

  /** A missing argument, like an argument that stands for all, is no name. */
  function NameAt(c: Command, i: nat): Option<string> {
    if i < |c.args| && c.args[i].Some? then Some(Chars(c.args[i].value)) else None
  }

  function Chars(b: seq<Byte>): string { seq(|b|, i requires 0 <= i < |b| => b[i] as char) }

  function ScopeAt(d: Database, c: Command): Option<Scope> {
    Resolve(d.types, d.p.classes, NameAt(c, 0), NameAt(c, 1), NameAt(c, 2), NameAt(c, 3))
  }

  predicate KnownRule(subcmd: nat) { ALLOW <= subcmd <= DONTAUDIT }

  function KindOf(subcmd: nat): RuleKind {
    if subcmd == AUDITALLOW then AuditAllow else if subcmd == DONTAUDIT then AuditDeny else Allowed
  }

  predicate Inverts(subcmd: nat) { subcmd == DENY || subcmd == DONTAUDIT }

  lemma PermInRange(d: Database, c: Command)
    ensures ScopeAt(d, c).Some? && ScopeAt(d, c).value.perm.Some? ==> 1 <= ScopeAt(d, c).value.perm.value <= 32
  {
    hide Lookup, Chars, NameAt;
  }

  function WithRules(d: Database, x: Scope, kind: RuleKind, invert: bool): Database
    requires x.perm.Some? ==> 1 <= x.perm.value <= 32
  {
    var all := StripAv(kind, invert);
    d.(p := d.p.(avtab := Rewritten(d.p.avtab, ScopeOf(d.types, x.src, all), ScopeOf(d.types, x.tgt, all),
                                    ClassScope(|d.p.classes|, x.cls), PermBit(x.perm), kind, invert)))
  }

  function RuleCommand(d: Database, c: Command): (Database, bool) {
    PermInRange(d, c);
    var x := ScopeAt(d, c);
    if KnownRule(c.subcmd) && x.Some? then (WithRules(d, x.value, KindOf(c.subcmd), Inverts(c.subcmd)), true) else (d, false)
  }

  /** A known name is left as it is. */
  function NewType(d: Database, name: string, attribute: bool): Database {
    var t := TypeDatum(|d.p.attrs| + 1, attribute, 0);
    if Lookup(d.types, name).Some? then d else Db(WithType(d.p, t), d.types + [TypeName(name, t)])
  }

  function NewAttribute(d: Database, typ: string, attr: string): (Database, bool) {
    if IsAttribute(d.types, typ, false) && IsAttribute(d.types, attr, true) then
      var t, a := Lookup(d.types, typ).value.value, Lookup(d.types, attr).value.value;
      AttributeKeepsLoaded(d, t, a);
      (d.(p := WithAttribute(d.p, t, a)), true)
    else (d, false)
  }

  lemma AttributeKeepsLoaded(d: Database, typ: nat, attr: nat)
    requires ValidType(d.p, typ) && ValidType(d.p, attr)
    ensures Loaded(d.(p := WithAttribute(d.p, typ, attr)))
  {
    hide KnownPerms;
    SamePerms(d.p, typ, attr);
  }

  /** The commands on rules, types and attributes; the other ones are what `other` does. */
  predicate Modelled(c: Command) { c.cmd in {NORMAL_PERM, TYPE, TYPE_ATTR, ATTR} }

  /** apply_one_sepolicy_cmd. A type command that cannot give its type the attribute fails, and has made the type. */
  function ApplyCommand(other: Batch.Apply<Database>, d: Database, c: Command): (Database, bool) {
    var first, second := NameAt(c, 0), NameAt(c, 1);
    if !Modelled(c) then other(d, c)
    else if c.cmd == NORMAL_PERM then RuleCommand(d, c)
    else if first.None? || (c.cmd != ATTR && second.None?) then (d, false)
    else if c.cmd == TYPE then NewAttribute(NewType(d, first.value, false), first.value, second.value)
    else if c.cmd == TYPE_ATTR then NewAttribute(d, first.value, second.value)
    else (NewType(d, first.value, true), true)
  }

  function Applier(other: Batch.Apply<Database>): Batch.Apply<Database> { (d, c) => ApplyCommand(other, d, c) }

  method ApplyOneSepolicyCmd(db: PolicyDb, c: Command, ghost other: Batch.Apply<Database>) returns (ok: bool)
    requires db.Valid() && Modelled(c)
    modifies db
    ensures db.Valid() && db.Rest() == old(db.Rest())
    ensures (ValueOf(db), ok) == ApplyCommand(other, old(ValueOf(db)), c)
  {
    hide Loaded, WellFormed, Lookup, Chars, Resolve, Rewrites;
    ghost var was := ValueOf(db);
    var first, second := NameAt(c, 0), NameAt(c, 1);
    if c.cmd == NORMAL_PERM {
      var third, fourth := NameAt(c, 2), NameAt(c, 3);
      ok := false;
      if c.subcmd == ALLOW {
        ok := db.KsuAllow(first, second, third, fourth);
      } else if c.subcmd == DENY {
        ok := db.KsuDeny(first, second, third, fourth);
      } else if c.subcmd == AUDITALLOW {
        ok := db.KsuAuditallow(first, second, third, fourth);
      } else if c.subcmd == DONTAUDIT {
        ok := db.KsuDontaudit(first, second, third, fourth);
      }
      if ok {
        RulesMeet(was, ValueOf(db), c);
      }
      return;
    }
    if first.None? || (c.cmd != ATTR && second.None?) {
      return false;
    }
    if c.cmd == TYPE_ATTR {
      ok := db.AddTypeattribute(first.value, second.value);
      return;
    }
    ok := db.AddType(first.value, c.cmd == ATTR);
    if ok && c.cmd == TYPE {
      ok := db.AddTypeattribute(first.value, second.value);
    }
  }

  /** The outcome of an edit of the rule table is the one the command asks for. */
  lemma RulesMeet(was: Database, now: Database, c: Command)
    requires KnownRule(c.subcmd) && ScopeAt(was, c).Some? && now.types == was.types && now.p == was.p.(avtab := now.p.avtab)
    requires Rewrites(was.p.avtab, now.p.avtab, was.types, |was.p.classes|, ScopeAt(was, c).value, KindOf(c.subcmd), Inverts(c.subcmd))
    ensures (now, true) == RuleCommand(was, c)
  {
    hide Edited, Rewritten, ScopeAt, ScopeOf, ClassScope, Loaded;
    var x, kind, invert := ScopeAt(was, c).value, KindOf(c.subcmd), Inverts(c.subcmd);
    var all := StripAv(kind, invert);
    RewrittenIs(was.p.avtab, now.p.avtab, ScopeOf(was.types, x.src, all), ScopeOf(was.types, x.tgt, all),
                ClassScope(|was.p.classes|, x.cls), PermBit(x.perm), kind, invert);
  }

  // ---------- a batch of rule commands ----------

  predicate RulesOnly(cs: seq<Command>) { forall c :: c in cs ==> c.cmd == NORMAL_PERM }

  /** The databases differ in their rules only. */
  predicate SameButRules(d: Database, e: Database) { e.types == d.types && e.p == d.p.(avtab := e.p.avtab) }

  /** The command rewrites this rule's permission. */
  predicate Touches(d: Database, c: Command, key: Key, b: Av) {
    && KnownRule(c.subcmd)
    && ScopeAt(d, c).Some?
    && var x, all := ScopeAt(d, c).value, StripAv(KindOf(c.subcmd), Inverts(c.subcmd));
    && Hit(key, ScopeOf(d.types, x.src, all), ScopeOf(d.types, x.tgt, all), ClassScope(|d.p.classes|, x.cls), KindOf(c.subcmd))
    && (PermInRange(d, c); Covers(x.perm, b))
  }

  predicate Puts(d: Database, c: Command, key: Key, b: Av) { c.subcmd != DENY && Touches(d, c, key, b) }

  predicate Takes(d: Database, c: Command, key: Key, b: Av) { c.subcmd == DENY && Touches(d, c, key, b) }

  /** The last command that touches the rule gives it the permission; without one, the rule had it. */
  predicate LastSays(d: Database, cs: seq<Command>, key: Key, b: Av) {
    || (exists i :: 0 <= i < |cs| && Puts(d, cs[i], key, b) && forall j :: i < j < |cs| ==> !Takes(d, cs[j], key, b))
    || (Carries(d.p.avtab, key, b) && forall j :: 0 <= j < |cs| ==> !Takes(d, cs[j], key, b))
  }

  lemma OneCommand(d: Database, c: Command, key: Key, b: Av)
    requires OneBit(b)
    ensures var e := RuleCommand(d, c).0;
      SameButRules(d, e) && (Carries(e.p.avtab, key, b) <==> Puts(d, c, key, b) || (Carries(d.p.avtab, key, b) && !Takes(d, c, key, b)))
  {
    hide OneBit, Carries, ScopeAt, ScopeOf, ClassScope, Covers, Rewritten, Data, Applied, PermBit, Loaded;
    PermInRange(d, c);
    if KnownRule(c.subcmd) && ScopeAt(d, c).Some? {
      var x, kind, invert := ScopeAt(d, c).value, KindOf(c.subcmd), Inverts(c.subcmd);
      var all := StripAv(kind, invert);
      var now := RuleCommand(d, c).0.p.avtab;
      RewrittenAt(d.p.avtab, ScopeOf(d.types, x.src, all), ScopeOf(d.types, x.tgt, all),
                  ClassScope(|d.p.classes|, x.cls), PermBit(x.perm), kind, invert, key);
      if Hit(key, ScopeOf(d.types, x.src, all), ScopeOf(d.types, x.tgt, all), ClassScope(|d.p.classes|, x.cls), kind) {
        CarriesAfter(d.p.avtab, now, key, x.perm, invert, b);
      } else {
        SameData(d.p.avtab, now, key, b);
      }
    }
  }

  /** What a command touches depends on the names only, which rule commands leave alone. */
  lemma TouchesSame(d: Database, e: Database, c: Command, key: Key, b: Av)
    requires SameButRules(d, e)
    ensures Touches(d, c, key, b) <==> Touches(e, c, key, b)
  {
    hide Resolve, Covers;
  }

  lemma LastSaysNext(d: Database, cs: seq<Command>, c: Command, key: Key, b: Av)
    ensures LastSays(d, cs + [c], key, b) <==> Puts(d, c, key, b) || (LastSays(d, cs, key, b) && !Takes(d, c, key, b))
  {
    hide Touches, Carries;
    var all := cs + [c];
    assert forall i :: 0 <= i < |cs| ==> all[i] == cs[i];
    assert all[|cs|] == c;
    if LastSays(d, all, key, b) && !Puts(d, c, key, b) {
      assert !Takes(d, c, key, b);
    }
  }

  /** After a batch of rule commands each rule says what the last command on it says, and nothing else changed. */
  lemma {:induction false} BatchCarries(other: Batch.Apply<Database>, d: Database, cs: seq<Command>, key: Key, b: Av)
    requires RulesOnly(cs) && OneBit(b)
    ensures var e := Batch.Fold(Applier(other), d, cs);
      SameButRules(d, e) && (Carries(e.p.avtab, key, b) <==> LastSays(d, cs, key, b))
    decreases |cs|
  {
    hide OneBit, Carries, Puts, Takes, RuleCommand, Loaded, Touches;
    if cs != [] {
      var before, last := cs[..|cs| - 1], cs[|cs| - 1];
      assert cs == before + [last] && last in cs;
      BatchCarries(other, d, before, key, b);
      var mid := Batch.Fold(Applier(other), d, before);
      OneCommand(mid, last, key, b);
      assert Batch.Fold(Applier(other), d, cs) == RuleCommand(mid, last).0;
      SameTouch(d, mid, last, key, b);
      LastSaysNext(d, before, last, key, b);
    }
  }

  lemma SameTouch(d: Database, e: Database, c: Command, key: Key, b: Av)
    requires SameButRules(d, e)
    ensures (Puts(d, c, key, b) <==> Puts(e, c, key, b)) && (Takes(d, c, key, b) <==> Takes(e, c, key, b))
  {
    hide Touches;
    TouchesSame(d, e, c, key, b);
  }

  /** The pairs of types with a rule that the batch leaves allowed. */
  ghost function AllowedLast(d: Database, cs: seq<Command>, cls: nat, b: Av): Rules {
    (s: nat, t: nat) => ValidType(d.p, s) && ValidType(d.p, t)
      && exists i, j :: i in Attrs(d.p, s) && j in Attrs(d.p, t) && LastSays(d, cs, Key(i, j, cls, Allowed), b)
  }

  lemma RuledAfterBatch(other: Batch.Apply<Database>, d: Database, cs: seq<Command>, s: nat, t: nat, cls: nat, b: Av)
    requires RulesOnly(cs) && OneBit(b) && ValidType(d.p, s) && ValidType(d.p, t)
    ensures var e := Batch.Fold(Applier(other), d, cs);
      SameButRules(d, e) && (Ruled(e.p, s, t, cls, Allowed, b) <==> AllowedLast(d, cs, cls, b)(s, t))
  {
    hide OneBit, Carries, LastSays, Loaded;
    var e := Batch.Fold(Applier(other), d, cs);
    BatchCarries(other, d, cs, Key(s, t, cls, Allowed), b);
    forall i: nat, j: nat
      ensures Carries(e.p.avtab, Key(i, j, cls, Allowed), b) <==> LastSays(d, cs, Key(i, j, cls, Allowed), b)
    {
      BatchCarries(other, d, cs, Key(i, j, cls, Allowed), b);
    }
  }

  /** The whole decision after a batch of rule commands, in terms of the policy before it and the commands: at every
      level of the chain of bounding types some rule of the pair was last allowed, and the other checks pass. */
  lemma BatchDecides(other: Batch.Apply<Database>, d: Database, cs: seq<Command>, s: Context, t: Context, cls: nat, b: Av, n: nat)
    requires RulesOnly(cs) && OneBit(b)
    requires ValidType(d.p, s.typ) && ValidType(d.p, t.typ) && EndsWithin(d.p, s.typ, n)
    ensures var q := Batch.Fold(Applier(other), d, cs).p;
      && q == d.p.(avtab := q.avtab) && EndsWithin(q, s.typ, n)
      && (Granted(q, s, t, cls, b, n) <==>
            PassesUpToGiven(d.p, AllowedLast(d, cs, cls, b), s, t, cls, b, ChainLength(d.p, s.typ, n)))
  {
    hide Ruled, OneBit, Granted, PassesUpToGiven, EndsWithin, LastSays;
    var q := Batch.Fold(Applier(other), d, cs).p;
    RuledAfterBatch(other, d, cs, s.typ, t.typ, cls, b);
    forall i: nat, j: nat | ValidType(d.p, i) && ValidType(d.p, j)
      ensures Ruled(q, i, j, cls, Allowed, b) <==> AllowedLast(d, cs, cls, b)(i, j)
    {
      RuledAfterBatch(other, d, cs, i, j, cls, b);
    }
    DecisionByRules(d.p, q, AllowedLast(d, cs, cls, b), s, t, cls, b, n);
  }

  predicate AllowsOnly(cs: seq<Command>) { forall c :: c in cs ==> c.cmd == NORMAL_PERM && c.subcmd == ALLOW }

  /** The names of some command are known and reach the pair. */
  ghost predicate ReachedByOne(d: Database, cs: seq<Command>, s: nat, t: nat, cls: nat, b: Av)
    requires ValidType(d.p, s) && ValidType(d.p, t)
  {
    exists c :: c in cs && ScopeAt(d, c).Some? && (PermInRange(d, c); Reached(d.p, d.types, ScopeAt(d, c).value, s, t, cls, b))
  }

  /** Allow commands keep the old rules and add those that one of them reaches; commands that fail add none. */
  lemma AllowsAdd(d: Database, cs: seq<Command>, s: nat, t: nat, cls: nat, b: Av)
    requires AllowsOnly(cs) && ValidType(d.p, s) && ValidType(d.p, t)
    ensures AllowedLast(d, cs, cls, b)(s, t) <==> Ruled(d.p, s, t, cls, Allowed, b) || ReachedByOne(d, cs, s, t, cls, b)
  {
    hide Carries, ScopeAt, ScopeOf, ClassScope, Covers, Loaded;
    if ReachedByOne(d, cs, s, t, cls, b) {
      var c :| c in cs && ScopeAt(d, c).Some? && (PermInRange(d, c); Reached(d.p, d.types, ScopeAt(d, c).value, s, t, cls, b));
      var x := ScopeAt(d, c).value;
      var i :| i in Attrs(d.p, s) * ScopeOf(d.types, x.src, false);
      var j :| j in Attrs(d.p, t) * ScopeOf(d.types, x.tgt, false);
      assert Puts(d, c, Key(i, j, cls, Allowed), b);
      assert LastSays(d, cs, Key(i, j, cls, Allowed), b);
    }
    if Ruled(d.p, s, t, cls, Allowed, b) {
      var i, j :| i in Attrs(d.p, s) && j in Attrs(d.p, t) && Carries(d.p.avtab, Key(i, j, cls, Allowed), b);
      assert LastSays(d, cs, Key(i, j, cls, Allowed), b);
    }
    if AllowedLast(d, cs, cls, b)(s, t) {
      var i, j :| i in Attrs(d.p, s) && j in Attrs(d.p, t) && LastSays(d, cs, Key(i, j, cls, Allowed), b);
      if !Carries(d.p.avtab, Key(i, j, cls, Allowed), b) {
        var k :| 0 <= k < |cs| && Puts(d, cs[k], Key(i, j, cls, Allowed), b);
        var x := ScopeAt(d, cs[k]).value;
        assert i in Attrs(d.p, s) * ScopeOf(d.types, x.src, false) && j in Attrs(d.p, t) * ScopeOf(d.types, x.tgt, false);
      }
    }
  }

  /** In the new policy this access is decided by what the last command on each rule says. */
  ghost predicate DecidedByLast(d: Database, cs: seq<Command>, q: Policy, s: Context, t: Context, cls: nat, b: Av, n: nat) {
    OneBit(b) && ValidType(d.p, s.typ) && ValidType(d.p, t.typ) && EndsWithin(d.p, s.typ, n) ==>
      && WellFormed(q) && ValidType(q, s.typ) && ValidType(q, t.typ) && EndsWithin(q, s.typ, n)
      && (Granted(q, s, t, cls, b, n) <==>
            PassesUpToGiven(d.p, AllowedLast(d, cs, cls, b), s, t, cls, b, ChainLength(d.p, s.typ, n)))
  }

  lemma EveryAccess(other: Batch.Apply<Database>, d: Database, cs: seq<Command>)
    requires RulesOnly(cs)
    ensures forall s, t, cls, b, n :: DecidedByLast(d, cs, Batch.Fold(Applier(other), d, cs).p, s, t, cls, b, n)
  {
    hide DecidedByLast, Loaded;
    forall s, t, cls, b, n
      ensures DecidedByLast(d, cs, Batch.Fold(Applier(other), d, cs).p, s, t, cls, b, n)
    {
      OneAccess(other, d, cs, s, t, cls, b, n);
    }
  }

  lemma OneAccess(other: Batch.Apply<Database>, d: Database, cs: seq<Command>, s: Context, t: Context, cls: nat, b: Av, n: nat)
    requires RulesOnly(cs)
    ensures DecidedByLast(d, cs, Batch.Fold(Applier(other), d, cs).p, s, t, cls, b, n)
  {
    hide OneBit, Granted, PassesUpToGiven, EndsWithin, ChainLength, AllowedLast;
    if OneBit(b) && ValidType(d.p, s.typ) && ValidType(d.p, t.typ) && EndsWithin(d.p, s.typ, n) {
      BatchDecides(other, d, cs, s, t, cls, b, n);
    }
  }

  /** The bytes a process hands over are read, applied and published, with memory for it all. */
  method ApplyRules(state: Batch.SelinuxState<Database>, cs: seq<Command>, other: Batch.Apply<Database>) returns (ret: int)
    requires Batch.ValidBatch(cs) && RulesOnly(cs) && 0 < |Batch.Encode(cs)| <= Batch.MAX_BATCH_SIZE
    modifies state
    ensures ret == Batch.Successes(Applier(other), old(state.policy), cs)
    ensures SameButRules(old(state.policy), state.policy)
    ensures forall s, t, cls, b, n :: DecidedByLast(old(state.policy), cs, state.policy.p, s, t, cls, b, n)
  {
    hide Batch.Encode, Batch.ValidCommand, DecidedByLast, Applier, Loaded;
    ret := state.HandleSepolicy(Batch.Readable(Batch.Encode(cs)), |Batch.Encode(cs)|, Batch.Grants(true, 0), Applier(other));
    BatchCarries(other, old(state.policy), cs, Key(0, 0, 0, Allowed), 1);
    EveryAccess(other, old(state.policy), cs);
  }

  // ---------- commands by number and name ----------

  /** A rule command's arguments are the source, the target, the class and the permission, in that order. */
  lemma ScopeByNames(d: Database, c: Command, x: Scope)
    ensures ScopeAt(d, c) == Some(x) <==>
      && TypeNamed(d.types, NameAt(c, 0), x.src) && TypeNamed(d.types, NameAt(c, 1), x.tgt)
      && ClassNamed(d.p.classes, NameAt(c, 2), x.cls) && PermNamed(d.p.classes, x.cls, NameAt(c, 3), x.perm)
  {
    hide Resolve, TypeNamed, ClassNamed;
    ResolveMeans(d.types, d.p.classes, NameAt(c, 0), NameAt(c, 1), NameAt(c, 2), NameAt(c, 3), x);
  }

  /** What a rule command with four known names does, by its numbers: allow, deny, audit and do not audit; any other
      number fails and changes nothing. */
  lemma RuleNumbers(other: Batch.Apply<Database>, d: Database, c: Command, vs: nat, vt: nat, k: nat, v: nat)
    requires c.cmd == 1
    requires TypeNamed(d.types, NameAt(c, 0), Some(vs)) && TypeNamed(d.types, NameAt(c, 1), Some(vt))
    requires ClassNamed(d.p.classes, NameAt(c, 2), Some(k)) && PermNamed(d.p.classes, Some(k), NameAt(c, 3), Some(v))
    ensures 1 <= v <= 32
    ensures var was, r := d.p.avtab, ApplyCommand(other, d, c);
      var now := r.0.p.avtab;
      && SameButRules(d, r.0) && (r.1 <==> 1 <= c.subcmd <= 4) && (!r.1 ==> r.0 == d)
      && (c.subcmd == 1 ==> OneRule(was, now, vs, vt, k, Allowed, Join(Data(was, Key(vs, vt, k, Allowed)), BitOf(v))))
      && (c.subcmd == 2 ==> OneRule(was, now, vs, vt, k, Allowed, Minus(Data(was, Key(vs, vt, k, Allowed)), BitOf(v))))
      && (c.subcmd == 3 ==> OneRule(was, now, vs, vt, k, AuditAllow, Join(Data(was, Key(vs, vt, k, AuditAllow)), BitOf(v))))
      && (c.subcmd == 4 ==> OneRule(was, now, vs, vt, k, AuditDeny, Minus(Data(was, Key(vs, vt, k, AuditDeny)), BitOf(v))))
  {
    hide ScopeAt, TypeNamed, ClassNamed, PermNamed, Rewritten, Edited, BitOf, Join, Minus, Data, NameAt, Loaded, ScopeOf, ClassScope, OneRule;
    var x := Scope(Some(vs), Some(vt), Some(k), Some(v));
    ScopeByNames(d, c, x);
    PermInRange(d, c);
    if 1 <= c.subcmd <= 4 {
      OneRuleWritten(d, x, vs, vt, k, v, KindOf(c.subcmd), Inverts(c.subcmd));
    }
  }

  lemma OneRuleWritten(d: Database, x: Scope, vs: nat, vt: nat, k: nat, v: nat, kind: RuleKind, invert: bool)
    requires x == Scope(Some(vs), Some(vt), Some(k), Some(v)) && 1 <= v <= 32
    ensures var was := d.p.avtab;
      OneRule(was, WithRules(d, x, kind, invert).p.avtab, vs, vt, k, kind,
        if invert then Minus(Data(was, Key(vs, vt, k, kind)), BitOf(v)) else Join(Data(was, Key(vs, vt, k, kind)), BitOf(v)))
  {
    hide Rewritten, Edited, BitOf, Join, Minus, Data, Loaded, OneRule, Applied;
    var all := StripAv(kind, invert);
    RewrittenEdits(d.p.avtab, ScopeOf(d.types, x.src, all), ScopeOf(d.types, x.tgt, all), ClassScope(|d.p.classes|, x.cls),
                   PermBit(x.perm), kind, invert);
    RewritesOne(d.p.avtab, WithRules(d, x, kind, invert).p.avtab, d.types, |d.p.classes|, vs, vt, k, v, kind, invert);
  }

  /** The commands on types by number: 4 makes a type with an attribute, 5 gives a type one, 6 makes an attribute. */
  lemma TypeNumbers(other: Batch.Apply<Database>, d: Database, c: Command)
    requires c.cmd in {4, 5, 6} && NameAt(c, 0).Some?
    ensures var r, name := ApplyCommand(other, d, c), NameAt(c, 0).value;
      && (c.cmd == 6 && Lookup(d.types, name).None? ==> r.1 && IsAttribute(r.0.types, name, true))
      && (c.cmd == 4 && Lookup(d.types, name).None? && NameAt(c, 1).Some? ==> IsAttribute(r.0.types, name, false))
      && (c.cmd == 5 ==> r.0.types == d.types)
      && (c.cmd != 6 && NameAt(c, 1).None? ==> r == (d, false))
      && (c.cmd == 5 && NameAt(c, 1).Some? ==>
            (r.1 <==> IsAttribute(d.types, name, false) && IsAttribute(d.types, NameAt(c, 1).value, true)))
  {
    hide NameAt, Loaded, Lookup;
    var name := NameAt(c, 0).value;
    if Lookup(d.types, name).None? {
      LookupAppended(d.types, name, TypeDatum(|d.p.attrs| + 1, c.cmd == 6, 0));
    }
  }
}
