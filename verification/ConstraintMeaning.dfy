/** What the tests of a constraint mean: the two sides each attribute compares, and the relation of each operator. */
module ConstraintMeaning {
  import opened Options
  import opened Constraint
  import opened PolicyDatabase
  import opened AccessVector

  /** The outcome of a constraint that is this one node. */
  function Alone(env: Env, e: Node): Outcome { Machine(env, [e], Nil) }

  lemma AloneIsLeaf(env: Env, e: Node)
    requires IsLeaf(e)
    ensures Alone(env, e) == Leaf(env.dom, env.s, env.t, env.x, e)
  {
    assert [e][1..] == [];
    hide Leaf;
    var v := Leaf(env.dom, env.s, env.t, env.x, e);
    if v.Value? {
      assert Machine(env, [], Cons(v.v, Nil)) == Value(v.v);
    }
  }

  // ---------- numbers ----------

  /** Users, types and roles are compared between the source and the target. */
  predicate NumberSides(env: Env, attr: set<Flag>, a: nat, b: nat) {
    || (attr == {User} && a == env.s.user && b == env.t.user)
    || (attr == {Type} && a == env.s.typ && b == env.t.typ)
    || (attr == {Role} && a == env.s.role && b == env.t.role)
  }

  lemma NumbersMean(env: Env, e: Node, a: nat, b: nat)
    requires e.kind == AttrKind && NumberSides(env, e.attr, a, b)
    ensures e.op == Eq ==> Alone(env, e) == Value(a == b)
    ensures e.op == Neq ==> Alone(env, e) == Value(a != b)
    ensures e.attr != {Role} && e.op != Eq && e.op != Neq ==> Alone(env, e) == Bug
    ensures e.op == OtherOp ==> Alone(env, e) == Bug
  {
    AloneIsLeaf(env, e);
  }

  /** A role dominates another if it lists it. */
  predicate Lists(env: Env, r: nat, other: nat) { r in env.dom && other in env.dom[r] }

  lemma RolesMean(env: Env, e: Node)
    requires e.kind == AttrKind && e.attr == {Role}
    ensures e.op == Dom ==> Alone(env, e) == Value(Lists(env, env.s.role, env.t.role))
    ensures e.op == DomBy ==> Alone(env, e) == Value(Lists(env, env.t.role, env.s.role))
    ensures e.op == Incomp ==>
      Alone(env, e) == Value(!Lists(env, env.s.role, env.t.role) && !Lists(env, env.t.role, env.s.role))
  {
    AloneIsLeaf(env, e);
  }

  // ---------- levels ----------

  /** The digits are those of the two contexts' own low and high levels: the first side comes first. */
  predicate LevelSides(env: Env, attr: set<Flag>, l1: Level, l2: Level) {
    || (attr == {L1L2} && l1 == env.s.low && l2 == env.t.low)
    || (attr == {L1H2} && l1 == env.s.low && l2 == env.t.high)
    || (attr == {H1L2} && l1 == env.s.high && l2 == env.t.low)
    || (attr == {H1H2} && l1 == env.s.high && l2 == env.t.high)
    || (attr == {L1H1} && l1 == env.s.low && l2 == env.s.high)
    || (attr == {L2H2} && l1 == env.t.low && l2 == env.t.high)
  }

  /** At least the sensitivity, and all the categories. */
  predicate AtLeast(l1: Level, l2: Level) { l1.sens >= l2.sens && forall c :: c in l2.cats ==> c in l1.cats }

  lemma LevelsMean(env: Env, e: Node, l1: Level, l2: Level)
    requires e.kind == AttrKind && LevelSides(env, e.attr, l1, l2)
    ensures e.op == Eq ==> Alone(env, e) == Value(l1.sens == l2.sens && forall c :: c in l1.cats <==> c in l2.cats)
    ensures e.op == Neq ==> Alone(env, e) == Value(l1.sens != l2.sens || exists c :: c in l1.cats <==> c !in l2.cats)
    ensures e.op == Dom ==> Alone(env, e) == Value(AtLeast(l1, l2))
    ensures e.op == DomBy ==> Alone(env, e) == Value(AtLeast(l2, l1))
    ensures e.op == Incomp ==> Alone(env, e) == Value(!AtLeast(l1, l2) && !AtLeast(l2, l1))
    ensures e.op == OtherOp ==> Alone(env, e) == Bug
  {
    AloneIsLeaf(env, e);
    if forall c :: c in l1.cats <==> c in l2.cats {
      assert l1.cats == l2.cats;
    }
  }

  /** Dominance is a partial order: two levels that dominate each other are equal, and exactly one of equal, strictly
      dominating, strictly dominated and incomparable holds. */
  lemma LevelsAreOrdered(env: Env, e: Node, l1: Level, l2: Level)
    requires e.kind == AttrKind && LevelSides(env, e.attr, l1, l2)
    ensures var eq, dom, sub, inc :=
        Alone(env, e.(op := Eq)), Alone(env, e.(op := Dom)), Alone(env, e.(op := DomBy)), Alone(env, e.(op := Incomp));
      && eq.Value? && dom.Value? && sub.Value? && inc.Value?
      && (eq.v <==> dom.v && sub.v) && (inc.v <==> !dom.v && !sub.v)
      && Alone(env, e.(op := Neq)) == Value(!eq.v)
  {
    hide Alone;
    LevelsMean(env, e.(op := Eq), l1, l2);
    LevelsMean(env, e.(op := Neq), l1, l2);
    LevelsMean(env, e.(op := Dom), l1, l2);
    LevelsMean(env, e.(op := DomBy), l1, l2);
    LevelsMean(env, e.(op := Incomp), l1, l2);
  }

  // ---------- names ----------

  /** A name list is about the target if the flag says so, else about the third context if that flag says so, else about
      the source; and about its user before its role before its type. */
  predicate NameSide(env: Env, attr: set<Flag>, c: Context, val: nat) {
    && (Target in attr ==> c == env.t)
    && (Target !in attr && XTarget in attr ==> env.x == Some(c))
    && (Target !in attr && XTarget !in attr ==> c == env.s)
    && (User in attr ==> val == c.user)
    && (User !in attr && Role in attr ==> val == c.role)
    && (User !in attr && Role !in attr && Type in attr ==> val == c.typ)
    && (User in attr || Role in attr || Type in attr)
  }

  lemma NamesMean(env: Env, e: Node, c: Context, val: nat)
    requires e.kind == NamesKind && NameSide(env, e.attr, c, val)
    ensures e.op == Eq ==> Alone(env, e) == Value(val in e.names)
    ensures e.op == Neq ==> Alone(env, e) == Value(val !in e.names)
    ensures e.op != Eq && e.op != Neq ==> Alone(env, e) == Bug
  {
    AloneIsLeaf(env, e);
  }

  /** Every single test means something by one of the tables above, or is a BUG. */
  lemma TestsCovered(env: Env, e: Node)
    requires IsLeaf(e)
    ensures Alone(env, e) == Bug
         || (e.kind == AttrKind && exists a, b :: NumberSides(env, e.attr, a, b))
         || (e.kind == AttrKind && exists l1, l2 :: LevelSides(env, e.attr, l1, l2))
         || (e.kind == NamesKind && exists c, val :: NameSide(env, e.attr, c, val))
  {
    AloneIsLeaf(env, e);
    if e.kind == AttrKind {
      assert NumberSides(env, {User}, env.s.user, env.t.user) && NumberSides(env, {Type}, env.s.typ, env.t.typ);
      assert NumberSides(env, {Role}, env.s.role, env.t.role);
      assert LevelSides(env, {L1L2}, env.s.low, env.t.low) && LevelSides(env, {L1H2}, env.s.low, env.t.high);
      assert LevelSides(env, {H1L2}, env.s.high, env.t.low) && LevelSides(env, {H1H2}, env.s.high, env.t.high);
      assert LevelSides(env, {L1H1}, env.s.low, env.s.high) && LevelSides(env, {L2H2}, env.t.low, env.t.high);
    } else if Alone(env, e) != Bug {
      var c := if Target in e.attr then env.t else if XTarget in e.attr then env.x.value else env.s;
      var val := if User in e.attr then c.user else if Role in e.attr then c.role else c.typ;
      assert NameSide(env, e.attr, c, val);
    }
  }

  // ---------- connectives ----------

  /** Two tests and a connective, and a test denied, in the order they stand in the list. */
  lemma ConnectivesMean(env: Env, a: Node, b: Node, op: Node, x: bool, y: bool)
    requires IsLeaf(a) && IsLeaf(b) && Alone(env, a) == Value(x) && Alone(env, b) == Value(y)
    ensures op.kind == AndKind ==> Machine(env, [a, b, op], Nil) == Value(x && y)
    ensures op.kind == OrKind ==> Machine(env, [a, b, op], Nil) == Value(x || y)
    ensures op.kind == NotKind ==> Machine(env, [a, op], Nil) == Value(!x)
  {
    AloneIsLeaf(env, a);
    AloneIsLeaf(env, b);
    hide Leaf, Alone;
    if op.kind == NotKind {
      assert [a, op][1..] == [op] && [op][1..] == [];
      assert Machine(env, [], Cons(!x, Nil)) == Value(!x);
      assert Machine(env, [op], Cons(x, Nil)) == Value(!x);
    } else if op.kind == AndKind || op.kind == OrKind {
      var z := if op.kind == AndKind then x && y else x || y;
      assert [a, b, op][1..] == [b, op] && [b, op][1..] == [op] && [op][1..] == [];
      assert Machine(env, [], Cons(z, Nil)) == Value(z);
      assert Machine(env, [op], Cons(y, Cons(x, Nil))) == Value(z);
      assert Machine(env, [b, op], Cons(x, Nil)) == Value(z);
    }
  }

  // ---------- constraints on a decision ----------

  /** A granted permission meets every test that a constraint makes on it alone, with the decision's own source and target
      as the two sides. */
  lemma TestOnGranted(p: Policy, s: Context, t: Context, cls: nat, b: Av, n: nat, c: ConstraintNode, e: Node)
    requires WellFormed(p) && ValidType(p, s.typ) && ValidType(p, t.typ) && EndsWithin(p, s.typ, n)
    requires Granted(p, s, t, cls, b, n)
    requires c in p.classes[cls - 1].constraints && Has(c.permissions, b) && c.expr == [e]
    ensures Alone(Env(p.dominates, s, t, None), e) == Value(true)
    ensures e == Node(AttrKind, {User}, Eq, {}, {}) ==> s.user == t.user
    ensures e == Node(AttrKind, {H1H2}, Dom, {}, {}) ==> AtLeast(s.high, t.high)
  {
    hide Has, Ruled, Machine;
    var env := Env(p.dominates, s, t, None);
    if e == Node(AttrKind, {User}, Eq, {}, {}) {
      NumbersMean(env, e, s.user, t.user);
    }
    if e == Node(AttrKind, {H1H2}, Dom, {}, {}) {
      LevelsMean(env, e, s.high, t.high);
    }
  }

  // ---------- the size of the stack ----------

  function Many(e: Node, n: nat): (nodes: seq<Node>)
    ensures |nodes| == n
  {
    if n == 0 then [] else [e] + Many(e, n - 1)
  }

  /** Five true tests and four connectives are true, six true tests are false however they go on: there are five cells. */
  lemma FiveCells(env: Env, e: Node, op: Node, rest: seq<Node>)
    requires IsLeaf(e) && Alone(env, e) == Value(true) && op.kind == AndKind
    ensures Machine(env, Many(e, 5) + Many(op, 4), Nil) == Value(true)
    ensures Machine(env, Many(e, 6) + rest, Nil) == Value(false)
  {
    AloneIsLeaf(env, e);
    hide Leaf;
    FourAnds(env, op);
    FiveLeaves(env, e, Many(op, 4));
    FiveLeaves(env, e, [e] + rest);
    assert Many(e, 6) + rest == Many(e, 5) + ([e] + rest) by {
      assert Many(e, 0) == [] && Many(e, 1) == [e] && Many(e, 2) == [e, e] && Many(e, 3) == [e, e, e];
      assert Many(e, 4) == [e, e, e, e] && Many(e, 5) == [e, e, e, e, e] && Many(e, 6) == [e, e, e, e, e, e];
    }
  }

  function Trues(n: nat): List<bool> { if n == 0 then Nil else Cons(true, Trues(n - 1)) }

  lemma TruesSize(n: nat)
    ensures Size(Trues(n)) == n
  {
  }

  lemma FourAnds(env: Env, op: Node)
    requires op.kind == AndKind
    ensures Machine(env, Many(op, 4), Trues(5)) == Value(true)
  {
    AndsLeft(env, op, 4);
  }

  lemma {:induction false} AndsLeft(env: Env, op: Node, n: nat)
    requires op.kind == AndKind
    ensures Machine(env, Many(op, n), Trues(n + 1)) == Value(true)
    decreases n
  {
    if n > 0 {
      AndsLeft(env, op, n - 1);
      assert Many(op, n)[0] == op && Many(op, n)[1..] == Many(op, n - 1);
      assert Trues(n + 1) == Cons(true, Cons(true, Trues(n - 1)));
    } else {
      assert Trues(1) == Cons(true, Nil);
    }
  }

  /** Five tests fill the stack. */
  lemma FiveLeaves(env: Env, e: Node, rest: seq<Node>)
    requires IsLeaf(e) && Leaf(env.dom, env.s, env.t, env.x, e) == Value(true)
    ensures Machine(env, Many(e, 5) + rest, Nil) == Machine(env, rest, Trues(5))
  {
    LeavesOn(env, e, 5, 0, rest);
    assert Trues(0) == Nil;
  }

  lemma {:induction false} LeavesOn(env: Env, e: Node, n: nat, h: nat, rest: seq<Node>)
    requires IsLeaf(e) && Leaf(env.dom, env.s, env.t, env.x, e) == Value(true) && n + h <= 5
    ensures Machine(env, Many(e, n) + rest, Trues(h)) == Machine(env, rest, Trues(n + h))
    decreases n
  {
    hide Leaf;
    if n > 0 {
      TruesSize(h);
      LeavesOn(env, e, n - 1, h + 1, rest);
      assert (Many(e, n) + rest)[0] == e && (Many(e, n) + rest)[1..] == Many(e, n - 1) + rest;
      assert Cons(true, Trues(h)) == Trues(h + 1);
    } else {
      assert Many(e, 0) + rest == rest;
    }
  }
}
