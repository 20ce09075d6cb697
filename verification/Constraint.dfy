/** SELinux constraint expressions: the stack machine that evaluates them, and what it computes. */
module Constraint {
  import opened Options

  const CEXPR_MAXDEPTH: nat := 5

  /** A security level: sensitivity and categories. */
  datatype Level = Level(sens: nat, cats: set<nat>)

  datatype Context = Context(user: nat, role: nat, typ: nat, low: Level, high: Level)

  datatype Flag = User | Role | Type | Target | XTarget | L1L2 | L1H2 | H1L2 | H1H2 | L1H1 | L2H2

  datatype Op = Eq | Neq | Dom | DomBy | Incomp | OtherOp

  datatype Kind = NotKind | AndKind | OrKind | AttrKind | NamesKind | OtherKind

  /** One node of a postfix expression. `attr` is the set of flags in the attribute word; `names` and `typeNames`
      hold the values whose bits are set. */
  datatype Node = Node(kind: Kind, attr: set<Flag>, op: Op, names: set<nat>, typeNames: set<nat>)

  /** For each role, the roles it dominates. */
  type Dominates = map<nat, set<nat>>

  predicate RoleDominates(dom: Dominates, r1: nat, r2: nat) { r1 in dom && r2 in dom[r1] }

  predicate LevelDom(l1: Level, l2: Level) { l1.sens >= l2.sens && l2.cats <= l1.cats }

  /** A BUG stops the kernel; everything else is a truth value. */
  datatype Outcome = Bug | Value(v: bool)

  // ---------- the tests at the leaves ----------

  function CompareNumbers(op: Op, a: nat, b: nat): Outcome {
    match op
    case Eq => Value(a == b)
    case Neq => Value(a != b)
    case _ => Bug
  }

  function CompareRoles(dom: Dominates, op: Op, a: nat, b: nat): Outcome {
    match op
    case Dom => Value(RoleDominates(dom, a, b))
    case DomBy => Value(RoleDominates(dom, b, a))
    case Incomp => Value(!RoleDominates(dom, a, b) && !RoleDominates(dom, b, a))
    case _ => CompareNumbers(op, a, b)
  }

  function CompareLevels(op: Op, l1: Level, l2: Level): Outcome {
    match op
    case Eq => Value(l1 == l2)
    case Neq => Value(l1 != l2)
    case Dom => Value(LevelDom(l1, l2))
    case DomBy => Value(LevelDom(l2, l1))
    case Incomp => Value(!LevelDom(l2, l1) && !LevelDom(l1, l2))
    case OtherOp => Bug
  }

  function AttrTest(dom: Dominates, s: Context, t: Context, e: Node): Outcome {
    if e.attr == {User} then CompareNumbers(e.op, s.user, t.user)
    else if e.attr == {Type} then CompareNumbers(e.op, s.typ, t.typ)
    else if e.attr == {Role} then CompareRoles(dom, e.op, s.role, t.role)
    else if e.attr == {L1L2} then CompareLevels(e.op, s.low, t.low)
    else if e.attr == {L1H2} then CompareLevels(e.op, s.low, t.high)
    else if e.attr == {H1L2} then CompareLevels(e.op, s.high, t.low)
    else if e.attr == {H1H2} then CompareLevels(e.op, s.high, t.high)
    else if e.attr == {L1H1} then CompareLevels(e.op, s.low, s.high)
    else if e.attr == {L2H2} then CompareLevels(e.op, t.low, t.high)
    else Bug
  }

  function NamesTest(s: Context, t: Context, x: Option<Context>, e: Node): Outcome {
    if Target !in e.attr && XTarget in e.attr && x.None? then Bug
    else
      var c := if Target in e.attr then t else if XTarget in e.attr then x.value else s;
      if User !in e.attr && Role !in e.attr && Type !in e.attr then Bug
      else
        var val := if User in e.attr then c.user else if Role in e.attr then c.role else c.typ;
        match e.op
        case Eq => Value(val in e.names)
        case Neq => Value(val !in e.names)
        case _ => Bug
  }

  /** What a leaf node pushes. */
  function Leaf(dom: Dominates, s: Context, t: Context, x: Option<Context>, e: Node): Outcome {
    if e.kind == AttrKind then AttrTest(dom, s, t, e)
    else if e.kind == NamesKind then NamesTest(s, t, x, e)
    else Bug
  }

  // ---------- the stack machine ----------

  datatype List<+T> = Nil | Cons(head: T, tail: List<T>)

  function Size<T>(l: List<T>): nat { if l.Nil? then 0 else 1 + Size(l.tail) }

  predicate HasTwo<T>(l: List<T>) { l.Cons? && l.tail.Cons? }

  lemma HasSize<T>(l: List<T>)
    ensures HasTwo(l) <==> Size(l) >= 2
    ensures HasOne(l) <==> Size(l) == 1
  {
    if l.Cons? { assert Size(l) == 1 + Size(l.tail); }
  }

  predicate HasOne<T>(l: List<T>) { l.Cons? && l.tail.Nil? }

  /** The bindings an expression is evaluated under. */
  datatype Env = Env(dom: Dominates, s: Context, t: Context, x: Option<Context>)

  datatype StepResult = Continue(stack: List<bool>) | Stop(outcome: Outcome)

  predicate IsLeaf(e: Node) { e.kind == AttrKind || e.kind == NamesKind }

  /** One node; a push onto a full stack gives up with false. */
  function Step(env: Env, e: Node, stack: List<bool>): StepResult {
    match e.kind
    case NotKind => if stack.Nil? then Stop(Bug) else Continue(Cons(!stack.head, stack.tail))
    case AndKind =>
      if !HasTwo(stack) then Stop(Bug)
      else Continue(Cons(stack.tail.head && stack.head, stack.tail.tail))
    case OrKind =>
      if !HasTwo(stack) then Stop(Bug)
      else Continue(Cons(stack.tail.head || stack.head, stack.tail.tail))
    case OtherKind => Stop(Bug)
    case _ =>
      if Size(stack) == CEXPR_MAXDEPTH then Stop(Value(false))
      else
        var v := Leaf(env.dom, env.s, env.t, env.x, e);
        if v.Bug? then Stop(Bug) else Continue(Cons(v.v, stack))
  }

  /** Running the nodes over a stack. */
  function Machine(env: Env, nodes: seq<Node>, stack: List<bool>): Outcome
    decreases |nodes|
  {
    if nodes == [] then (if HasOne(stack) then Value(stack.head) else Bug)
    else
      var x := Step(env, nodes[0], stack);
      if x.Stop? then x.outcome else Machine(env, nodes[1..], x.stack)
  }

  /** The stack an array prefix holds, last cell on top. */
  function StackOf(s: seq<bool>): (l: List<bool>)
    ensures Size(l) == |s|
  {
    if s == [] then Nil else Cons(s[|s| - 1], StackOf(s[..|s| - 1]))
  }

  lemma StackTop(s: seq<bool>, k: nat)
    requires k < |s|
    ensures StackOf(s[..k + 1]) == Cons(s[k], StackOf(s[..k]))
  {
    assert s[..k + 1][..k] == s[..k];
  }

  /** constraint_expr_eval, on its fixed array of stack cells. */
  method ConstraintExprEval(env: Env, nodes: seq<Node>) returns (r: Outcome)
    ensures r == Machine(env, nodes, Nil)
  {
    hide Step;
    var s := new bool[CEXPR_MAXDEPTH](i => false);
    var sp := -1;
    var i := 0;
    assert nodes[0..] == nodes;
    while i < |nodes|
      invariant i <= |nodes| && -1 <= sp < CEXPR_MAXDEPTH
      invariant Machine(env, nodes[i..], StackOf(s[..sp + 1])) == Machine(env, nodes, Nil)
    {
      var stop, out;
      assert nodes[i..][0] == nodes[i] && nodes[i..][1..] == nodes[i + 1..];
      sp, stop, out := EvalNode(env, nodes[i], s, sp);
      if stop {
        return out;
      }
      i := i + 1;
    }
    if sp != 0 { return Bug; }
    return Value(s[0]);
  }

  /** The body of the evaluator's loop. */
  method EvalNode(env: Env, e: Node, s: array<bool>, sp: int) returns (sp': int, stop: bool, out: Outcome)
    requires s.Length == CEXPR_MAXDEPTH && -1 <= sp < CEXPR_MAXDEPTH
    modifies s
    ensures -1 <= sp' < CEXPR_MAXDEPTH
    ensures Step(env, e, StackOf(old(s[..sp + 1]))) == if stop then Stop(out) else Continue(StackOf(s[..sp' + 1]))
  {
    hide Leaf, StackOf;
    sp', stop, out := sp, false, Bug;
    ghost var was := s[..];
    HasSize(StackOf(was[..sp + 1]));
    match e.kind {
      case NotKind =>
        if sp' < 0 { return sp', true, Bug; }
        s[sp'] := !s[sp'];
        StackTop(was, sp');
        StackTop(s[..], sp');
        assert s[..sp'] == was[..sp'];
      case AndKind =>
        if sp' < 1 { return sp', true, Bug; }
        sp' := sp' - 1;
        s[sp'] := s[sp'] && s[sp' + 1];
        StackTop(was, sp' + 1);
        StackTop(was, sp');
        StackTop(s[..], sp');
        assert s[..sp'] == was[..sp'];
      case OrKind =>
        if sp' < 1 { return sp', true, Bug; }
        sp' := sp' - 1;
        s[sp'] := s[sp'] || s[sp' + 1];
        StackTop(was, sp' + 1);
        StackTop(was, sp');
        StackTop(s[..], sp');
        assert s[..sp'] == was[..sp'];
      case OtherKind =>
        return sp', true, Bug;
      case _ =>
        if sp' == CEXPR_MAXDEPTH - 1 { return sp', true, Value(false); }
        var v := Leaf(env.dom, env.s, env.t, env.x, e);
        if v.Bug? { return sp', true, Bug; }
        sp' := sp' + 1;
        s[sp'] := v.v;
        StackTop(s[..], sp');
        assert s[..sp'] == was[..sp'];
    }
  }

  // ---------- expression trees ----------

  /** The Boolean formula a constraint means; each operator keeps the node it is spelled with. */
  datatype Tree = Test(e: Node) | Not(e: Node, arg: Tree) | And(e: Node, left: Tree, right: Tree)
                | Or(e: Node, left: Tree, right: Tree)

  /** The formula in postfix order. */
  function Postfix(t: Tree): (nodes: seq<Node>)
    ensures nodes != []
  {
    match t
    case Test(e) => [e]
    case Not(e, a) => Postfix(a) + [e]
    case And(e, l, r) => Postfix(l) + Postfix(r) + [e]
    case Or(e, l, r) => Postfix(l) + Postfix(r) + [e]
  }

  /** Each node has the kind of its place in the tree. */
  predicate Spelled(t: Tree) {
    match t
    case Test(e) => IsLeaf(e)
    case Not(e, a) => e.kind == NotKind && Spelled(a)
    case And(e, l, r) => e.kind == AndKind && Spelled(l) && Spelled(r)
    case Or(e, l, r) => e.kind == OrKind && Spelled(l) && Spelled(r)
  }

  /** Every test of the tree is one the evaluator supports. */
  predicate Legal(env: Env, t: Tree) {
    match t
    case Test(e) => Leaf(env.dom, env.s, env.t, env.x, e).Value?
    case Not(_, a) => Legal(env, a)
    case And(_, l, r) => Legal(env, l) && Legal(env, r)
    case Or(_, l, r) => Legal(env, l) && Legal(env, r)
  }

  function Eval(env: Env, t: Tree): bool
    requires Legal(env, t)
  {
    match t
    case Test(e) => Leaf(env.dom, env.s, env.t, env.x, e).v
    case Not(_, a) => !Eval(env, a)
    case And(_, l, r) => Eval(env, l) && Eval(env, r)
    case Or(_, l, r) => Eval(env, l) || Eval(env, r)
  }

  function Max(a: nat, b: nat): nat { if a < b then b else a }

  /** The stack cells a tree needs. */
  function Depth(t: Tree): (d: nat)
    ensures d >= 1
  {
    match t
    case Test(_) => 1
    case Not(_, a) => Depth(a)
    case And(_, l, r) => Max(Depth(l), 1 + Depth(r))
    case Or(_, l, r) => Max(Depth(l), 1 + Depth(r))
  }

  lemma MachineStep(env: Env, e: Node, rest: seq<Node>, stack: List<bool>)
    ensures Machine(env, [e] + rest, stack)
         == if Step(env, e, stack).Stop? then Step(env, e, stack).outcome
            else Machine(env, rest, Step(env, e, stack).stack)
  {
    hide Step;
    assert ([e] + rest)[1..] == rest;
  }

  /** Running the postfix form of a legal tree pushes its value, or overflows. */
  lemma {:induction false} RunTree(env: Env, t: Tree, rest: seq<Node>, stack: List<bool>)
    requires Spelled(t) && Legal(env, t) && Size(stack) <= CEXPR_MAXDEPTH
    ensures Machine(env, Postfix(t) + rest, stack)
         == if Size(stack) + Depth(t) <= CEXPR_MAXDEPTH then Machine(env, rest, Cons(Eval(env, t), stack))
            else Value(false)
    decreases t, 1
  {
    hide Leaf, Machine;
    match t
    case Test(e) =>
      MachineStep(env, e, rest, stack);
    case Not(e, a) =>
      assert Postfix(t) + rest == Postfix(a) + ([e] + rest);
      RunTree(env, a, [e] + rest, stack);
      MachineStep(env, e, rest, Cons(Eval(env, a), stack));
    case _ =>
      RunPair(env, t, rest, stack);
  }

  lemma {:induction false} RunPair(env: Env, t: Tree, rest: seq<Node>, stack: List<bool>)
    requires (t.And? || t.Or?) && Spelled(t) && Legal(env, t) && Size(stack) <= CEXPR_MAXDEPTH
    ensures Machine(env, Postfix(t) + rest, stack)
         == if Size(stack) + Depth(t) <= CEXPR_MAXDEPTH then Machine(env, rest, Cons(Eval(env, t), stack))
            else Value(false)
    decreases t, 0
  {
    hide Leaf, Machine;
    var tail := [t.e] + rest;
    assert Postfix(t) + rest == Postfix(t.left) + (Postfix(t.right) + tail);
    RunTree(env, t.left, Postfix(t.right) + tail, stack);
    if Size(stack) + Depth(t.left) <= CEXPR_MAXDEPTH {
      var after := Cons(Eval(env, t.left), stack);
      RunTree(env, t.right, tail, after);
      MachineStep(env, t.e, rest, Cons(Eval(env, t.right), after));
    }
  }

  /** A well-formed constraint evaluates to the value of its formula if the stack suffices, else to false. */
  lemma EvaluatesFormula(env: Env, t: Tree)
    requires Spelled(t) && Legal(env, t)
    ensures Machine(env, Postfix(t), Nil) == Value(Depth(t) <= CEXPR_MAXDEPTH && Eval(env, t))
  {
    hide Postfix, Legal, Spelled, Depth;
    RunTree(env, t, [], Nil);
    assert Postfix(t) + [] == Postfix(t);
  }

  // ---------- exactly when a BUG fires ----------

  /** Rebuild the formula of a node list over a stack of formulas. */
  function Parse(nodes: seq<Node>, ts: List<Tree>): Option<Tree>
    decreases |nodes|
  {
    if nodes == [] then (if HasOne(ts) then Some(ts.head) else None)
    else
      var e, rest := nodes[0], nodes[1..];
      match e.kind
      case NotKind => if ts.Nil? then None else Parse(rest, Cons(Not(e, ts.head), ts.tail))
      case AndKind => if !HasTwo(ts) then None else Parse(rest, Cons(And(e, ts.tail.head, ts.head), ts.tail.tail))
      case OrKind => if !HasTwo(ts) then None else Parse(rest, Cons(Or(e, ts.tail.head, ts.head), ts.tail.tail))
      case OtherKind => None
      case _ => Parse(rest, Cons(Test(e), ts))
  }

  lemma ParseStep(e: Node, rest: seq<Node>, ts: List<Tree>)
    ensures IsLeaf(e) ==> Parse([e] + rest, ts) == Parse(rest, Cons(Test(e), ts))
    ensures e.kind == NotKind && ts.Cons? ==> Parse([e] + rest, ts) == Parse(rest, Cons(Not(e, ts.head), ts.tail))
    ensures e.kind == AndKind && HasTwo(ts) ==>
      Parse([e] + rest, ts) == Parse(rest, Cons(And(e, ts.tail.head, ts.head), ts.tail.tail))
    ensures e.kind == OrKind && HasTwo(ts) ==>
      Parse([e] + rest, ts) == Parse(rest, Cons(Or(e, ts.tail.head, ts.head), ts.tail.tail))
  {
    assert ([e] + rest)[1..] == rest;
  }

  lemma {:induction false} PostfixParses(t: Tree, rest: seq<Node>, ts: List<Tree>)
    requires Spelled(t)
    ensures Parse(Postfix(t) + rest, ts) == Parse(rest, Cons(t, ts))
    decreases t
  {
    hide Parse;
    match t
    case Test(e) =>
      ParseStep(e, rest, ts);
    case Not(e, a) =>
      assert Postfix(t) + rest == Postfix(a) + ([e] + rest);
      PostfixParses(a, [e] + rest, ts);
      ParseStep(e, rest, Cons(a, ts));
    case And(e, l, r) =>
      assert Postfix(t) + rest == Postfix(l) + (Postfix(r) + ([e] + rest));
      PostfixParses(l, Postfix(r) + ([e] + rest), ts);
      PostfixParses(r, [e] + rest, Cons(l, ts));
      ParseStep(e, rest, Cons(r, Cons(l, ts)));
    case Or(e, l, r) =>
      assert Postfix(t) + rest == Postfix(l) + (Postfix(r) + ([e] + rest));
      PostfixParses(l, Postfix(r) + ([e] + rest), ts);
      PostfixParses(r, [e] + rest, Cons(l, ts));
      ParseStep(e, rest, Cons(r, Cons(l, ts)));
  }

  /** The postfix forms of the stacked formulas, one after another. */
  function Written(ts: List<Tree>): seq<Node> {
    match ts
    case Nil => []
    case Cons(t, rest) => Written(rest) + Postfix(t)
  }

  predicate AllSpelled(ts: List<Tree>) { ts.Nil? || (Spelled(ts.head) && AllSpelled(ts.tail)) }

  lemma {:induction false} ParsedIsPostfix(nodes: seq<Node>, ts: List<Tree>, t: Tree)
    requires AllSpelled(ts) && Parse(nodes, ts) == Some(t)
    ensures Spelled(t) && Written(ts) + nodes == Postfix(t)
    decreases |nodes|
  {
    hide Pushed;
    if nodes == [] {
      assert Written(ts) + nodes == Written(ts);
      assert ts.tail == Nil;
    } else {
      var e, rest := nodes[0], nodes[1..];
      assert nodes == [e] + rest;
      var next := ParseNext(e, rest, ts, t);
      ParsedIsPostfix(rest, next, t);
      WrittenNext(ts, next, e, rest);
    }
  }

  /** What is on the stack after one node. */
  predicate Pushed(e: Node, ts: List<Tree>, next: List<Tree>) {
    next.Cons? && AllSpelled(next) &&
    match e.kind
    case NotKind => ts.Cons? && next == Cons(Not(e, ts.head), ts.tail)
    case AndKind => ts.Cons? && ts.tail.Cons? && next == Cons(And(e, ts.tail.head, ts.head), ts.tail.tail)
    case OrKind => ts.Cons? && ts.tail.Cons? && next == Cons(Or(e, ts.tail.head, ts.head), ts.tail.tail)
    case OtherKind => false
    case _ => next == Cons(Test(e), ts)
  }

  lemma ParseNext(e: Node, rest: seq<Node>, ts: List<Tree>, t: Tree) returns (next: List<Tree>)
    requires AllSpelled(ts) && Parse([e] + rest, ts) == Some(t)
    ensures Pushed(e, ts, next) && Parse(rest, next) == Some(t)
  {
    assert ([e] + rest)[1..] == rest;
    match e.kind
    case NotKind => next := Cons(Not(e, ts.head), ts.tail);
    case AndKind => next := Cons(And(e, ts.tail.head, ts.head), ts.tail.tail);
    case OrKind => next := Cons(Or(e, ts.tail.head, ts.head), ts.tail.tail);
    case OtherKind =>
    case _ => next := Cons(Test(e), ts);
  }

  /** The node goes from the list to the end of what is written. */
  lemma WrittenNext(ts: List<Tree>, next: List<Tree>, e: Node, rest: seq<Node>)
    requires Pushed(e, ts, next)
    ensures Written(next) + rest == Written(ts) + ([e] + rest)
  {
    WrittenOne(ts, next, e);
    assert Written(ts) + [e] + rest == Written(ts) + ([e] + rest);
  }

  lemma WrittenOne(ts: List<Tree>, next: List<Tree>, e: Node)
    requires Pushed(e, ts, next)
    ensures Written(next) == Written(ts) + [e]
  {
  }

  /** A node list has a formula exactly when it is the postfix form of one, and then only of that one. */
  lemma ParseExactly(nodes: seq<Node>, t: Tree)
    ensures Parse(nodes, Nil) == Some(t) <==> Spelled(t) && nodes == Postfix(t)
  {
    if Parse(nodes, Nil) == Some(t) {
      ParsedIsPostfix(nodes, Nil, t);
      assert [] + nodes == nodes;
    }
    if Spelled(t) && nodes == Postfix(t) {
      PostfixParses(t, [], Nil);
      assert nodes + [] == nodes;
    }
  }

  /** The run meets a full stack. */
  predicate Overflows(env: Env, nodes: seq<Node>, stack: List<bool>)
    decreases |nodes|
  {
    nodes != [] &&
    var x := Step(env, nodes[0], stack);
    if x.Stop? then IsLeaf(nodes[0]) && Size(stack) == CEXPR_MAXDEPTH
    else Overflows(env, nodes[1..], x.stack)
  }

  /** The stacked values are those of the stacked formulas. */
  ghost predicate Stacked(env: Env, ts: List<Tree>, stack: List<bool>) {
    match ts
    case Nil => stack == Nil
    case Cons(t, rest) => stack.Cons? && Legal(env, t) && stack.head == Eval(env, t) && Stacked(env, rest, stack.tail)
  }

  lemma {:induction false} StackedSize(env: Env, ts: List<Tree>, stack: List<bool>)
    requires Stacked(env, ts, stack)
    ensures Size(ts) == Size(stack)
  {
    if ts.Cons? { StackedSize(env, ts.tail, stack.tail); }
  }

  lemma {:induction false} BugFrom(env: Env, nodes: seq<Node>, stack: List<bool>, ts: List<Tree>)
    requires Stacked(env, ts, stack) && Size(stack) <= CEXPR_MAXDEPTH
    ensures Machine(env, nodes, stack) == Bug <==>
      !Overflows(env, nodes, stack) && !(Parse(nodes, ts).Some? && Legal(env, Parse(nodes, ts).value))
    decreases |nodes|
  {
    hide Leaf;
    StackedSize(env, ts, stack);
    if nodes != [] {
      var e, rest := nodes[0], nodes[1..];
      match e.kind
      case NotKind =>
        if ts.Cons? {
          BugFrom(env, rest, Cons(!stack.head, stack.tail), Cons(Not(e, ts.head), ts.tail));
        }
      case AndKind =>
        if HasTwo(ts) {
          BugFrom(env, rest, Cons(stack.tail.head && stack.head, stack.tail.tail),
                  Cons(And(e, ts.tail.head, ts.head), ts.tail.tail));
        }
      case OrKind =>
        if HasTwo(ts) {
          BugFrom(env, rest, Cons(stack.tail.head || stack.head, stack.tail.tail),
                  Cons(Or(e, ts.tail.head, ts.head), ts.tail.tail));
        }
      case OtherKind =>
      case _ =>
        var v := Leaf(env.dom, env.s, env.t, env.x, e);
        if Size(stack) < CEXPR_MAXDEPTH {
          if v.Value? {
            BugFrom(env, rest, Cons(v.v, stack), Cons(Test(e), ts));
          } else {
            IllegalStays(env, rest, Cons(Test(e), ts));
          }
        }
    }
  }

  predicate SomeIllegal(env: Env, ts: List<Tree>) {
    ts.Cons? && (!Legal(env, ts.head) || SomeIllegal(env, ts.tail))
  }

  /** A formula with an unsupported test stays part of whatever is built from it. */
  lemma {:induction false} IllegalStays(env: Env, nodes: seq<Node>, ts: List<Tree>)
    requires SomeIllegal(env, ts)
    ensures Parse(nodes, ts).Some? ==> !Legal(env, Parse(nodes, ts).value)
    decreases |nodes|
  {
    hide Leaf;
    if nodes != [] {
      var e, rest := nodes[0], nodes[1..];
      match e.kind
      case NotKind =>
        IllegalStays(env, rest, Cons(Not(e, ts.head), ts.tail));
      case AndKind =>
        if HasTwo(ts) {
          IllegalStays(env, rest, Cons(And(e, ts.tail.head, ts.head), ts.tail.tail));
        }
      case OrKind =>
        if HasTwo(ts) {
          IllegalStays(env, rest, Cons(Or(e, ts.tail.head, ts.head), ts.tail.tail));
        }
      case OtherKind =>
      case _ =>
        IllegalStays(env, rest, Cons(Test(e), ts));
    }
  }

  // ---------- the same from the list alone ----------

  /** The attribute and operator pairs the evaluator knows; a test of the third context needs one. */
  predicate Supported(e: Node, hasX: bool) {
    if e.kind == AttrKind then
      if e.attr == {User} || e.attr == {Type} then e.op == Eq || e.op == Neq
      else e.attr in {{Role}, {L1L2}, {L1H2}, {H1L2}, {H1H2}, {L1H1}, {L2H2}} && e.op != OtherOp
    else
      && e.kind == NamesKind
      && (Target in e.attr || XTarget !in e.attr || hasX)
      && (User in e.attr || Role in e.attr || Type in e.attr)
      && (e.op == Eq || e.op == Neq)
  }

  lemma SupportedExactly(env: Env, e: Node)
    ensures Supported(e, env.x.Some?) <==> Leaf(env.dom, env.s, env.t, env.x, e).Value?
  {
  }

  /** What a node does to the height of the stack. */
  function Delta(e: Node): int { if IsLeaf(e) then 1 else if e.kind == NotKind || e.kind == OtherKind then 0 else -1 }

  /** The height before node i, counted from h at the start. */
  function HeightAt(nodes: seq<Node>, h: int, i: nat): int
    requires i <= |nodes|
  {
    if i == 0 then h else HeightAt(nodes[1..], h + Delta(nodes[0]), i - 1)
  }

  /** A node that finds too little below it, is of no known kind, or is a test that is not supported and has room. */
  predicate BadNode(e: Node, h: int, hasX: bool) {
    match e.kind
    case NotKind => h < 1
    case AndKind => h < 2
    case OrKind => h < 2
    case OtherKind => true
    case _ => h != CEXPR_MAXDEPTH && !Supported(e, hasX)
  }

  /** Node i is bad, or the list ends there with other than one value. */
  predicate WrongAt(nodes: seq<Node>, h: int, hasX: bool, i: nat)
    requires i <= |nodes|
  {
    if i == |nodes| then HeightAt(nodes, h, i) != 1 else BadNode(nodes[i], HeightAt(nodes, h, i), hasX)
  }

  /** Node i is a test that finds the stack full. */
  predicate FullAt(nodes: seq<Node>, h: int, i: nat)
    requires i < |nodes|
  {
    IsLeaf(nodes[i]) && HeightAt(nodes, h, i) == CEXPR_MAXDEPTH
  }

  /** Something is wrong at a place that no full stack precedes. */
  ghost predicate GoesWrong(nodes: seq<Node>, h: int, hasX: bool) {
    exists i: nat :: i <= |nodes| && WrongAt(nodes, h, hasX, i) && forall j: nat :: j < i ==> !FullAt(nodes, h, j)
  }

  /** The stack fills up at a place that nothing wrong precedes. */
  ghost predicate FillsUp(nodes: seq<Node>, h: int, hasX: bool) {
    exists i: nat :: i < |nodes| && FullAt(nodes, h, i) && forall j: nat :: j < i ==> !WrongAt(nodes, h, hasX, j)
  }

  lemma OneOn(nodes: seq<Node>, h: int, hasX: bool, i: nat)
    requires 0 < i <= |nodes|
    ensures WrongAt(nodes, h, hasX, i) <==> WrongAt(nodes[1..], h + Delta(nodes[0]), hasX, i - 1)
    ensures i < |nodes| ==> (FullAt(nodes, h, i) <==> FullAt(nodes[1..], h + Delta(nodes[0]), i - 1))
  {
  }

  lemma WrongOn(nodes: seq<Node>, h: int, rest: seq<Node>, g: int, hasX: bool, i: nat)
    requires nodes != [] && rest == nodes[1..] && g == h + Delta(nodes[0])
    requires !FullAt(nodes, h, 0)
    requires i < |nodes| && WrongAt(rest, g, hasX, i)
    requires forall j: nat :: j < i ==> !FullAt(rest, g, j)
    ensures GoesWrong(nodes, h, hasX)
  {
    hide WrongAt, FullAt;
    OneOn(nodes, h, hasX, i + 1);
    forall j: nat | j < i + 1 ensures !FullAt(nodes, h, j) {
      if j > 0 { OneOn(nodes, h, hasX, j); }
    }
  }

  lemma WrongBack(nodes: seq<Node>, h: int, rest: seq<Node>, g: int, hasX: bool, i: nat)
    requires nodes != [] && rest == nodes[1..] && g == h + Delta(nodes[0])
    requires 0 < i <= |nodes| && WrongAt(nodes, h, hasX, i) && forall j: nat :: j < i ==> !FullAt(nodes, h, j)
    ensures GoesWrong(rest, g, hasX)
  {
    hide WrongAt, FullAt;
    OneOn(nodes, h, hasX, i);
    forall j: nat | j < i - 1 ensures !FullAt(rest, g, j) {
      OneOn(nodes, h, hasX, j + 1);
    }
  }

  lemma FullOn(nodes: seq<Node>, h: int, rest: seq<Node>, g: int, hasX: bool, i: nat)
    requires nodes != [] && rest == nodes[1..] && g == h + Delta(nodes[0])
    requires !WrongAt(nodes, h, hasX, 0)
    requires i < |nodes| - 1 && FullAt(rest, g, i)
    requires forall j: nat :: j < i ==> !WrongAt(rest, g, hasX, j)
    ensures FillsUp(nodes, h, hasX)
  {
    hide WrongAt, FullAt;
    OneOn(nodes, h, hasX, i + 1);
    forall j: nat | j < i + 1 ensures !WrongAt(nodes, h, hasX, j) {
      if j > 0 { OneOn(nodes, h, hasX, j); }
    }
  }

  lemma FullBack(nodes: seq<Node>, h: int, rest: seq<Node>, g: int, hasX: bool, i: nat)
    requires nodes != [] && rest == nodes[1..] && g == h + Delta(nodes[0])
    requires 0 < i < |nodes| && FullAt(nodes, h, i) && forall j: nat :: j < i ==> !WrongAt(nodes, h, hasX, j)
    ensures FillsUp(rest, g, hasX)
  {
    hide WrongAt, FullAt;
    OneOn(nodes, h, hasX, i);
    forall j: nat | j < i - 1 ensures !WrongAt(rest, g, hasX, j) {
      OneOn(nodes, h, hasX, j + 1);
    }
  }

  lemma WrongOnly(nodes: seq<Node>, h: int, hasX: bool, rest: seq<Node>, g: int)
    requires nodes != [] && rest == nodes[1..] && g == h + Delta(nodes[0])
    requires !WrongAt(nodes, h, hasX, 0) && !FullAt(nodes, h, 0)
    ensures GoesWrong(nodes, h, hasX) <==> GoesWrong(rest, g, hasX)
  {
    hide WrongAt, FullAt, HeightAt, Delta;
    if i: nat :| i <= |nodes| && WrongAt(nodes, h, hasX, i) && forall j: nat :: j < i ==> !FullAt(nodes, h, j) {
      WrongBack(nodes, h, rest, g, hasX, i);
    }
    if i: nat :| i <= |rest| && WrongAt(rest, g, hasX, i) && forall j: nat :: j < i ==> !FullAt(rest, g, j) {
      WrongOn(nodes, h, rest, g, hasX, i);
    }
  }

  lemma FullOnly(nodes: seq<Node>, h: int, hasX: bool, rest: seq<Node>, g: int)
    requires nodes != [] && rest == nodes[1..] && g == h + Delta(nodes[0])
    requires !WrongAt(nodes, h, hasX, 0) && !FullAt(nodes, h, 0)
    ensures FillsUp(nodes, h, hasX) <==> FillsUp(rest, g, hasX)
  {
    hide WrongAt, FullAt, HeightAt, Delta;
    if i: nat :| i < |nodes| && FullAt(nodes, h, i) && forall j: nat :: j < i ==> !WrongAt(nodes, h, hasX, j) {
      FullBack(nodes, h, rest, g, hasX, i);
    }
    if i: nat :| i < |rest| && FullAt(rest, g, i) && forall j: nat :: j < i ==> !WrongAt(rest, g, hasX, j) {
      FullOn(nodes, h, rest, g, hasX, i);
    }
  }

  /** Past a node where neither happens, both depend on the rest of the list only. */
  lemma RestDecides(nodes: seq<Node>, h: int, hasX: bool)
    requires nodes != [] && !WrongAt(nodes, h, hasX, 0) && !FullAt(nodes, h, 0)
    ensures GoesWrong(nodes, h, hasX) <==> GoesWrong(nodes[1..], h + Delta(nodes[0]), hasX)
    ensures FillsUp(nodes, h, hasX) <==> FillsUp(nodes[1..], h + Delta(nodes[0]), hasX)
  {
    hide WrongAt, FullAt, Delta, GoesWrong, FillsUp;
    WrongOnly(nodes, h, hasX, nodes[1..], h + Delta(nodes[0]));
    FullOnly(nodes, h, hasX, nodes[1..], h + Delta(nodes[0]));
  }

  lemma FirstDecides(nodes: seq<Node>, h: int, hasX: bool)
    requires nodes != []
    ensures WrongAt(nodes, h, hasX, 0) ==> GoesWrong(nodes, h, hasX) && (!FullAt(nodes, h, 0) ==> !FillsUp(nodes, h, hasX))
    ensures FullAt(nodes, h, 0) ==> FillsUp(nodes, h, hasX) && !GoesWrong(nodes, h, hasX)
  {
  }

  /** What stops the run, if anything does, can be told from kinds, heights and supported pairs. */
  lemma {:induction false} StaticFrom(env: Env, nodes: seq<Node>, stack: List<bool>)
    requires Size(stack) <= CEXPR_MAXDEPTH
    ensures Machine(env, nodes, stack) == Bug <==> GoesWrong(nodes, Size(stack), env.x.Some?)
    ensures Overflows(env, nodes, stack) <==> FillsUp(nodes, Size(stack), env.x.Some?)
    decreases |nodes|
  {
    hide Leaf, Supported, GoesWrong, FillsUp;
    var h, hasX := Size(stack), env.x.Some?;
    HasSize(stack);
    if nodes == [] {
      EmptyList(h, hasX);
    } else {
      SupportedExactly(env, nodes[0]);
      FirstDecides(nodes, h, hasX);
      var x := Step(env, nodes[0], stack);
      if x.Continue? {
        RestDecides(nodes, h, hasX);
        StaticFrom(env, nodes[1..], x.stack);
      }
    }
  }

  lemma EmptyList(h: int, hasX: bool)
    ensures GoesWrong([], h, hasX) <==> h != 1
    ensures !FillsUp([], h, hasX)
  {
    assert WrongAt([], h, hasX, 0) <==> h != 1;
  }

  /** A BUG fires exactly on the lists in which something is wrong at a place that no full stack precedes: a node with
      too little below it, an unknown node, an unsupported test with room for it, or an end with other than one value. */
  lemma BugByPlace(env: Env, nodes: seq<Node>)
    ensures Machine(env, nodes, Nil) == Bug <==> GoesWrong(nodes, 0, env.x.Some?)
  {
    StaticFrom(env, nodes, Nil);
  }

  /** Two supported tests and no operator, and one test that is not supported, end in a BUG for all contexts. */
  lemma SomeListsAreBugs(env: Env)
    ensures var same := Node(AttrKind, {User}, Eq, {}, {});
      && Machine(env, [same, same], Nil) == Bug
      && Machine(env, [same.(op := Dom)], Nil) == Bug
      && Machine(env, [same.(kind := NotKind)], Nil) == Bug
  {
    var same := Node(AttrKind, {User}, Eq, {}, {});
    hide GoesWrong, Machine;
    BugByPlace(env, [same, same]);
    BugByPlace(env, [same.(op := Dom)]);
    BugByPlace(env, [same.(kind := NotKind)]);
    var hasX := env.x.Some?;
    FirstDecides([same.(op := Dom)], 0, hasX);
    FirstDecides([same.(kind := NotKind)], 0, hasX);
    assert [same, same][1..] == [same] && [same][1..] == [];
    RestDecides([same, same], 0, hasX);
    RestDecides([same], 1, hasX);
    EmptyList(2, hasX);
  }

  /** The evaluator stops with a BUG exactly on the lists that are not the postfix form of a supported
      formula, unless the stack fills up first. */
  lemma BugExactly(env: Env, nodes: seq<Node>)
    ensures Machine(env, nodes, Nil) == Bug <==>
      !FillsUp(nodes, 0, env.x.Some?) && !(exists t :: Spelled(t) && Postfix(t) == nodes && Legal(env, t))
  {
    hide Machine, Parse, Overflows, Postfix, Legal, Spelled, FillsUp, GoesWrong;
    StaticFrom(env, nodes, Nil);
    BugFrom(env, nodes, Nil, Nil);
    if Parse(nodes, Nil).Some? {
      ParseExactly(nodes, Parse(nodes, Nil).value);
    }
    forall t | Spelled(t) && Postfix(t) == nodes
      ensures Parse(nodes, Nil) == Some(t)
    {
      ParseExactly(nodes, t);
    }
  }
}
