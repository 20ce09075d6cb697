/** The table of app profiles: reference-counted nodes, looked up without a lock while one writer changes the table. */
module Allowlist {
  import opened Options

  const PRESERVE_UID: nat := 9999
  const U16_MAX: nat := 0xFFFF
  const PROFILE_VERSION: nat := 4
  const MAX_PACKAGE_NAME: nat := 256
  const MAX_GROUPS: nat := 32
  const MAX_DOMAIN: nat := 64

  const EINVAL: int := 22
  const E2BIG: int := 7
  const ENOMEM: int := 12

  /** `useDefault` and `umount` belong to the half of the profile that `allowSu` selects. */
  datatype Profile = Profile(version: nat, key: string, uid: nat, allowSu: bool, useDefault: bool,
                             groupsCount: nat, domain: string, umount: bool)

  predicate ProfileValid(p: Profile) {
    && |p.key| < MAX_PACKAGE_NAME
    && p.version == PROFILE_VERSION
    && (p.allowSu ==> p.groupsCount <= MAX_GROUPS && 0 < |p.domain| < MAX_DOMAIN)
  }

  /** The profile of the reserved uid only carries the default for other apps. */
  predicate Settable(p: Profile) { ProfileValid(p) && (p.uid == PRESERVE_UID ==> p.key == "$") }

  /** Which profiles can be set, in numbers: a key that fits its field with its end, the current version, and for a profile
      that grants root at most 32 groups and a domain that is not empty and fits its field. */
  lemma SettableMeans(p: Profile)
    ensures Settable(p) <==>
      && |p.key| <= 255 && p.version == 4 && (p.uid == 9999 ==> p.key == ['$'])
      && (p.allowSu ==> p.groupsCount <= 32 && 1 <= |p.domain| <= 63)
  {
  }

  /** A node; `releases` counts how often its release function has run, `freed` says its memory is gone. */
  datatype Node = Node(profile: Profile, refs: nat, linked: bool, releases: nat, freed: bool)

  /** The writer, under the mutex: it has unlinked a node whose table reference it still holds, or has still to
      adjust the count. `todo` are the nodes a prune has yet to look at. */
  datatype Writer = Idle
                  | PutOld(node: nat, profile: Profile)
                  | Added(profile: Profile)
                  | Pruning(todo: seq<nat>)
                  | PrunePut(node: nat, todo: seq<nat>)
                  | PruneCount(todo: seq<nat>)

  /** A lookup inside its read-side section: still searching, or about to take a reference. */
  datatype Lookup = Searching(uid: nat) | Found(uid: nat, node: nat)

  datatype State = State(nodes: seq<Node>, count: nat, umountDefault: bool, writer: Writer,
                         lookups: map<nat, Lookup>, held: multiset<nat>)

  datatype Step = StartLookup(thread: nat, uid: nat)
                | Search(thread: nat)
                | TakeRef(thread: nat)
                | Put(node: nat)
                | Set(profile: Profile)
                | StartPrune
                | WriterStep(keep: bool)
                | Free(node: nat)

  // ---------- reference counts ----------

  predicate IsNode(s: State, i: nat) { i < |s.nodes| }

  function PutRef(s: State, i: nat): State
    requires IsNode(s, i) && s.nodes[i].refs > 0
  {
    var n := s.nodes[i];
    s.(nodes := s.nodes[i := n.(refs := n.refs - 1, releases := if n.refs == 1 then n.releases + 1 else n.releases)])
  }

  /** The linked node of a uid. */
  function Linked(nodes: seq<Node>, uid: nat): (r: Option<nat>)
    ensures r.Some? ==> r.value < |nodes| && nodes[r.value].linked && nodes[r.value].profile.uid == uid
    ensures r.None? ==> forall i :: 0 <= i < |nodes| && nodes[i].linked ==> nodes[i].profile.uid != uid
  {
    if nodes == [] then None
    else if nodes[|nodes| - 1].linked && nodes[|nodes| - 1].profile.uid == uid then Some(|nodes| - 1)
    else Linked(nodes[..|nodes| - 1], uid)
  }

  function NewNode(p: Profile): Node { Node(p, 1, true, 0, false) }

  function Unlink(s: State, i: nat): State
    requires IsNode(s, i)
  {
    s.(nodes := s.nodes[i := s.nodes[i].(linked := false)])
  }

  /** The first section of ksu_set_app_profile: replace the node of the uid, or add one. */
  function BeginSet(s: State, p: Profile): State {
    if !Settable(p) then s
    else
      var found := Linked(s.nodes, p.uid);
      if found.Some? then
        var t := Unlink(s, found.value);
        t.(nodes := t.nodes + [NewNode(p)], writer := PutOld(found.value, p))
      else if s.count == U16_MAX then s
      else s.(nodes := s.nodes + [NewNode(p)], writer := Added(p))
  }

  function LinkedNodes(nodes: seq<Node>): seq<nat> {
    if nodes == [] then []
    else LinkedNodes(nodes[..|nodes| - 1]) + if nodes[|nodes| - 1].linked then [|nodes| - 1] else []
  }

  function Defaulted(s: State, p: Profile): State {
    if p.uid == PRESERVE_UID then s.(umountDefault := p.umount) else s
  }

  predicate CanMove(s: State) {
    && (s.writer.PutOld? || s.writer.PrunePut? ==> IsNode(s, s.writer.node) && s.nodes[s.writer.node].refs > 0)
    && (s.writer.Pruning? && s.writer.todo != [] ==> IsNode(s, s.writer.todo[0]))
    && (s.writer.PruneCount? ==> s.count > 0)
  }

  /** What the writer does next; `keep` is the verdict on the uid a prune looks at. */
  function WriterMoves(s: State, keep: bool): State
    requires CanMove(s)
  {
    match s.writer
    case Idle => s
    case PutOld(i, p) => Defaulted(PutRef(s, i).(writer := Idle), p)
    case Added(p) => Defaulted(s.(count := s.count + 1, writer := Idle), p)
    case Pruning(todo) =>
      if todo == [] then s.(writer := Idle)
      else if s.nodes[todo[0]].profile.uid == PRESERVE_UID || keep then s.(writer := Pruning(todo[1..]))
      else Unlink(s, todo[0]).(writer := PrunePut(todo[0], todo[1..]))
    case PrunePut(i, todo) => PutRef(s, i).(writer := PruneCount(todo))
    case PruneCount(todo) => s.(count := s.count - 1, writer := Pruning(todo))
  }

  /** The nodes that lookups have found and that are held are there, with references to give back. */
  ghost predicate CanTake(s: State) {
    && (forall thread :: thread in s.lookups && s.lookups[thread].Found? ==> IsNode(s, s.lookups[thread].node))
    && (forall i :: i in s.held ==> IsNode(s, i) && s.nodes[i].refs > 0)
  }

  /** Every step of any thread. A lookup that finds its node at zero starts over; memory is freed only when no
      lookup that could still see it is running. */
  ghost function Next(s: State, step: Step): State
    requires CanMove(s) && CanTake(s)
  {
    match step
    case StartLookup(thread, uid) => if thread in s.lookups then s else s.(lookups := s.lookups[thread := Searching(uid)])
    case Search(thread) =>
      if thread in s.lookups && s.lookups[thread].Searching? then
        var uid := s.lookups[thread].uid;
        var i := Linked(s.nodes, uid);
        if i.Some? then s.(lookups := s.lookups[thread := Found(uid, i.value)])
        else s.(lookups := s.lookups - {thread})
      else s
    case TakeRef(thread) =>
      if thread in s.lookups && s.lookups[thread].Found? then
        var uid, i := s.lookups[thread].uid, s.lookups[thread].node;
        if s.nodes[i].refs == 0 then s.(lookups := s.lookups[thread := Searching(uid)])
        else s.(nodes := s.nodes[i := s.nodes[i].(refs := s.nodes[i].refs + 1)], held := s.held + multiset{i},
                lookups := s.lookups - {thread})
      else s
    case Put(i) => if i in s.held then PutRef(s.(held := s.held - multiset{i}), i) else s
    case Set(p) => if s.writer.Idle? then BeginSet(s, p) else s
    case StartPrune => if s.writer.Idle? then s.(writer := Pruning(LinkedNodes(s.nodes))) else s
    case WriterStep(keep) => WriterMoves(s, keep)
    case Free(i) =>
      if IsNode(s, i) && s.nodes[i].releases > 0 && !BeingLookedAt(s, i) then
        s.(nodes := s.nodes[i := s.nodes[i].(freed := true)])
      else s
  }

  ghost predicate BeingLookedAt(s: State, i: nat) {
    exists thread :: thread in s.lookups && s.lookups[thread].Found? && s.lookups[thread].node == i
  }

  // ---------- the invariant ----------

  function One(b: bool): nat { if b then 1 else 0 }

  predicate WriterHolds(w: Writer, i: nat) { (w.PutOld? || w.PrunePut?) && w.node == i }

  /** The references on a node are the table's, the writer's while it is taking the node out, and those that
      lookups have been given; it is released once they are gone, once, and its memory is not gone before that. */
  predicate NodeOk(n: Node, writers: bool, held: nat) {
    && n.refs == One(n.linked) + One(writers) + held
    && n.releases == One(n.refs == 0)
    && (n.freed ==> n.refs == 0)
  }

  ghost predicate NodesOk(nodes: seq<Node>, w: Writer, held: multiset<nat>) {
    && (forall i: nat :: i < |nodes| ==> NodeOk(nodes[i], WriterHolds(w, i), held[i]))
    && (forall i :: i in held ==> i < |nodes|)
    && (w.PutOld? || w.PrunePut? ==> w.node < |nodes| && !nodes[w.node].linked)
  }

  ghost predicate OnePerUid(nodes: seq<Node>) {
    forall i, j :: 0 <= i < j < |nodes| && nodes[i].linked && nodes[j].linked ==> nodes[i].profile.uid != nodes[j].profile.uid
  }

  function CountLinked(nodes: seq<Node>): nat {
    if nodes == [] then 0 else CountLinked(nodes[..|nodes| - 1]) + One(nodes[|nodes| - 1].linked)
  }

  /** The count lags behind the table by one while the writer is between two statements. */
  predicate CountOk(linked: nat, count: nat, w: Writer) {
    && linked + One(w.PrunePut? || w.PruneCount?) == count + One(w.Added?)
    && count <= U16_MAX && (w.Added? ==> count < U16_MAX)
  }

  function Todo(w: Writer): seq<nat> {
    if w.Pruning? || w.PrunePut? || w.PruneCount? then w.todo else []
  }

  /** A prune has each node once before it, all still linked. */
  ghost predicate TodoOk(nodes: seq<Node>, todo: seq<nat>) {
    && (forall k :: 0 <= k < |todo| ==> todo[k] < |nodes| && nodes[todo[k]].linked)
    && (forall j, k :: 0 <= j < k < |todo| ==> todo[j] < todo[k])
  }

  predicate LookupOk(nodes: seq<Node>, l: Lookup) {
    l.Found? ==> l.node < |nodes| && !nodes[l.node].freed && nodes[l.node].profile.uid == l.uid
  }

  ghost predicate LookupsOk(nodes: seq<Node>, lookups: map<nat, Lookup>) {
    forall thread :: thread in lookups ==> LookupOk(nodes, lookups[thread])
  }

  ghost predicate Inv(s: State) {
    && NodesOk(s.nodes, s.writer, s.held)
    && OnePerUid(s.nodes)
    && CountOk(CountLinked(s.nodes), s.count, s.writer)
    && TodoOk(s.nodes, Todo(s.writer))
    && LookupsOk(s.nodes, s.lookups)
  }

  // ---------- every step keeps it ----------

  lemma {:induction false} CountUpdate(nodes: seq<Node>, i: nat, n: Node)
    requires i < |nodes|
    ensures CountLinked(nodes[i := n]) + One(nodes[i].linked) == CountLinked(nodes) + One(n.linked)
    decreases |nodes|
  {
    var k := |nodes| - 1;
    if i < k {
      CountUpdate(nodes[..k], i, n);
      assert nodes[i := n][..k] == nodes[..k][i := n];
    } else {
      assert nodes[i := n][..k] == nodes[..k];
    }
  }

  lemma CountAppend(nodes: seq<Node>, n: Node)
    ensures CountLinked(nodes + [n]) == CountLinked(nodes) + One(n.linked)
  {
    assert (nodes + [n])[..|nodes|] == nodes;
  }

  lemma {:induction false} LinkedNodesAre(nodes: seq<Node>)
    ensures TodoOk(nodes, LinkedNodes(nodes))
    decreases |nodes|
  {
    if nodes != [] { LinkedNodesAre(nodes[..|nodes| - 1]); }
  }

  /** Nobody but this node is affected. */
  predicate SameKind(n: Node, m: Node) { n.profile == m.profile && n.linked == m.linked && n.freed == m.freed }

  lemma RefsChange(s: State, i: nat, n: Node, w: Writer, held: multiset<nat>)
    requires Inv(s) && i < |s.nodes| && SameKind(n, s.nodes[i]) && NodeOk(n, WriterHolds(w, i), held[i])
    requires forall j: nat | j != i :: held[j] == s.held[j] && WriterHolds(w, j) == WriterHolds(s.writer, j)
    requires w.PutOld? || w.PrunePut? ==> w == s.writer
    ensures var nodes := s.nodes[i := n];
      && NodesOk(nodes, w, held) && OnePerUid(nodes) && CountLinked(nodes) == CountLinked(s.nodes)
      && TodoOk(nodes, Todo(s.writer)) && LookupsOk(nodes, s.lookups)
  {
    hide NodeOk, CountLinked;
    CountUpdate(s.nodes, i, n);
    assert forall j | j in held && j != i :: j in s.held;
  }

  lemma CanStep(s: State)
    requires Inv(s)
    ensures CanMove(s) && CanTake(s)
  {
    hide OnePerUid, CountLinked;
    assert s.writer.PutOld? || s.writer.PrunePut? ==> NodeOk(s.nodes[s.writer.node], true, s.held[s.writer.node]);
    forall i | i in s.held ensures IsNode(s, i) && s.nodes[i].refs > 0 {
      assert NodeOk(s.nodes[i], WriterHolds(s.writer, i), s.held[i]);
    }
  }

  lemma TakeRefKeeps(s: State, thread: nat)
    requires Inv(s) && CanMove(s) && CanTake(s)
    ensures Inv(Next(s, TakeRef(thread)))
  {
    hide OnePerUid, CountLinked, CountOk, TodoOk;
    if thread in s.lookups && s.lookups[thread].Found? {
      var i := s.lookups[thread].node;
      var n := s.nodes[i];
      assert NodeOk(n, WriterHolds(s.writer, i), s.held[i]);
      if n.refs > 0 {
        RefsChange(s, i, n.(refs := n.refs + 1), s.writer, s.held + multiset{i});
      } else {
        hide NodesOk;
      }
    }
  }

  lemma HeldNode(s: State, i: nat)
    requires Inv(s) && i < |s.nodes|
    ensures NodeOk(s.nodes[i], WriterHolds(s.writer, i), s.held[i])
  {
    hide OnePerUid, CountLinked, CountOk, TodoOk, LookupsOk;
  }

  lemma PutKeeps(s: State, i: nat)
    requires Inv(s) && CanMove(s) && CanTake(s)
    ensures Inv(Next(s, Put(i)))
  {
    hide OnePerUid, CountLinked, CountOk, TodoOk, LookupsOk, NodesOk;
    if i in s.held {
      var n := s.nodes[i];
      HeldNode(s, i);
      var m := n.(refs := n.refs - 1, releases := if n.refs == 1 then n.releases + 1 else n.releases);
      RefsChange(s, i, m, s.writer, s.held - multiset{i});
    }
  }

  lemma LookupKeeps(s: State, thread: nat, uid: nat)
    requires Inv(s) && CanMove(s) && CanTake(s)
    ensures Inv(Next(s, StartLookup(thread, uid))) && Inv(Next(s, Search(thread)))
  {
    hide OnePerUid, CountLinked, CountOk, TodoOk;
    var i := if thread in s.lookups && s.lookups[thread].Searching? then Linked(s.nodes, s.lookups[thread].uid) else None;
    if i.Some? {
      assert NodeOk(s.nodes[i.value], WriterHolds(s.writer, i.value), s.held[i.value]);
    }
    hide NodesOk;
  }

  lemma FreeKeeps(s: State, i: nat)
    requires Inv(s) && CanMove(s) && CanTake(s)
    ensures Inv(Next(s, Free(i)))
  {
    hide CountLinked, CountOk;
    var t := Next(s, Free(i));
    if t != s {
      var n := s.nodes[i];
      assert NodeOk(n, WriterHolds(s.writer, i), s.held[i]);
      CountUpdate(s.nodes, i, n.(freed := true));
    }
  }

  /** Taking a linked node out of the table leaves its reference with the writer. */
  lemma UnlinkKeeps(s: State, i: nat, w: Writer)
    requires Inv(s) && i < |s.nodes| && s.nodes[i].linked && WriterHolds(w, i)
    requires !s.writer.PutOld? && !s.writer.PrunePut?
    ensures var nodes := s.nodes[i := s.nodes[i].(linked := false)];
      && NodesOk(nodes, w, s.held) && OnePerUid(nodes) && CountLinked(nodes) + 1 == CountLinked(s.nodes)
      && LookupsOk(nodes, s.lookups)
      && (forall todo :: TodoOk(s.nodes, [i] + todo) ==> TodoOk(nodes, todo))
  {
    hide CountLinked;
    var nodes := s.nodes[i := s.nodes[i].(linked := false)];
    CountUpdate(s.nodes, i, nodes[i]);
    assert NodeOk(s.nodes[i], WriterHolds(s.writer, i), s.held[i]);
    forall todo | TodoOk(s.nodes, [i] + todo)
      ensures TodoOk(nodes, todo)
    {
      TodoTail(s.nodes, i, todo);
    }
  }

  lemma TodoTail(nodes: seq<Node>, i: nat, todo: seq<nat>)
    requires TodoOk(nodes, [i] + todo)
    ensures i < |nodes| && TodoOk(nodes[i := nodes[i].(linked := false)], todo)
  {
    var all := [i] + todo;
    assert forall k | 0 <= k < |todo| :: all[k + 1] == todo[k];
    assert all[0] == i;
  }

  /** Adding a node for a uid that has none. */
  lemma AddKeeps(nodes: seq<Node>, w: Writer, held: multiset<nat>, lookups: map<nat, Lookup>, p: Profile)
    requires NodesOk(nodes, w, held) && OnePerUid(nodes) && LookupsOk(nodes, lookups)
    requires forall j :: 0 <= j < |nodes| && nodes[j].linked ==> nodes[j].profile.uid != p.uid
    ensures var now := nodes + [NewNode(p)];
      NodesOk(now, w, held) && OnePerUid(now) && LookupsOk(now, lookups) && CountLinked(now) == CountLinked(nodes) + 1
  {
    hide CountLinked;
    CountAppend(nodes, NewNode(p));
    assert |nodes| !in held;
  }

  /** Writers that hold no node are the same to the nodes. */
  lemma SameHolder(nodes: seq<Node>, v: Writer, w: Writer, held: multiset<nat>)
    requires NodesOk(nodes, v, held) && !v.PutOld? && !v.PrunePut? && !w.PutOld? && !w.PrunePut?
    ensures NodesOk(nodes, w, held)
  {
    hide NodeOk;
    forall i: nat | i < |nodes| ensures NodeOk(nodes[i], WriterHolds(w, i), held[i]) {
      assert NodeOk(nodes[i], WriterHolds(v, i), held[i]);
    }
  }

  lemma SetKeeps(s: State, p: Profile)
    requires Inv(s) && s.writer.Idle?
    ensures Inv(BeginSet(s, p))
  {
    hide OnePerUid, CountLinked, Settable, NodesOk, LookupsOk;
    if Settable(p) {
      var found := Linked(s.nodes, p.uid);
      if found.Some? {
        var i, w := found.value, PutOld(found.value, p);
        UnlinkKeeps(s, i, w);
        NoneLeft(s.nodes, i);
        AddKeeps(s.nodes[i := s.nodes[i].(linked := false)], w, s.held, s.lookups, p);
      } else if s.count < U16_MAX {
        SameHolder(s.nodes, s.writer, Added(p), s.held);
        AddKeeps(s.nodes, Added(p), s.held, s.lookups, p);
      }
    }
  }

  lemma NoneLeft(nodes: seq<Node>, i: nat)
    requires OnePerUid(nodes) && i < |nodes| && nodes[i].linked
    ensures forall j :: 0 <= j < |nodes| && j != i && nodes[j].linked ==> nodes[j].profile.uid != nodes[i].profile.uid
  {
  }

  /** The writer gives up the reference it took over from the table. */
  lemma WriterPutKeeps(s: State, w: Writer)
    requires Inv(s) && CanMove(s) && (s.writer.PutOld? || s.writer.PrunePut?) && !w.PutOld? && !w.PrunePut?
    ensures var nodes := PutRef(s, s.writer.node).nodes;
      && NodesOk(nodes, w, s.held) && OnePerUid(nodes) && CountLinked(nodes) == CountLinked(s.nodes)
      && TodoOk(nodes, Todo(s.writer)) && LookupsOk(nodes, s.lookups)
  {
    hide OnePerUid, CountLinked;
    var i := s.writer.node;
    assert NodeOk(s.nodes[i], true, s.held[i]);
    RefsChange(s, i, PutRef(s, i).nodes[i], w, s.held);
  }

  lemma WriterKeeps(s: State, keep: bool)
    requires Inv(s) && CanMove(s)
    ensures Inv(WriterMoves(s, keep))
  {
    hide OnePerUid, CountLinked, NodesOk, LookupsOk, TodoOk;
    match s.writer
    case Idle =>
    case PutOld(i, p) =>
      WriterPutKeeps(s, Idle);
      NothingTodo(PutRef(s, i).nodes);
    case Added(p) =>
      SameHolder(s.nodes, s.writer, Idle, s.held);
    case Pruning(todo) =>
      if todo == [] {
        SameHolder(s.nodes, s.writer, Idle, s.held);
      } else {
        assert [todo[0]] + todo[1..] == todo;
        FirstTodo(s.nodes, todo);
        if s.nodes[todo[0]].profile.uid == PRESERVE_UID || keep {
          SameHolder(s.nodes, s.writer, Pruning(todo[1..]), s.held);
        } else {
          UnlinkKeeps(s, todo[0], PrunePut(todo[0], todo[1..]));
        }
      }
    case PrunePut(i, todo) =>
      WriterPutKeeps(s, PruneCount(todo));
    case PruneCount(todo) =>
      SameHolder(s.nodes, s.writer, Pruning(todo), s.held);
  }

  lemma NothingTodo(nodes: seq<Node>)
    ensures TodoOk(nodes, [])
  {
  }

  lemma FirstTodo(nodes: seq<Node>, todo: seq<nat>)
    requires TodoOk(nodes, todo) && todo != []
    ensures nodes[todo[0]].linked && TodoOk(nodes, todo[1..])
  {
  }

  lemma StepKeepsInv(s: State, step: Step)
    requires Inv(s)
    ensures CanMove(s) && CanTake(s) && Inv(Next(s, step))
  {
    hide NodesOk, OnePerUid, CountLinked, LookupsOk, TodoOk, CanMove, CanTake, BeginSet, WriterMoves;
    CanStep(s);
    match step
    case StartLookup(thread, uid) => LookupKeeps(s, thread, uid);
    case Search(thread) => LookupKeeps(s, thread, 0);
    case TakeRef(thread) => TakeRefKeeps(s, thread);
    case Put(i) => PutKeeps(s, i);
    case Set(p) => if s.writer.Idle? { SetKeeps(s, p); }
    case StartPrune =>
      if s.writer.Idle? {
        LinkedNodesAre(s.nodes);
        SameHolder(s.nodes, s.writer, Pruning(LinkedNodes(s.nodes)), s.held);
      }
    case WriterStep(keep) => WriterKeeps(s, keep);
    case Free(i) => FreeKeeps(s, i);
  }

  ghost function Run(s: State, steps: seq<Step>): (t: State)
    requires Inv(s)
    ensures Inv(t)
  {
    if steps == [] then s
    else
      var t := Run(s, steps[..|steps| - 1]);
      StepKeepsInv(t, steps[|steps| - 1]);
      Next(t, steps[|steps| - 1])
  }

  function Start(): State { State([], 0, true, Idle, map[], multiset{}) }

  lemma StartsWell()
    ensures Inv(Start())
  {
    hide NodeOk;
  }

  // ---------- what it means ----------

  /** A node somebody holds, or that is in the table, is neither released nor freed, and so is one a lookup may still
      take a reference on never freed. */
  lemma HeldIsAlive(s: State, i: nat)
    requires Inv(s)
    ensures i in s.held || (i < |s.nodes| && s.nodes[i].linked) ==>
      i < |s.nodes| && s.nodes[i].refs >= 1 && s.nodes[i].releases == 0 && !s.nodes[i].freed
    ensures forall thread :: thread in s.lookups && s.lookups[thread].Found? ==> !s.nodes[s.lookups[thread].node].freed
  {
    hide OnePerUid, CountLinked;
    if i < |s.nodes| {
      assert NodeOk(s.nodes[i], WriterHolds(s.writer, i), s.held[i]);
    }
    forall thread | thread in s.lookups && s.lookups[thread].Found?
      ensures s.lookups[thread].node < |s.nodes| && !s.nodes[s.lookups[thread].node].freed
    {
      assert LookupOk(s.nodes, s.lookups[thread]);
    }
  }

  /** Once the last reference is gone, a node is released that once and never taken up again. */
  lemma ReleasedForGood(s: State, steps: seq<Step>, i: nat)
    requires Inv(s) && i < |s.nodes| && s.nodes[i].refs == 0
    ensures i < |Run(s, steps).nodes| && Run(s, steps).nodes[i].refs == 0 && Run(s, steps).nodes[i].releases == 1
    decreases |steps|
  {
    hide OnePerUid, CountLinked, CountOk, TodoOk, LookupsOk;
    if steps != [] {
      ReleasedForGood(s, steps[..|steps| - 1], i);
      StepKeepsInv(Run(s, steps[..|steps| - 1]), steps[|steps| - 1]);
      NoRevival(Run(s, steps[..|steps| - 1]), steps[|steps| - 1], i);
    }
    assert NodeOk(Run(s, steps).nodes[i], WriterHolds(Run(s, steps).writer, i), Run(s, steps).held[i]);
  }

  lemma NoRevival(s: State, step: Step, i: nat)
    requires Inv(s) && CanMove(s) && CanTake(s) && i < |s.nodes| && s.nodes[i].refs == 0
    ensures i < |Next(s, step).nodes| && Next(s, step).nodes[i].refs == 0
  {
    hide Inv, BeginSet, WriterMoves, Linked, LinkedNodes, BeingLookedAt;
    match step
    case Set(p) => SetRevivesNone(s, p, i);
    case WriterStep(keep) => WriterRevivesNone(s, keep, i);
    case TakeRef(thread) => LookupRevivesNone(s, thread, i);
    case Put(j) => PutRevivesNone(s, j, i);
    case _ =>
  }

  lemma LookupRevivesNone(s: State, thread: nat, i: nat)
    requires CanMove(s) && CanTake(s) && i < |s.nodes| && s.nodes[i].refs == 0
    ensures i < |Next(s, TakeRef(thread)).nodes| && Next(s, TakeRef(thread)).nodes[i].refs == 0
  {
  }

  lemma PutRevivesNone(s: State, j: nat, i: nat)
    requires CanMove(s) && CanTake(s) && i < |s.nodes| && s.nodes[i].refs == 0
    ensures i < |Next(s, Put(j)).nodes| && Next(s, Put(j)).nodes[i].refs == 0
  {
  }

  lemma SetRevivesNone(s: State, p: Profile, i: nat)
    requires i < |s.nodes|
    ensures i < |BeginSet(s, p).nodes| && BeginSet(s, p).nodes[i].refs == s.nodes[i].refs
  {
    hide Settable;
  }

  lemma WriterRevivesNone(s: State, keep: bool, i: nat)
    requires CanMove(s) && i < |s.nodes|
    ensures i < |WriterMoves(s, keep).nodes| && WriterMoves(s, keep).nodes[i].refs <= s.nodes[i].refs
  {
  }

  /** With the writer at rest the count is the size of the table, which has one node for each uid in it. */
  lemma CountIsSize(s: State)
    requires Inv(s) && s.writer.Idle?
    ensures s.count == CountLinked(s.nodes) && OnePerUid(s.nodes)
  {
  }

  /** In every reachable state a node's count is the table's reference, the writer's, and those of lookups; it is
      released once they are gone and not freed before; and the table has one node for each uid. */
  lemma EveryRunCounts(steps: seq<Step>, i: nat)
    ensures Inv(Start())
    ensures var s := Run(Start(), steps);
      && OnePerUid(s.nodes) && (s.writer.Idle? ==> s.count == CountLinked(s.nodes))
      && (i < |s.nodes| ==>
            var n := s.nodes[i];
            && n.refs == One(n.linked) + One(WriterHolds(s.writer, i)) + s.held[i]
            && n.releases == One(n.refs == 0) && (n.freed ==> n.refs == 0))
  {
    hide OnePerUid, CountLinked, Start;
    StartsWell();
    var s := Run(Start(), steps);
    if i < |s.nodes| {
      assert NodeOk(s.nodes[i], WriterHolds(s.writer, i), s.held[i]);
    }
  }

  /** The profile a uid has. */
  function ProfileOf(nodes: seq<Node>, uid: nat): Option<Profile> {
    var i := Linked(nodes, uid);
    if i.Some? then Some(nodes[i.value].profile) else None
  }

  lemma LinkedUnique(nodes: seq<Node>, uid: nat, i: nat)
    requires OnePerUid(nodes) && i < |nodes| && nodes[i].linked && nodes[i].profile.uid == uid
    ensures Linked(nodes, uid) == Some(i)
  {
  }

  /** Setting a profile binds it to its uid and changes no other, whoever is looking profiles up. */
  lemma SetBinds(s: State, p: Profile, uid: nat)
    requires Inv(s) && s.writer.Idle? && Settable(p)
    requires Linked(s.nodes, p.uid).Some? || s.count < U16_MAX
    ensures ProfileOf(BeginSet(s, p).nodes, uid) == if uid == p.uid then Some(p) else ProfileOf(s.nodes, uid)
  {
    hide CountLinked, NodesOk, LookupsOk;
    SetKeeps(s, p);
    var t := BeginSet(s, p);
    if uid == p.uid {
      LinkedUnique(t.nodes, uid, |t.nodes| - 1);
    } else if Linked(s.nodes, uid).Some? {
      LinkedUnique(t.nodes, uid, Linked(s.nodes, uid).value);
    } else {
      assert forall j :: 0 <= j < |s.nodes| && t.nodes[j].linked ==> s.nodes[j].linked && t.nodes[j].profile == s.nodes[j].profile;
    }
  }

  // ---------- the code, one call at a time ----------

  class AllowList {
    var nodes: seq<Node>
    var count: nat
    var umountDefault: bool
    ghost var held: multiset<nat>

    constructor ()
      ensures Valid() && Now() == Start()
    {
      hide Inv;
      nodes, count, umountDefault, held := [], 0, true, multiset{};
      new;
      StartsWell();
    }

    ghost function Now(): State
      reads this
    {
      State(nodes, count, umountDefault, Idle, map[], held)
    }

    ghost predicate Valid()
      reads this
    {
      Inv(Now())
    }

    /** The walk over the bucket of a uid. */
    method Find(uid: nat) returns (r: Option<nat>)
      requires OnePerUid(nodes)
      ensures r == Linked(nodes, uid)
    {
      for i := 0 to |nodes|
        invariant forall j :: 0 <= j < i && nodes[j].linked ==> nodes[j].profile.uid != uid
      {
        if nodes[i].linked && nodes[i].profile.uid == uid {
          LinkedUnique(nodes, uid, i);
          return Some(i);
        }
      }
      return None;
    }

    /** kref_put: the last reference releases the node. */
    method PutPermData(i: nat)
      requires i < |nodes| && nodes[i].refs > 0
      modifies this`nodes
      ensures nodes == PutRef(old(Now()), i).nodes
    {
      nodes := nodes[i := nodes[i].(refs := nodes[i].refs - 1)];
      if nodes[i].refs == 0 {
        nodes := nodes[i := nodes[i].(releases := nodes[i].releases + 1)];
      }
    }

    /** ksu_get_app_profile; the reference taken is the caller's to give back. */
    method GetAppProfile(uid: nat) returns (r: Option<nat>)
      requires Valid()
      modifies this`nodes, this`held
      ensures Valid() && r == Linked(old(nodes), uid)
      ensures r.None? ==> Now() == old(Now())
      ensures r.Some? ==> held == old(held) + multiset{r.value}
      ensures r.Some? ==> nodes == old(nodes[r.value := nodes[r.value].(refs := nodes[r.value].refs + 1)])
    {
      hide CountLinked, CountOk, TodoOk;
      r := Find(uid);
      if r.None? {
        return;
      }
      var i := r.value;
      assert NodeOk(nodes[i], false, held[i]);
      RefsChange(Now(), i, nodes[i].(refs := nodes[i].refs + 1), Idle, held + multiset{i});
      nodes := nodes[i := nodes[i].(refs := nodes[i].refs + 1)];
      held := held + multiset{i};
    }

    method PutAppProfile(i: nat)
      requires Valid() && i in held
      modifies this`nodes, this`held
      ensures Valid() && nodes == PutRef(old(Now()), i).nodes && held == old(held) - multiset{i}
    {
      hide OnePerUid, CountLinked, CountOk, TodoOk;
      assert NodeOk(nodes[i], false, held[i]);
      ghost var s, n := Now(), nodes[i];
      RefsChange(s, i, PutRef(s, i).nodes[i], Idle, held - multiset{i});
      PutPermData(i);
      held := held - multiset{i};
    }

    /** ksu_get_root_profile: None is the default profile, which is not counted. */
    method GetRootProfile(uid: nat, isManager: bool, isAllowedShell: bool) returns (r: Option<nat>)
      requires Valid()
      modifies this`nodes, this`held
      ensures Valid()
      ensures r.None? ==> Now() == old(Now())
      ensures r.Some? <==> !isManager && !isAllowedShell && HasOwnRoot(old(nodes), uid)
      ensures r.Some? ==> r == Linked(old(nodes), uid) && held == old(held) + multiset{r.value}
    {
      if isManager || isAllowedShell {
        return None;
      }
      r := Find(uid);
      if r.Some? && nodes[r.value].profile.allowSu && !nodes[r.value].profile.useDefault {
        r := GetAppProfile(uid);
      } else {
        r := None;
      }
    }

    method PutRootProfile(r: Option<nat>)
      requires Valid() && (r.Some? ==> r.value in held)
      modifies this`nodes, this`held
      ensures Valid()
      ensures r.None? ==> Now() == old(Now())
      ensures r.Some? ==> nodes == PutRef(old(Now()), r.value).nodes && held == old(held) - multiset{r.value}
    {
      if r.Some? {
        PutAppProfile(r.value);
      }
    }

    /** ksu_set_app_profile. `memory` says whether a node can be allocated. */
    method SetAppProfile(p: Profile, memory: bool) returns (ret: int)
      requires Valid()
      modifies this`nodes, this`count, this`umountDefault
      ensures Valid()
      ensures ret == if !Settable(p) then -EINVAL
                     else if Linked(old(nodes), p.uid).None? && old(count) == 0xFFFF then -E2BIG
                     else if !memory then -ENOMEM else 0
      ensures ret != 0 ==> Now() == old(Now())
      ensures ret == 0 ==> Now() == Written(old(Now()), p)
    {
      hide Inv, ProfileValid, OnePerUid, CountLinked, Written, BeginSet, WriterMoves;
      if !ProfileValid(p) {
        return -EINVAL;
      }
      if p.uid == PRESERVE_UID && p.key != "$" {
        return -EINVAL;
      }
      ghost var s := Now();
      Unique(s);
      var found := Find(p.uid);
      if found.None? && count == U16_MAX {
        return -E2BIG;
      }
      if !memory {
        return -ENOMEM;
      }
      WrittenIs(s, p);
      if found.Some? {
        var i := found.value;
        nodes := nodes[i := nodes[i].(linked := false)];
        nodes := nodes + [NewNode(p)];
        PutPermData(i);
      } else {
        nodes := nodes + [NewNode(p)];
        count := count + 1;
      }
      if p.uid == PRESERVE_UID {
        umountDefault := p.umount;
      }
      return 0;
    }

    /** ksu_prune_allowlist: once the system is up, take out every profile whose uid is no longer valid, but for the
        reserved one. */
    method PruneAllowlist(bootCompleted: bool, isUidValid: (nat, string) -> bool)
      requires Valid()
      modifies this`nodes, this`count
      ensures Valid() && |nodes| == |old(nodes)|
      ensures forall i :: 0 <= i < |nodes| ==> nodes[i].profile == old(nodes[i].profile)
      ensures forall i :: 0 <= i < |nodes| ==>
        (nodes[i].linked <==> old(nodes[i].linked) && (bootCompleted ==> Kept(nodes[i].profile, isUidValid)))
      ensures !bootCompleted ==> nodes == old(nodes)
      ensures count == CountLinked(nodes)
    {
      hide Inv, OnePerUid, CountLinked;
      if !bootCompleted {
        CountIsSize(Now());
        return;
      }
      for i := 0 to |nodes|
        invariant Inv(Now()) && |nodes| == |old(nodes)|
        invariant forall j :: 0 <= j < |nodes| ==> nodes[j].profile == old(nodes[j].profile)
        invariant forall j :: 0 <= j < |nodes| ==>
          (nodes[j].linked <==> old(nodes[j].linked) && (i <= j || Kept(nodes[j].profile, isUidValid)))
      {
        if nodes[i].linked && !Kept(nodes[i].profile, isUidValid) {
          PruneOne(Now(), i);
          nodes := nodes[i := nodes[i].(linked := false)];
          PutPermData(i);
          count := count - 1;
        }
      }
      CountIsSize(Now());
    }
  }

  predicate Kept(p: Profile, isUidValid: (nat, string) -> bool) { p.uid == PRESERVE_UID || isUidValid(p.uid, p.key) }

  /** Taking out one node, from the table to the count. */
  lemma PruneOne(s: State, i: nat)
    requires Inv(s) && s.writer.Idle? && i < |s.nodes| && s.nodes[i].linked
    ensures Unlink(s, i).nodes[i].refs > 0 && s.count > 0
    ensures Inv(PutRef(Unlink(s, i), i).(count := s.count - 1))
  {
    hide OnePerUid, CountLinked, NodesOk, LookupsOk, TodoOk;
    var w := PrunePut(i, []);
    var b := Unlink(s, i).(writer := w);
    UnlinkKeeps(s, i, w);
    NothingTodo(b.nodes);
    CanStep(b);
    WriterPutKeeps(b, PruneCount([]));
    SameHolder(PutRef(b, i).nodes, PruneCount([]), Idle, s.held);
    NothingTodo(PutRef(b, i).nodes);
  }

  /** The uid has a root profile of its own. */
  predicate HasOwnRoot(nodes: seq<Node>, uid: nat) {
    ProfileOf(nodes, uid).Some? && ProfileOf(nodes, uid).value.allowSu && !ProfileOf(nodes, uid).value.useDefault
  }

  /** Setting a profile to the end. */
  function Written(s: State, p: Profile): State
    requires Inv(s) && s.writer.Idle?
  {
    BeginReady(s, p);
    WriterMoves(BeginSet(s, p), true)
  }

  lemma BeginReady(s: State, p: Profile)
    requires Inv(s) && s.writer.Idle?
    ensures CanMove(BeginSet(s, p))
  {
    hide Inv, BeginSet;
    CanStep(s);
    StepKeepsInv(s, Set(p));
    CanStep(BeginSet(s, p));
  }

  lemma WrittenIs(s: State, p: Profile)
    requires Inv(s) && s.writer.Idle? && Settable(p) && (Linked(s.nodes, p.uid).Some? || s.count < U16_MAX)
    ensures Inv(Written(s, p))
    ensures Linked(s.nodes, p.uid).None? ==>
      Written(s, p) == Defaulted(s.(nodes := s.nodes + [NewNode(p)], count := s.count + 1), p)
    ensures Linked(s.nodes, p.uid).Some? ==>
      var i := Linked(s.nodes, p.uid).value;
      var t := Unlink(s, i);
      var u := t.(nodes := t.nodes + [NewNode(p)]);
      u.nodes[i].refs > 0 && Written(s, p) == Defaulted(PutRef(u, i), p)
  {
    hide Inv, Settable, Linked;
    StepKeepsInv(s, Set(p));
    StepKeepsInv(BeginSet(s, p), WriterStep(true));
  }

  lemma Unique(s: State)
    requires Inv(s)
    ensures OnePerUid(s.nodes) && s.count <= U16_MAX
  {
  }
}
