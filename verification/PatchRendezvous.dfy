/** Patching kernel text with every processor held in a callback: the last one in writes, the others wait. */
module PatchRendezvous {
  import opened Options

  /** Where a processor is: not yet in the callback, about to write, about to notify, spinning, or out again. */
  datatype Phase = Before | Writing | Notifying | Spinning | Left

  /** `count` is the shared counter; `writes` how often the text was written; `master` the processor that came last. */
  datatype State = State(phases: seq<Phase>, count: nat, writes: nat, master: Option<nat>)

  function Start(n: nat): State { State(seq(n, (i: nat) => Before), 0, 0, None) }

  /** One atomic action of one processor; a spinning processor looks at the counter. */
  function Next(s: State, cpu: nat): State
    requires cpu < |s.phases|
  {
    var n := |s.phases|;
    match s.phases[cpu]
    case Before =>
      if s.count + 1 == n then s.(count := s.count + 1, phases := s.phases[cpu := Writing], master := Some(cpu))
      else s.(count := s.count + 1, phases := s.phases[cpu := Spinning])
    case Writing => s.(writes := s.writes + 1, phases := s.phases[cpu := Notifying])
    case Notifying => s.(count := s.count + 1, phases := s.phases[cpu := Left])
    case Spinning => if s.count <= n then s else s.(phases := s.phases[cpu := Left])
    case Left => s
  }

  /** The shared structure, and the callback cut at its atomic actions. */
  class PatchText {
    var phases: seq<Phase>
    var count: nat
    var writes: nat
    ghost var master: Option<nat>

    ghost function View(): State reads this { State(phases, count, writes, master) }

    constructor (n: nat)
      ensures View() == Start(n)
    {
      phases, count, writes, master := seq(n, (i: nat) => Before), 0, 0, None;
    }

    method Step(cpu: nat)
      requires cpu < |phases|
      modifies this
      ensures View() == Next(old(View()), cpu)
    {
      var online := |phases|;
      match phases[cpu] {
        case Before =>
          count := count + 1;
          if count == online {
            phases := phases[cpu := Writing];
            master := Some(cpu);
          } else {
            phases := phases[cpu := Spinning];
          }
        case Writing =>
          writes := writes + 1;
          phases := phases[cpu := Notifying];
        case Notifying =>
          count := count + 1;
          phases := phases[cpu := Left];
        case Spinning =>
          if count > online {
            phases := phases[cpu := Left];
          }
        case Left =>
      }
    }
  }

  // ---------- the invariant ----------

  function Entered(phases: seq<Phase>): nat {
    if phases == [] then 0 else Entered(phases[..|phases| - 1]) + if phases[|phases| - 1] == Before then 0 else 1
  }

  lemma {:induction false} EnteredUpdate(phases: seq<Phase>, i: nat, p: Phase)
    requires i < |phases|
    ensures Entered(phases[i := p]) + (if phases[i] == Before then 0 else 1) == Entered(phases) + if p == Before then 0 else 1
    decreases |phases|
  {
    var k := |phases| - 1;
    if i < k {
      EnteredUpdate(phases[..k], i, p);
      assert phases[i := p][..k] == phases[..k][i := p];
    } else {
      assert phases[i := p][..k] == phases[..k];
    }
  }

  /** All have entered exactly if none is before the callback. */
  lemma {:induction false} AllEntered(phases: seq<Phase>)
    ensures Entered(phases) <= |phases|
    ensures Entered(phases) == |phases| <==> Before !in phases
    decreases |phases|
  {
    if phases != [] { AllEntered(phases[..|phases| - 1]); }
  }

  ghost predicate Inv(s: State) {
    var n := |s.phases|;
    match s.master
    case None =>
      && s.count == Entered(s.phases) && s.writes == 0
      && (forall j :: 0 <= j < n ==> s.phases[j] == Before || s.phases[j] == Spinning)
      && (n > 0 ==> s.count < n)
    case Some(m) =>
      && m < n && (s.phases[m] == Writing || s.phases[m] == Notifying || s.phases[m] == Left)
      && (forall j :: 0 <= j < n && j != m ==> s.phases[j] == Spinning || (s.phases[j] == Left && s.count == n + 1))
      && s.count == (if s.phases[m] == Left then n + 1 else n)
      && s.writes == (if s.phases[m] == Writing then 0 else 1)
  }

  lemma {:induction false} StartsWell(n: nat)
    ensures Inv(Start(n))
    decreases n
  {
    if n > 0 {
      StartsWell(n - 1);
      assert Start(n).phases[..n - 1] == Start(n - 1).phases;
    }
  }

  lemma StepKeepsInv(s: State, cpu: nat)
    requires Inv(s) && cpu < |s.phases|
    ensures Inv(Next(s, cpu)) && |Next(s, cpu).phases| == |s.phases|
  {
    hide Entered;
    if s.phases[cpu] == Before {
      var next := s.phases[cpu := Spinning];
      EnteredUpdate(s.phases, cpu, Spinning);
      AllEntered(next);
      assert forall j | 0 <= j < |next| :: next[j] in next;
      assert Next(s, cpu).phases == if s.count + 1 == |s.phases| then next[cpu := Writing] else next;
    }
  }

  predicate Online(cpus: seq<nat>, n: nat) { forall k :: 0 <= k < |cpus| ==> cpus[k] < n }

  function Run(s: State, cpus: seq<nat>): (t: State)
    requires Online(cpus, |s.phases|)
    ensures |t.phases| == |s.phases|
  {
    if cpus == [] then s else Next(Run(s, cpus[..|cpus| - 1]), cpus[|cpus| - 1])
  }

  lemma {:induction false} RunKeepsInv(n: nat, cpus: seq<nat>)
    requires Online(cpus, n)
    ensures Inv(Run(Start(n), cpus))
    decreases |cpus|
  {
    hide Inv;
    if cpus == [] {
      StartsWell(n);
    } else {
      RunKeepsInv(n, cpus[..|cpus| - 1]);
      StepKeepsInv(Run(Start(n), cpus[..|cpus| - 1]), cpus[|cpus| - 1]);
    }
  }

  // ---------- what every interleaving satisfies ----------

  /** At most one write; none leaves before it, and the counter stays within one of the number of processors. */
  lemma RunIsSafe(n: nat, cpus: seq<nat>)
    requires Online(cpus, n)
    ensures var s := Run(Start(n), cpus);
      s.writes <= 1 && s.count <= n + 1 && (Left in s.phases ==> s.writes == 1)
  {
    hide Entered;
    RunKeepsInv(n, cpus);
    AllEntered(Run(Start(n), cpus).phases);
  }

  /** While one processor writes, all others are held in the callback. */
  lemma WriterIsAlone(n: nat, cpus: seq<nat>, m: nat)
    requires Online(cpus, n) && m < n && Run(Start(n), cpus).phases[m] == Writing
    ensures forall j :: 0 <= j < n && j != m ==> Run(Start(n), cpus).phases[j] == Spinning
  {
    RunKeepsInv(n, cpus);
  }

  /** What is left to do: every action that changes anything makes it less. */
  function Work(phases: seq<Phase>): nat {
    if phases == [] then 0
    else Work(phases[..|phases| - 1]) + Rank(phases[|phases| - 1])
  }

  function Rank(p: Phase): nat {
    match p
    case Before => 4
    case Writing => 3
    case Notifying => 2
    case Spinning => 1
    case Left => 0
  }

  lemma {:induction false} WorkUpdate(phases: seq<Phase>, i: nat, p: Phase)
    requires i < |phases|
    ensures Work(phases[i := p]) + Rank(phases[i]) == Work(phases) + Rank(p)
    decreases |phases|
  {
    var k := |phases| - 1;
    if i < k {
      WorkUpdate(phases[..k], i, p);
      assert phases[i := p][..k] == phases[..k][i := p];
    } else {
      assert phases[i := p][..k] == phases[..k];
    }
  }

  /** Until all have left some processor can move, and every move brings the end nearer: there is no deadlock and
      no run of moves longer than four for each processor. */
  lemma SomeoneMoves(s: State) returns (cpu: nat)
    requires Inv(s) && exists p :: p in s.phases && p != Left
    ensures cpu < |s.phases| && Next(s, cpu) != s
  {
    hide Entered;
    var i :| 0 <= i < |s.phases| && s.phases[i] != Left;
    match s.master
    case Some(m) => cpu := if s.phases[m] == Left then i else m;
    case None =>
      AllEntered(s.phases);
      var j :| 0 <= j < |s.phases| && s.phases[j] == Before;
      cpu := j;
  }

  lemma MovesEnd(s: State, cpu: nat)
    requires cpu < |s.phases| && Next(s, cpu) != s
    ensures Work(Next(s, cpu).phases) < Work(s.phases)
  {
    hide Work;
    WorkUpdate(s.phases, cpu, Next(s, cpu).phases[cpu]);
  }

  /** When all have left, exactly one write has been made. */
  lemma EndsWritten(n: nat, cpus: seq<nat>)
    requires n > 0 && Online(cpus, n)
    requires forall p :: p in Run(Start(n), cpus).phases ==> p == Left
    ensures Run(Start(n), cpus).writes == 1 && Run(Start(n), cpus).count == n + 1
  {
    hide Entered;
    RunKeepsInv(n, cpus);
    assert Run(Start(n), cpus).phases[0] in Run(Start(n), cpus).phases;
  }
}
