/** How a concrete procedure is shown to be accepted by the lint, and how a run of it is shown to fault. */
module LintExamples {
  import opened Octets
  import opened Asm65816
  import opened AssemblerLabels
  import opened WidthLint
  import opened Cpu65816
  import opened LintStack
  import opened LintMacros
  import opened LintFaults
  import opened LintSoundness
  import opened LintExactness

  const NARROW := Widths(Eight, Eight)

  function Program(ops: seq<Op>): Procedure {
    Procedure(seq(|ops|, k requires 0 <= k < |ops| => Statement(ops[k], NARROW)),
              Some(NARROW), map[], map[])
  }

  /** Statement `k` is free of problems in its state, and control flow keeps to the table. */
  ghost predicate Settles(p: Procedure, table: seq<Node>, k: nat)
    requires k < |table|
  {
    && table[k].index == k && Problems(p, table[k]) == {}
    && forall m | Flows(p, table[k], m) :: m.index < |table| && m == table[m.index]
  }

  /** One problem-free state per statement, closed under control flow, shows a procedure clean. */
  lemma CleanByTable(p: Procedure, entry: Widths, table: seq<Node>)
    requires table != [] && table[0] == InitialNode(entry)
    requires forall k | 0 <= k < |table| :: Settles(p, table, k)
    ensures Clean(p, entry)
    ensures forall n | Reachable(p, entry, n) :: n.index < |table| && n == table[n.index]
    ensures (forall k | 0 <= k < |table| :: !BlindSpot(p, table[k])) ==> InSight(p, entry)
  {
    forall n | Reachable(p, entry, n)
      ensures n.index < |table| && n == table[n.index] && Problems(p, n) == {}
    {
      var path: seq<Node> :| IsPath(p, entry, path) && path[|path| - 1] == n;
      var j := 0;
      while j < |path| - 1
        invariant 0 <= j < |path| && path[j].index < |table| && path[j] == table[path[j].index]
      {
        assert Settles(p, table, path[j].index) && Flows(p, path[j], path[j + 1]);
        j := j + 1;
      }
      assert Settles(p, table, n.index);
    }
  }

  lemma {:induction false} NothingToNormalize(p: Procedure, k: nat, w: Widths)
    requires forall j | 0 <= j < |p.statements| :: !p.statements[j].op.WidthMacro?
    ensures Normalize(p, k, w) == w
    decreases |p.statements| - k
  {
    if k < |p.statements| && p.statements[k].op.Label? {
      NothingToNormalize(p, k + 1, w);
    }
  }

  lemma OneTarget(p: Procedure, n: Node, t: Node)
    requires RawTargets(p, n) == [t] && t.index < |p.statements| && Normalize(p, t.index, t.state.w) == t.state.w
    ensures Flows(p, n, t) && forall m | Flows(p, n, m) :: m == t
  {
    assert RawTargets(p, n)[0] == t;
    assert t == Normalized(p, t);
  }

  /** What is reachable is closed under control flow, whatever its indices. */
  lemma NodesHold(p: Procedure, entry: Widths, nodes: set<Node>)
    requires InitialNode(entry) in nodes
    requires forall n, m | n in nodes && Flows(p, n, m) :: m in nodes
    ensures forall n | Reachable(p, entry, n) :: n in nodes
  {
    forall n | Reachable(p, entry, n)
      ensures n in nodes
    {
      ClosedSetHoldsReachable(p, entry, nodes, n);
    }
  }

  lemma CleanByNodes(p: Procedure, entry: Widths, nodes: set<Node>)
    requires InitialNode(entry) in nodes
    requires forall n | n in nodes :: Problems(p, n) == {} && !Hazard(p, n) && forall m | Flows(p, n, m) :: m in nodes
    requires forall m, n | m in nodes && n in nodes :: !Conflict(m, n)
    ensures Clean(p, entry) && HazardFree(p, entry)
  {
    NodesHold(p, entry, nodes);
  }

  lemma SameStatesDoNotConflict(nodes: set<Node>, s: State)
    requires forall n | n in nodes :: n.state == s
    ensures forall m, n | m in nodes && n in nodes :: !Conflict(m, n)
  {
  }

  /** The same without a say on hazards, for nodes the lint sees. */
  lemma SeenByNodes(p: Procedure, entry: Widths, nodes: set<Node>)
    requires InitialNode(entry) in nodes
    requires forall n | n in nodes :: Problems(p, n) == {} && !BlindSpot(p, n)
    requires forall n, m | n in nodes && Flows(p, n, m) :: m in nodes
    requires forall m, n | m in nodes && n in nodes :: !Conflict(m, n)
    ensures Clean(p, entry) && InSight(p, entry)
  {
    NodesHold(p, entry, nodes);
  }

  /** A statement that does nothing but transfer. */
  lemma PlainTarget(p: Procedure, n: Node, s: State)
    requires n.index < |p.statements| && !p.statements[n.index].op.Return? && !p.statements[n.index].op.Call?
    requires Transfer(p.statements[n.index].op, n.state).0 == Some(s) && Successors(p, n.index) == [n.index + 1]
    ensures RawTargets(p, n) == [Node(n.index + 1, s)]
  {
  }

  /** Without labels in macros and ordinary labels the lint resolves as the assembler does. */
  lemma InOneStretch(p: Procedure, k: nat, target: Target)
    requires k < |p.statements|
    requires forall j | 0 <= j < |p.statements| ::
               HiddenLabels(p.statements[j].op) == 0 && !IsOrdinaryLabel(p.statements[j].op)
    ensures !Misresolved(p, k, target)
  {
    OneStretch(p, k);
    OneStretch(p, k + 1);
    ResolutionsAgree(p, k, target);
  }

  lemma HazardRefutes(p: Procedure, entry: Widths, n: Node)
    requires Clean(p, entry) && InSight(p, entry) && Reachable(p, entry, n) && Hazard(p, n)
    ensures !AllRunsSafe(p, entry)
  {
    CleanIsExact(p, entry);
  }

  lemma RunFault(p: Procedure, run: seq<Cpu>)
    requires run != [] && run[0] == Boot(NARROW) && !Safe(p, run[|run| - 1])
    requires forall j | 0 <= j < |run| - 1 :: Step(p, run[j], run[j + 1])
    ensures !AllRunsSafe(p, NARROW)
  {
    assert IsRun(p, NARROW, run);
  }

  lemma OneStepFault(p: Procedure, c: Cpu)
    requires Step(p, Boot(NARROW), c) && !Safe(p, c)
    ensures !AllRunsSafe(p, NARROW)
  {
    assert IsRun(p, NARROW, [Boot(NARROW), c]);
  }

  lemma ThreeStepFault(p: Procedure, c: Cpu, d: Cpu, e: Cpu)
    requires Step(p, Boot(NARROW), c) && Step(p, c, d) && Step(p, d, e) && !Safe(p, e)
    ensures !AllRunsSafe(p, NARROW)
  {
    RunFault(p, [Boot(NARROW), c, d, e]);
  }

  lemma LabelStep(p: Procedure, c: Cpu)
    requires c.pc + 1 < |p.statements| && p.statements[c.pc].op.Label? && c.inside == 0
    ensures Step(p, c, c.(pc := c.pc + 1))
  {
  }

  lemma PullFromNothing(p: Procedure, c: Cpu)
    requires c.pc < |p.statements| && p.statements[c.pc].op == Pull(RegA) && c.stack == []
    ensures !Safe(p, c)
  {
  }

  /** A return of a procedure without local calls finds a byte that is no address. */
  lemma ReturnToData(p: Procedure, c: Cpu)
    requires c.pc < |p.statements| && p.statements[c.pc].op.Return?
    requires c.stack != [] && c.stack[|c.stack| - 1].Data?
    ensures !Safe(p, c)
  {
  }

  lemma EndsThere(p: Procedure, n: Node)
    requires n.index < |p.statements| && p.statements[n.index].op.Macro? && p.statements[n.index].op.terminal
    ensures Problems(p, n) == {} && forall m :: !Flows(p, n, m)
  {
    assert RawTargets(p, n) == [];
  }

  lemma LeavesThere(p: Procedure, n: Node)
    requires n.index < |p.statements| && p.statements[n.index].op.Return? && n.state.calls == []
    ensures forall m :: !Flows(p, n, m)
  {
    assert RawTargets(p, n) == [];
  }
}
