/** Concrete procedures the lint accepts although a run of them misbehaves, one for every kind of blind
    spot; none of them has a hazard where the lint looks. */
module LintBlindSpots {
  import opened Octets
  import opened Asm65816
  import opened AssemblerLabels
  import opened WidthLint
  import opened Cpu65816
  import opened LintStack
  import opened LintMacros
  import opened LintFaults
  import opened LintSoundness
  import opened LintExactness
  import opened LintExamples
  import opened AssemblerWidths

  // ----- A macro that returns inside a local subroutine -----

  const RETURN := Path([], Back(false))

  /** `jsr @f; pla; rts; @f: return macro` comes back to code the lint has not looked at. */
  const RETURNING := Program([
    Call(false, Named("@f")), Pull(RegA), Return(false), Label("@f"), Macro(true, [RETURN], [])])

  function ReturningNode(k: nat): Node {
    if k == 0 then Node(0, State(NARROW, [], [])) else Node(k, State(NARROW, [], [Frame(1, [])]))
  }

  lemma ReturningCall()
    ensures Resolve(RETURNING, 0, Named("@f")) == Some(3)
    ensures Assembled(RETURNING, 0, Named("@f")) == Some(Place(3, 0))
  {
    assert LastLabel(RETURNING, "@f", 4) == Some(3) && LastLabel(RETURNING, "@f", 5) == Some(3);
    InOneStretch(RETURNING, 0, Named("@f"));
  }

  lemma ReturningMacroFits()
    ensures !Hazard(RETURNING, ReturningNode(4))
  {
    var n := ReturningNode(4);
    assert PathAccepts(RETURNING, 4, n.state, NARROW, RETURN);
    assert MacroAccepts(RETURNING, 4, n.state);
  }

  lemma ReturningFlow(n: Node)
    requires n == ReturningNode(0) || n == ReturningNode(3) || n == ReturningNode(4)
    ensures Problems(RETURNING, n) == {} && !Hazard(RETURNING, n)
    ensures forall m | Flows(RETURNING, n, m) :: m == ReturningNode(if n.index == 0 then 3 else 4) && n.index != 4
  {
    if n.index == 0 {
      ReturningCall();
      CallTarget(RETURNING, n);
      assert [] + [Frame(1, [])] == [Frame(1, [])];
      NothingToNormalize(RETURNING, 3, NARROW);
      OneTarget(RETURNING, n, ReturningNode(3));
    } else if n.index == 3 {
      assert RawTargets(RETURNING, n) == [ReturningNode(4)];
      NothingToNormalize(RETURNING, 4, NARROW);
      OneTarget(RETURNING, n, ReturningNode(4));
    } else {
      EndsThere(RETURNING, n);
      ReturningMacroFits();
    }
  }

  lemma ReturningIsClean()
    ensures Clean(RETURNING, NARROW) && HazardFree(RETURNING, NARROW)
  {
    var nodes := {ReturningNode(0), ReturningNode(3), ReturningNode(4)};
    forall n | n in nodes
      ensures Problems(RETURNING, n) == {} && !Hazard(RETURNING, n) && forall m | Flows(RETURNING, n, m) :: m in nodes
    {
      ReturningFlow(n);
    }
    CleanByNodes(RETURNING, NARROW, nodes);
  }

  lemma CallStep(p: Procedure, c: Cpu, address: seq<Cell>, target: nat)
    requires c.pc < |p.statements| && Safe(p, c) && p.statements[c.pc].op.Call? && c.inside == 0
    requires Assembled(p, c.pc, p.statements[c.pc].op.callee) == Some(Place(target, 0))
    requires IsReturnAddress(address, c.pc + 1, p.statements[c.pc].op.far)
    ensures Step(p, c, c.(pc := target, stack := c.stack + address))
  {
  }

  lemma ReturnPathStep(p: Procedure, c: Cpu, index: nat)
    requires c.pc < |p.statements| && p.statements[c.pc].op == Macro(true, [RETURN], []) && c.inside == 0
    requires c.stack == ReturnAddress(index, false)
    ensures Step(p, c, Cpu(index, c.w, [], 0))
  {
    var (st, c') := (p.statements[c.pc], Cpu(index, c.w, [], 0));
    assert c.stack[|c.stack| - 1] == ReturnByte(index, false, 0);
    assert TopCells(c.stack, 2) == c.stack && c.stack[..0] == [];
    assert PathsFrom(st.op, c.inside) == [RETURN];
    assert RunParts(p, c, st.encoded, [], []) == Some(c);
    assert PathTaken(p, c, st.encoded, PathsFrom(st.op, c.inside)[0], [], c');
    assert MacroStep(p, c, c');
  }

  lemma ReturningSteps(address: seq<Cell>)
    requires address == ReturnAddress(1, false)
    ensures Step(RETURNING, Boot(NARROW), Cpu(3, NARROW, address, 0))
    ensures Step(RETURNING, Cpu(3, NARROW, address, 0), Cpu(4, NARROW, address, 0))
  {
    ReturningCall();
    CallStep(RETURNING, Boot(NARROW), address, 3);
    assert [] + address == address;
    LabelStep(RETURNING, Cpu(3, NARROW, address, 0));
  }

  lemma ReturningRun()
    ensures !AllRunsSafe(RETURNING, NARROW)
  {
    var address := ReturnAddress(1, false);
    ReturningSteps(address);
    ReturnPathStep(RETURNING, Cpu(4, NARROW, address, 0), 1);
    PullFromNothing(RETURNING, Cpu(1, NARROW, [], 0));
    ThreeStepFault(RETURNING, Cpu(3, NARROW, address, 0), Cpu(4, NARROW, address, 0), Cpu(1, NARROW, [], 0));
  }

  lemma LocalReturnMacroIsUnseen()
    ensures Clean(RETURNING, NARROW) && HazardFree(RETURNING, NARROW) && !AllRunsSafe(RETURNING, NARROW)
  {
    ReturningIsClean();
    ReturningRun();
  }

  // ----- One statement taken to have no effect -----

  /** `op; rts` behind an operation the lint takes to have no effect. */
  function Unseen(op: Op): Procedure { Program([op, Return(false)]) }

  /** A macro that leaves the accumulator on the stack, and pushes and pulls B on the way. */
  const SUSPEND := Path([Pushed(RegA), Pushed(RegB), Taken(RegB)], Onward)

  /** A macro that leaves a 16-bit accumulator behind. */
  const WIDEN := Path([Switch(Some(Sixteen), None)], Onward)

  const SUSPENDING := Macro(false, [SUSPEND], [])

  const WIDENING := Macro(false, [WIDEN], [])

  predicate IsUnseen(op: Op) {
    || op == PushProgramBank || op == Increment32("counter", 0) || op == StatusImmediate(false, None)
    || op == SUSPENDING || op == WIDENING
  }

  function UnseenTable(): seq<Node> { [Node(0, State(NARROW, [], [])), Node(1, State(NARROW, [], []))] }

  lemma SuspendAccepts(p: Procedure, s: State, e: Widths)
    requires s == State(NARROW, [], []) && p.statements != []
    ensures PathAccepts(p, 0, s, e, SUSPEND) && PathAccepts(p, 0, s, e, WIDEN)
  {
    var item := Register8Or16(RegA, Eight);
    var (one, two) := (s.(stack := [item]), s.(stack := [item, Bank]));
    assert [] + [item] == [item] && [item] + [Bank] == [item, Bank] && AfterPull(RegB, two.stack) == [item];
    assert SUSPEND.parts[1..][1..] == [Taken(RegB)] && [Taken(RegB)][1..] == [];
    assert FollowParts(p, two, e, [Taken(RegB)]) == FollowParts(p, one, e, []) == Some(one);
    assert FollowParts(p, one, e, SUSPEND.parts[1..]) == Some(one);
    assert WIDEN.parts[1..] == [];
  }

  lemma UnseenTargets(op: Op)
    requires IsUnseen(op)
    ensures RawTargets(Unseen(op), UnseenTable()[0]) == [UnseenTable()[1]]
    ensures RawTargets(Unseen(op), UnseenTable()[1]) == []
  {
  }

  lemma UnseenIsNoHazard(op: Op, k: nat)
    requires IsUnseen(op) && k < 2
    ensures !Hazard(Unseen(op), UnseenTable()[k])
  {
    if k == 0 && op.Macro? { SuspendAccepts(Unseen(op), UnseenTable()[0].state, NARROW); }
  }

  lemma UnseenSettles(op: Op, k: nat)
    requires IsUnseen(op)
    requires k < 2
    ensures Settles(Unseen(op), UnseenTable(), k) && !Hazard(Unseen(op), UnseenTable()[k])
  {
    UnseenTargets(op);
    UnseenIsNoHazard(op, k);
    if k == 0 {
      NothingToNormalize(Unseen(op), 1, NARROW);
      OneTarget(Unseen(op), UnseenTable()[0], UnseenTable()[1]);
    }
  }

  lemma UnseenIsClean(op: Op)
    requires IsUnseen(op)
    ensures Clean(Unseen(op), NARROW) && HazardFree(Unseen(op), NARROW)
  {
    var (p, table) := (Unseen(op), UnseenTable());
    forall k | 0 <= k < |table|
      ensures Settles(p, table, k) && !Hazard(p, table[k])
    {
      UnseenSettles(op, k);
    }
    CleanByTable(p, NARROW, table);
  }

  /** `phk; rts` returns to a data byte: the push is invisible to the lint. */
  lemma ProgramBankPushIsUnseen()
    ensures Clean(Unseen(PushProgramBank), NARROW) && HazardFree(Unseen(PushProgramBank), NARROW)
    ensures !AllRunsSafe(Unseen(PushProgramBank), NARROW)
  {
    UnseenIsClean(PushProgramBank);
    OneStepFault(Unseen(PushProgramBank), Cpu(1, NARROW, [] + [Data(RegB, 1, 0, 0)], 0));
  }

  /** `inc32 counter; rts` from an 8-bit accumulator returns with a 16-bit one. */
  lemma Increment32IsUnseen()
    ensures var p := Unseen(Increment32("counter", 0));
            Clean(p, NARROW) && HazardFree(p, NARROW) && !AllRunsSafe(p, NARROW)
  {
    UnseenIsClean(Increment32("counter", 0));
    OneStepFault(Unseen(Increment32("counter", 0)), Cpu(1, Widths(Sixteen, Eight), [], 0));
  }

  /** A REP of a symbol clears widths the lint does not know to be cleared. */
  lemma SymbolicRepIsUnseen()
    ensures var p := Unseen(StatusImmediate(false, None));
            Clean(p, NARROW) && HazardFree(p, NARROW) && !AllRunsSafe(p, NARROW)
  {
    UnseenIsClean(StatusImmediate(false, None));
    assert ApplyToStatus(false, 0x30, NARROW) == Widths(Sixteen, Sixteen);
    OneStepFault(Unseen(StatusImmediate(false, None)), Cpu(1, Widths(Sixteen, Sixteen), [], 0));
  }

  /** One way through a macro, onward. */
  lemma OnwardStep(p: Procedure, c: Cpu, path: Path, d: Cpu)
    requires c.pc < |p.statements| && p.statements[c.pc].op == Macro(false, [path], []) && path.end == Onward
    requires Safe(p, c) && c.inside == 0
    requires RunParts(p, c, p.statements[c.pc].encoded, path.parts, []) == Some(d)
    ensures Step(p, c, d.(pc := c.pc + 1, inside := 0))
  {
    var (st, c') := (p.statements[c.pc], d.(pc := c.pc + 1, inside := 0));
    assert PathsFrom(st.op, c.inside) == [path];
    assert PathTaken(p, c, st.encoded, PathsFrom(st.op, c.inside)[0], [], c');
    assert MacroStep(p, c, c');
  }

  /** Simulated by the first node, the machine is safe there. */
  lemma UnseenStartsSafely(op: Op)
    requires op == SUSPENDING || op == WIDENING
    ensures Safe(Unseen(op), Boot(NARROW))
  {
    var (p, n) := (Unseen(op), UnseenTable()[0]);
    SuspendAccepts(p, n.state, NARROW);
    assert MacroAccepts(p, 0, n.state);
    MacroIsExact(p, n.state, Boot(NARROW));
  }

  lemma SuspendRuns(p: Procedure, e: Widths)
    ensures RunParts(p, Boot(NARROW), e, SUSPEND.parts, []) == Some(Cpu(0, NARROW, [Data(RegA, 1, 0, 0)], 0))
  {
    var (a, b) := (Data(RegA, 1, 0, 0), Data(RegB, 1, 0, 0));
    var (one, two) := (Cpu(0, NARROW, [a], 0), Cpu(0, NARROW, [a, b], 0));
    assert [] + [a] == [a] && [a] + [b] == [a, b] && [a, b][..1] == [a];
    assert SUSPEND.parts[1..][1..] == [Taken(RegB)] && [Taken(RegB)][1..] == [];
    assert TopCells(two.stack, 1) == [b];
    assert RunParts(p, two, e, [Taken(RegB)], []) == RunParts(p, one, e, [], []) == Some(one);
    assert RunParts(p, one, e, SUSPEND.parts[1..], []) == Some(one);
  }

  /** A macro that leaves a byte on the stack is not seen either: the return meets it. */
  lemma SuspendingMacroIsUnseen()
    ensures var p := Unseen(SUSPENDING); Clean(p, NARROW) && HazardFree(p, NARROW) && !AllRunsSafe(p, NARROW)
  {
    var p := Unseen(SUSPENDING);
    UnseenIsClean(SUSPENDING);
    UnseenStartsSafely(SUSPENDING);
    SuspendRuns(p, p.statements[0].encoded);
    OnwardStep(p, Boot(NARROW), SUSPEND, Cpu(0, NARROW, [Data(RegA, 1, 0, 0)], 0));
    ReturnToData(p, Cpu(1, NARROW, [Data(RegA, 1, 0, 0)], 0));
    OneStepFault(p, Cpu(1, NARROW, [Data(RegA, 1, 0, 0)], 0));
  }

  lemma WidenRuns(p: Procedure, e: Widths)
    ensures RunParts(p, Boot(NARROW), e, WIDEN.parts, []) == Some(Cpu(0, Widths(Sixteen, Eight), [], 0))
  {
    assert WIDEN.parts[1..] == [];
  }

  /** Nor is a macro that changes a width. */
  lemma WideningMacroIsUnseen()
    ensures var p := Unseen(WIDENING); Clean(p, NARROW) && HazardFree(p, NARROW) && !AllRunsSafe(p, NARROW)
  {
    var p := Unseen(WIDENING);
    UnseenIsClean(WIDENING);
    UnseenStartsSafely(WIDENING);
    WidenRuns(p, p.statements[0].encoded);
    OnwardStep(p, Boot(NARROW), WIDEN, Cpu(0, Widths(Sixteen, Eight), [], 0));
    OneStepFault(p, Cpu(1, Widths(Sixteen, Eight), [], 0));
  }

  // ----- A macro that jumps -----

  const SKIPPING := Macro(false, [Path([], Onward), Path([], Away(Named("@f")))], [])

  /** `macro that may jump to @f; rts; @f: pla`: nothing behind the label is looked at. */
  const JUMPING := Program([SKIPPING, Return(false), Label("@f"), Pull(RegA)])

  lemma JumpsTo()
    ensures Assembled(JUMPING, 0, Named("@f")) == Some(Place(2, 0))
  {
    assert LastLabel(JUMPING, "@f", 3) == Some(2) && LastLabel(JUMPING, "@f", 4) == Some(2);
    OneStretch(JUMPING, 0);
    OneStretch(JUMPING, 1);
  }

  lemma SkippingAccepts(p: Procedure, k: nat, s: State)
    requires k < |p.statements| && p.statements[k].op == SKIPPING && Assembled(p, k, Named("@f")).Some?
    ensures MacroAccepts(p, k, s)
  {
    assert FollowParts(p, s, p.statements[k].encoded, []) == Some(s);
  }

  lemma JumpingFlow(k: nat)
    requires k < 2
    ensures forall m | Flows(JUMPING, Node(k, State(NARROW, [], [])), m) ::
              k == 0 && m == Node(1, State(NARROW, [], []))
  {
    var n := Node(k, State(NARROW, [], []));
    if k == 0 {
      assert RawTargets(JUMPING, n) == [Node(1, n.state)];
      NothingToNormalize(JUMPING, 1, NARROW);
      OneTarget(JUMPING, n, Node(1, n.state));
    } else {
      LeavesThere(JUMPING, n);
    }
  }

  lemma JumpingIsRight(k: nat)
    requires k < 2
    ensures var n := Node(k, State(NARROW, [], [])); Problems(JUMPING, n) == {} && !Hazard(JUMPING, n)
  {
    JumpsTo();
    if k == 0 { SkippingAccepts(JUMPING, 0, State(NARROW, [], [])); }
  }

  lemma JumpingIsClean()
    ensures Clean(JUMPING, NARROW) && HazardFree(JUMPING, NARROW)
  {
    JumpingIsRight(0);
    JumpingIsRight(1);
    JumpingFlow(0);
    JumpingFlow(1);
    CleanByNodes(JUMPING, NARROW, {Node(0, State(NARROW, [], [])), Node(1, State(NARROW, [], []))});
  }

  lemma SecondPathStep(p: Procedure, c: Cpu, s: State, index: nat)
    requires c.pc + 1 < |p.statements| && p.statements[c.pc].op == SKIPPING && c.inside == 0 && Alike(p, s, c)
    requires Assembled(p, c.pc, Named("@f")) == Some(Place(index, 0))
    ensures Step(p, c, c.(pc := index))
  {
    var (st, c') := (p.statements[c.pc], c.(pc := index));
    SkippingAccepts(p, c.pc, s);
    MacroIsExact(p, s, c);
    assert RunParts(p, c, st.encoded, [], []) == Some(c);
    assert PathTaken(p, c, st.encoded, PathsFrom(st.op, c.inside)[1], [], c');
    assert MacroStep(p, c, c');
  }

  lemma JumpStep()
    ensures Step(JUMPING, Boot(NARROW), Cpu(2, NARROW, [], 0))
  {
    JumpsTo();
    SecondPathStep(JUMPING, Boot(NARROW), State(NARROW, [], []), 2);
  }

  lemma JumpingMacroIsUnseen()
    ensures Clean(JUMPING, NARROW) && HazardFree(JUMPING, NARROW) && !AllRunsSafe(JUMPING, NARROW)
  {
    JumpingIsClean();
    JumpStep();
    LabelStep(JUMPING, Cpu(2, NARROW, [], 0));
    PullFromNothing(JUMPING, Cpu(3, NARROW, [], 0));
    RunFault(JUMPING, [Boot(NARROW), Cpu(2, NARROW, [], 0), Cpu(3, NARROW, [], 0)]);
  }

  // ----- Labels the assembler resolves otherwise -----

  /** A macro with two immediates and a loop, which has an anonymous label. */
  const CLEARING := Macro(false, [Path([Immediate(true), Immediate(false)], Onward)], [[Path([], Onward)]])

  /** `bcs :+; pha; macro with a label; pla; rts; : rts` branches into the macro. */
  const LABELLED := Program([
    Branch(Forward(1)), Push(RegA), CLEARING, Pull(RegA), Return(false), Label(""), Return(false)])

  function LabelledNode(k: nat): Node {
    Node(k, State(NARROW, if k == 2 || k == 3 then [Register8Or16(RegA, Eight)] else [], []))
  }

  lemma LabelledResolves()
    ensures Resolve(LABELLED, 0, Forward(1)) == Some(5)
  {
    assert AnonymousFrom(LABELLED, 5, 0) == Some(5) && AnonymousFrom(LABELLED, 4, 0) == Some(5);
    assert AnonymousFrom(LABELLED, 3, 0) == Some(5) && AnonymousFrom(LABELLED, 2, 0) == Some(5);
    assert AnonymousFrom(LABELLED, 1, 0) == Some(5);
  }

  lemma LabelledBranch()
    ensures RawTargets(LABELLED, LabelledNode(0)) == [LabelledNode(1), LabelledNode(5)]
  {
    LabelledResolves();
    assert Successors(LABELLED, 0) == [1, 5];
  }

  lemma LabelledTargets(k: nat)
    requires 0 < k < 7
    ensures RawTargets(LABELLED, LabelledNode(k)) == if k == 4 || k == 6 then [] else [LabelledNode(k + 1)]
  {
    assert [] + [Register8Or16(RegA, Eight)] == [Register8Or16(RegA, Eight)];
  }

  lemma ClearingAccepts(p: Procedure, k: nat, s: State)
    requires k < |p.statements| && p.statements[k] == Statement(CLEARING, NARROW) && s.w == NARROW
    ensures MacroAccepts(p, k, s)
  {
    var st := p.statements[k];
    var parts := CLEARING.paths[0].parts;
    assert parts[1..][0] == Immediate(false) && parts[1..][1..] == [];
    assert FollowParts(p, s, st.encoded, parts) == FollowParts(p, s, st.encoded, parts[1..]) == Some(s);
  }

  lemma LabelledStart()
    ensures Problems(LABELLED, LabelledNode(0)) == {} && !Hazard(LABELLED, LabelledNode(0))
    ensures forall m | Flows(LABELLED, LabelledNode(0), m) :: m == LabelledNode(1) || m == LabelledNode(5)
  {
    LabelledBranch();
    NothingToNormalize(LABELLED, 1, NARROW);
    NothingToNormalize(LABELLED, 5, NARROW);
  }

  lemma LabelledIsRight(k: nat)
    requires 0 < k < 7
    ensures Problems(LABELLED, LabelledNode(k)) == {} && !Hazard(LABELLED, LabelledNode(k))
  {
    if k == 2 { ClearingAccepts(LABELLED, 2, LabelledNode(2).state); }
  }

  lemma LabelledFlow(k: nat)
    requires 0 < k < 7
    ensures forall m | Flows(LABELLED, LabelledNode(k), m) :: k < 6 && m == LabelledNode(k + 1)
  {
    LabelledTargets(k);
    if k != 4 && k != 6 {
      NothingToNormalize(LABELLED, k + 1, NARROW);
      OneTarget(LABELLED, LabelledNode(k), LabelledNode(k + 1));
    }
  }

  lemma LabelledSettles(k: nat)
    requires k < 7
    ensures Settles(LABELLED, LabelledTable(), k) && !Hazard(LABELLED, LabelledTable()[k])
  {
    if k == 0 {
      LabelledStart();
    } else {
      LabelledIsRight(k);
      LabelledFlow(k);
    }
  }

  function LabelledTable(): seq<Node> { seq(7, k requires 0 <= k < 7 => LabelledNode(k)) }

  lemma LabelledIsClean()
    ensures Clean(LABELLED, NARROW) && HazardFree(LABELLED, NARROW)
  {
    var table := LabelledTable();
    forall k | 0 <= k < |table|
      ensures Settles(LABELLED, table, k) && !Hazard(LABELLED, table[k])
    {
      LabelledSettles(k);
    }
    CleanByTable(LABELLED, NARROW, table);
  }

  lemma BranchesInside()
    ensures Step(LABELLED, Boot(NARROW), Cpu(2, NARROW, [], 1))
  {
    assert LabelFrom(LABELLED, 2, 0) == Some(Place(2, 1));
    assert LabelFrom(LABELLED, 1, 0) == Some(Place(2, 1));
  }

  lemma GoesOnInside()
    ensures Step(LABELLED, Cpu(2, NARROW, [], 1), Cpu(3, NARROW, [], 0))
  {
    var (c, c') := (Cpu(2, NARROW, [], 1), Cpu(3, NARROW, [], 0));
    var st := LABELLED.statements[2];
    assert PathsFrom(st.op, c.inside) == [Path([], Onward)];
    assert RunParts(LABELLED, c, st.encoded, [], []) == Some(c);
    assert PathTaken(LABELLED, c, st.encoded, PathsFrom(st.op, c.inside)[0], [], c');
    assert MacroStep(LABELLED, c, c');
  }

  lemma MacroLabelIsUnseen()
    ensures Clean(LABELLED, NARROW) && HazardFree(LABELLED, NARROW) && !AllRunsSafe(LABELLED, NARROW)
  {
    LabelledIsClean();
    BranchesInside();
    GoesOnInside();
    PullFromNothing(LABELLED, Cpu(3, NARROW, [], 0));
    RunFault(LABELLED, [Boot(NARROW), Cpu(2, NARROW, [], 1), Cpu(3, NARROW, [], 0)]);
  }

  /** `beq @f; rts; @f: pla; next: @f: rts`: the lint takes the branch for one to the second `@f`. */
  const REPEATED := Program([
    Branch(Named("@f")), Return(false), Label("@f"), Pull(RegA), Label("next"), Label("@f"), Return(false)])

  function RepeatedNode(k: nat): Node { Node(k, State(NARROW, [], [])) }

  lemma RepeatedBranch()
    ensures RawTargets(REPEATED, RepeatedNode(0)) == [RepeatedNode(1), RepeatedNode(5)]
  {
    assert LastLabel(REPEATED, "@f", 6) == Some(5) && LastLabel(REPEATED, "@f", 7) == Some(5);
    assert Successors(REPEATED, 0) == [1, 5];
  }

  lemma RepeatedAssembles()
    ensures Assembled(REPEATED, 0, Named("@f")) == Some(Place(2, 0))
  {
    assert "@f"[0] == '@' && "next"[0] == 'n';
    assert IsCheap("@f") && !IsCheap("next") && IsOrdinaryLabel(REPEATED.statements[4].op);
    assert StretchEnd(REPEATED, 4) == 4 && StretchEnd(REPEATED, 3) == 4;
    assert StretchEnd(REPEATED, 2) == 4 && StretchEnd(REPEATED, 1) == 4;
    assert LastLabel(REPEATED, "@f", 3) == Some(2) && LastLabel(REPEATED, "@f", 4) == Some(2);
  }

  lemma RepeatedIsRight(k: nat)
    requires k == 0 || k == 1 || k == 5 || k == 6
    ensures Problems(REPEATED, RepeatedNode(k)) == {}
  {
  }

  lemma RepeatedIsNoHazard(k: nat)
    requires k == 0 || k == 1 || k == 5 || k == 6
    ensures !Hazard(REPEATED, RepeatedNode(k))
  {
    if k == 0 { RepeatedAssembles(); }
  }

  lemma RepeatedFlow(k: nat)
    requires k == 0 || k == 1 || k == 5 || k == 6
    ensures forall m | Flows(REPEATED, RepeatedNode(k), m) ::
              m == RepeatedNode(1) || m == RepeatedNode(5) || m == RepeatedNode(6)
  {
    if k == 0 {
      RepeatedBranch();
      NothingToNormalize(REPEATED, 1, NARROW);
      NothingToNormalize(REPEATED, 5, NARROW);
    } else if k == 5 {
      assert RawTargets(REPEATED, RepeatedNode(5)) == [RepeatedNode(6)];
      NothingToNormalize(REPEATED, 6, NARROW);
      OneTarget(REPEATED, RepeatedNode(5), RepeatedNode(6));
    } else {
      LeavesThere(REPEATED, RepeatedNode(k));
    }
  }

  function RepeatedNodes(): set<Node> { {RepeatedNode(0), RepeatedNode(1), RepeatedNode(5), RepeatedNode(6)} }

  lemma RepeatedMember(n: Node)
    requires n in RepeatedNodes()
    ensures n == RepeatedNode(n.index) && (n.index == 0 || n.index == 1 || n.index == 5 || n.index == 6)
  {
  }

  lemma RepeatedIsFaultless(n: Node)
    requires n in RepeatedNodes()
    ensures Problems(REPEATED, n) == {} && !Hazard(REPEATED, n)
  {
    RepeatedMember(n);
    RepeatedIsRight(n.index);
    RepeatedIsNoHazard(n.index);
  }

  lemma RepeatedCloses(n: Node)
    requires n in RepeatedNodes()
    ensures forall m | Flows(REPEATED, n, m) :: m in RepeatedNodes()
  {
    RepeatedMember(n);
    RepeatedFlow(n.index);
  }

  lemma RepeatedIsClean()
    ensures Clean(REPEATED, NARROW) && HazardFree(REPEATED, NARROW)
  {
    var nodes := RepeatedNodes();
    forall n | n in nodes
      ensures Problems(REPEATED, n) == {} && !Hazard(REPEATED, n) && forall m | Flows(REPEATED, n, m) :: m in nodes
    {
      RepeatedIsFaultless(n);
      RepeatedCloses(n);
    }
    SameStatesDoNotConflict(nodes, State(NARROW, [], []));
    CleanByNodes(REPEATED, NARROW, nodes);
  }

  lemma BranchesNear()
    ensures Step(REPEATED, Boot(NARROW), Cpu(2, NARROW, [], 0))
  {
    RepeatedAssembles();
  }

  lemma RepeatedLabelIsUnseen()
    ensures Clean(REPEATED, NARROW) && HazardFree(REPEATED, NARROW) && !AllRunsSafe(REPEATED, NARROW)
  {
    RepeatedIsClean();
    BranchesNear();
    LabelStep(REPEATED, Cpu(2, NARROW, [], 0));
    PullFromNothing(REPEATED, Cpu(3, NARROW, [], 0));
    RunFault(REPEATED, [Boot(NARROW), Cpu(2, NARROW, [], 0), Cpu(3, NARROW, [], 0)]);
  }

  // ----- The other way round: a report without a fault -----

  /** `macro that returns, but is taken for a plain statement; pla`. */
  const UNLISTED := Program([Macro(false, [RETURN], []), Pull(RegA)])

  lemma UnlistedStops(c: Cpu)
    ensures Safe(UNLISTED, Boot(NARROW)) && !Step(UNLISTED, Boot(NARROW), c)
  {
    var (s, st, boot) := (InitialNode(NARROW).state, UNLISTED.statements[0], Boot(NARROW));
    assert FollowParts(UNLISTED, s, st.encoded, []) == Some(s);
    assert PathAccepts(UNLISTED, 0, s, st.encoded, RETURN) && MacroAccepts(UNLISTED, 0, s);
    MacroIsExact(UNLISTED, s, boot);
    forall data
      ensures !PathTaken(UNLISTED, boot, st.encoded, RETURN, data, c)
    {
      assert RunParts(UNLISTED, boot, st.encoded, [], data) == Some(boot);
    }
    assert PathsFrom(st.op, boot.inside) == [RETURN];
  }

  lemma UnlistedIsSafe()
    ensures AllRunsSafe(UNLISTED, NARROW)
  {
    forall run: seq<Cpu> | IsRun(UNLISTED, NARROW, run)
      ensures Safe(UNLISTED, run[|run| - 1])
    {
      UnlistedStops(Boot(NARROW));
      if |run| > 1 {
        assert Step(UNLISTED, run[0], run[0 + 1]);
        UnlistedStops(run[1]);
      }
    }
  }

  lemma UnlistedGoesOn()
    ensures Reachable(UNLISTED, NARROW, Node(1, State(NARROW, [], [])))
  {
    var (n, m) := (InitialNode(NARROW), Node(1, State(NARROW, [], [])));
    PlainTarget(UNLISTED, n, n.state);
    NothingToNormalize(UNLISTED, 1, NARROW);
    OneTarget(UNLISTED, n, m);
    ReachableStart(UNLISTED, NARROW);
    ReachableStep(UNLISTED, NARROW, n, m);
  }

  lemma UnlistedIsReported()
    ensures PullMismatch in Problems(UNLISTED, Node(1, State(NARROW, [], [])))
  {
  }

  /** Behind a macro that returns the lint may report what no run ever gets to. */
  lemma UnlistedReturnIsFalseAlarm()
    ensures !FaultFree(UNLISTED, NARROW) && AllRunsSafe(UNLISTED, NARROW)
  {
    UnlistedGoesOn();
    UnlistedIsReported();
    UnlistedIsSafe();
  }

  /** `.a8 .i8; php; m16; plp_m8_i8; lda #..; rts`: the assembler is told of the restored widths. */
  const RESTORED := Procedure([
    Statement(Directive(Some(Eight), Some(Eight)), NARROW), Statement(Push(RegP), NARROW),
    Statement(WidthMacro(Some(Sixteen), None), NARROW), Statement(PullStatusAs(NARROW), Widths(Sixteen, Eight)),
    Statement(AccumulatorImmediate, NARROW), Statement(Return(false), NARROW)], Some(NARROW), map[], map[])

  function RestoredNode(k: nat): Node {
    Node(k, State(if k == 2 || k == 3 then Widths(Sixteen, Eight) else NARROW,
                  if k == 2 || k == 3 then [Status(NARROW)] else [], []))
  }

  /** Before normalisation. */
  function RestoredRaw(k: nat): Node {
    if k == 1 then Node(2, State(NARROW, [Status(NARROW)], [])) else RestoredNode(k + 1)
  }

  lemma SavesStatus(s: State)
    requires s.stack == []
    ensures Transfer(Push(RegP), s).0 == Some(s.(stack := [Status(s.w)]))
  {
    assert [] + [Status(s.w)] == [Status(s.w)];
  }

  lemma RestoresStatus(s: State, saved: Widths)
    requires s.stack == [Status(saved)]
    ensures Transfer(PullStatusAs(saved), s).0 == Some(State(saved, [], s.calls))
  {
    assert Popped(s.stack) == [];
  }

  lemma RestoredTransfer(k: nat)
    requires k < 5
    ensures Transfer(RESTORED.statements[k].op, RestoredNode(k).state).0 == Some(RestoredRaw(k).state)
  {
    if k == 1 {
      SavesStatus(RestoredNode(1).state);
    } else if k == 3 {
      RestoresStatus(RestoredNode(3).state, NARROW);
    } else if k == 2 {
      assert RESTORED.statements[2].op == WidthMacro(Some(Sixteen), None);
    }
  }

  lemma RestoredTargets(k: nat)
    requires k < 5
    ensures RawTargets(RESTORED, RestoredNode(k)) == [RestoredRaw(k)]
  {
    RestoredTransfer(k);
    assert Successors(RESTORED, k) == [k + 1] && RestoredRaw(k).index == k + 1;
    PlainTarget(RESTORED, RestoredNode(k), RestoredRaw(k).state);
  }

  lemma RestoredNormalized(k: nat)
    requires k < 5
    ensures Normalized(RESTORED, RestoredRaw(k)) == RestoredNode(k + 1)
  {
  }

  lemma RestoredFlow(k: nat)
    requires k < 6
    ensures k < 5 ==> Flows(RESTORED, RestoredNode(k), RestoredNode(k + 1))
    ensures forall m | Flows(RESTORED, RestoredNode(k), m) :: k < 5 && m == RestoredNode(k + 1)
  {
    if k < 5 {
      RestoredTargets(k);
      RestoredNormalized(k);
      assert RawTargets(RESTORED, RestoredNode(k))[0] == RestoredRaw(k);
    }
  }

  lemma RestoredIsMisreported()
    ensures Misreports(RESTORED, RestoredNode(4)) && ImmediateWidth in Problems(RESTORED, RestoredNode(4))
  {
    assert TrackedAt(RESTORED, 3).a == Some(Sixteen) && TrackedAt(RESTORED, 4).a == Some(Sixteen);
  }

  lemma RestoredIsRight(k: nat)
    requires k < 6
    ensures !Faulty(RESTORED, RestoredNode(k)) && !BlindSpot(RESTORED, RestoredNode(k))
  {
    if k == 4 {
      RestoredIsMisreported();
    } else {
      RestoredIsUnreported(k);
    }
  }

  lemma RestoredIsUnreported(k: nat)
    requires k < 6 && k != 4
    ensures Problems(RESTORED, RestoredNode(k)) == {}
  {
  }

  lemma RestoredEncodes()
    ensures Encodes(RESTORED)
  {
  }

  lemma {:induction false} RestoredReaches(k: nat)
    requires k < 6
    ensures Reachable(RESTORED, NARROW, RestoredNode(k))
  {
    if k == 0 {
      ReachableStart(RESTORED, NARROW);
    } else {
      RestoredReaches(k - 1);
      RestoredFlow(k - 1);
      ReachableStep(RESTORED, NARROW, RestoredNode(k - 1), RestoredNode(k));
    }
  }

  lemma RestoredIsFaultFree()
    ensures FaultFree(RESTORED, NARROW) && InSight(RESTORED, NARROW)
  {
    var nodes := set k | 0 <= k < 6 :: RestoredNode(k);
    forall n, m | n in nodes && Flows(RESTORED, n, m)
      ensures m in nodes
    {
      RestoredFlow(n.index);
      assert m == RestoredNode(n.index + 1);
    }
    assert RestoredNode(0) in nodes;
    NodesHold(RESTORED, NARROW, nodes);
    forall n | n in nodes
      ensures !Faulty(RESTORED, n) && !BlindSpot(RESTORED, n)
    {
      RestoredIsRight(n.index);
    }
  }

  /** The lint does not read what a status restore tells the assembler, and reports an immediate that is right. */
  lemma RestoredWidthIsFalseAlarm()
    ensures Encodes(RESTORED) && InSight(RESTORED, NARROW)
    ensures AllRunsSafe(RESTORED, NARROW) && !Clean(RESTORED, NARROW)
  {
    RestoredEncodes();
    RestoredIsFaultFree();
    LintIsExact(RESTORED, NARROW);
    RestoredReaches(4);
    RestoredIsMisreported();
  }
}
