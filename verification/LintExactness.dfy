/** The lint is exact on what it looks at: the runs that misbehave are exactly the ones its problems
    and hazards describe. */
module LintExactness {
  import opened Octets
  import opened Asm65816
  import opened WidthLint
  import opened AssemblerLabels
  import opened Cpu65816
  import opened LintStack
  import opened LintMacros
  import opened LintFaults
  import opened LintSoundness

  /** No reachable statement has an effect the lint does not follow. */
  ghost predicate InSight(p: Procedure, entry: Widths) {
    forall n | Reachable(p, entry, n) :: !BlindSpot(p, n)
  }

  ghost predicate HazardFree(p: Procedure, entry: Widths) {
    forall n | Reachable(p, entry, n) :: !Hazard(p, n)
  }

  ghost predicate FaultFree(p: Procedure, entry: Widths) {
    forall n | Reachable(p, entry, n) :: !Faulty(p, n)
  }

  // ----- Every run is seen -----

  lemma {:induction false} RunIsTracked(p: Procedure, entry: Widths, run: seq<Cpu>) returns (n: Node)
    requires FaultFree(p, entry) && InSight(p, entry)
    requires IsRun(p, entry, run) && run[|run| - 1].pc < |p.statements|
    ensures Reachable(p, entry, n) && Simulates(p, run[|run| - 1], n)
  {
    if |run| == 1 {
      n := InitialNode(entry);
      ReachableStart(p, entry);
    } else {
      var c, c' := run[|run| - 2], run[|run| - 1];
      assert Step(p, run[|run| - 2], run[|run| - 2 + 1]);
      var before := RunIsTracked(p, entry, run[..|run| - 1]);
      assert Undisturbed(p, before);
      n := LintFollowsMachine(p, c, c', before);
      ReachableStep(p, entry, before, n);
    }
  }

  /** Without problems and hazards every run is safe, whatever immediates the lint misreports. */
  lemma FaultFreeRunsAreSafe(p: Procedure, entry: Widths)
    requires FaultFree(p, entry) && InSight(p, entry)
    ensures AllRunsSafe(p, entry)
  {
    forall run: seq<Cpu> | IsRun(p, entry, run)
      ensures Safe(p, run[|run| - 1])
    {
      if run[|run| - 1].pc < |p.statements| {
        var n := RunIsTracked(p, entry, run);
        SafeExactly(p, run[|run| - 1], n);
      }
    }
  }

  // ----- Every flow is run -----

  function ReturnAddress(index: nat, far: bool): (address: seq<Cell>)
    ensures IsReturnAddress(address, index, far)
  {
    seq(ReturnSize(far), j requires 0 <= j < ReturnSize(far) => ReturnByte(index, far, ReturnSize(far) - 1 - j))
  }

  /** The machine after the statement at its program counter, going to `pc`. */
  function Executed(p: Procedure, c: Cpu, pc: nat): Cpu
    requires c.pc < |p.statements| && Safe(p, c) && IsTransfer(p, c.pc) && !p.statements[c.pc].op.Macro?
  {
    match p.statements[c.pc].op
    case WidthMacro(a, i) => c.(pc := pc, w := Switched(a, i, c.w))
    case StatusImmediate(sets, mask) =>
      c.(pc := pc, w := ApplyToStatus(sets, if mask.Some? then mask.value else 0, c.w))
    case Push(r) => c.(pc := pc, stack := c.stack + PushedBytes(r, c.w, []))
    case PushProgramBank => c.(pc := pc, stack := c.stack + [Data(RegB, 1, 0, 0)])
    case Increment32(_, _) => c.(pc := pc, w := c.w.(a := Sixteen))
    case Pull(r) => c.(pc := pc, stack := c.stack[..|c.stack| - TransferSize(r, c.w)])
    case PullStatus => Cpu(pc, WidthsOf(c.stack[|c.stack| - 1].value), c.stack[..|c.stack| - 1], 0)
    case PullStatusAs(_) => Cpu(pc, WidthsOf(c.stack[|c.stack| - 1].value), c.stack[..|c.stack| - 1], 0)
    case _ => c.(pc := pc)
  }

  /** The target is one of the successors, as the assembler has it. */
  lemma SuccessorIsPlace(p: Procedure, n: Node, pc: nat)
    requires n.index < |p.statements| && !BlindSpot(p, n) && pc in Successors(p, n.index)
    ensures match p.statements[n.index].op
            case Jump(to) => Destination(p, n.index, to) == Place(pc, 0)
            case Branch(to) => pc == n.index + 1 || Destination(p, n.index, to) == Place(pc, 0)
            case _ => pc == n.index + 1
  {
  }

  lemma ExecutedIsStep(p: Procedure, c: Cpu, n: Node, pc: nat)
    requires c.pc == n.index < |p.statements| && c.inside == 0 && Safe(p, c) && !BlindSpot(p, n)
    requires IsTransfer(p, c.pc) && !p.statements[c.pc].op.Macro? && pc in Successors(p, c.pc)
    ensures Step(p, c, Executed(p, c, pc)) && Executed(p, c, pc).pc == pc
  {
    var op := p.statements[c.pc].op;
    SuccessorIsPlace(p, n, pc);
    if op.Push? {
      assert IsPush(PushedBytes(op.from, c.w, []), op.from, TransferSize(op.from, c.w));
    }
  }

  /** Some way through a macro that does not stray goes on, and it can be taken. */
  lemma MacroGoesOn(p: Procedure, c: Cpu, n: Node) returns (c': Cpu)
    requires Simulates(p, c, n) && Undisturbed(p, n) && Safe(p, c) && c.pc < |p.statements|
    requires p.statements[c.pc].op.Macro? && !p.statements[c.pc].op.terminal
    ensures Step(p, c, c') && c'.pc == c.pc + 1
  {
    var st := p.statements[c.pc];
    NormalizeIsLocal(p, c.pc, c.w);
    var j :| 0 <= j < |st.op.paths| && st.op.paths[j].end.Onward?;
    var path := st.op.paths[j];
    assert MacroAccepts(p, c.pc, n.state) && PathAccepts(p, c.pc, n.state, st.encoded, path);
    PartsAreExact(p, n.state, c, st.encoded, path.parts, []);
    var d := RunParts(p, c, st.encoded, path.parts, []).value;
    c' := d.(pc := c.pc + 1, inside := 0);
    assert PathsFrom(st.op, c.inside)[j] == path && PathTaken(p, c, st.encoded, path, [], c');
    assert MacroStep(p, c, c');
  }

  lemma TransferIsRun(p: Procedure, c: Cpu, n: Node, m: Node) returns (c': Cpu)
    requires Simulates(p, c, n) && Undisturbed(p, n) && Safe(p, c) && Flows(p, n, m) && IsTransfer(p, n.index)
    ensures Step(p, c, c') && Simulates(p, c', m)
  {
    var j :| 0 <= j < |RawTargets(p, n)| && m == Normalized(p, RawTargets(p, n)[j]);
    assert RawTargets(p, n)[j].index == m.index == Successors(p, n.index)[j];
    if p.statements[c.pc].op.Macro? {
      c' := MacroGoesOn(p, c, n);
    } else {
      c' := Executed(p, c, m.index);
      ExecutedIsStep(p, c, n, m.index);
    }
    StepHasEffect(p, c, c', n);
    StepGoesToSuccessor(p, c, c', n);
    EffectTracks(p, c, c', n);
  }

  lemma CallIsRun(p: Procedure, c: Cpu, n: Node, m: Node) returns (c': Cpu)
    requires Simulates(p, c, n) && Undisturbed(p, n) && Safe(p, c) && Flows(p, n, m)
    requires p.statements[n.index].op.Call? && !IsTransfer(p, n.index)
    ensures Step(p, c, c') && Simulates(p, c', m)
  {
    var op := p.statements[n.index].op;
    var address := ReturnAddress(c.pc + 1, op.far);
    c' := c.(pc := Resolve(p, c.pc, op.callee).value, stack := c.stack + address);
    var tracked := CallTracks(p, c, c', n);
  }

  lemma ReturnStep(p: Procedure, c: Cpu, far: bool) returns (c': Cpu)
    requires c.pc < |p.statements| && p.statements[c.pc].op == Return(far) && Safe(p, c)
    requires c.stack != [] && c.inside == 0
    ensures ReturnSize(far) <= |c.stack| && c.stack[|c.stack| - 1].ReturnByte?
    ensures c' == c.(pc := c.stack[|c.stack| - 1].index, stack := c.stack[..|c.stack| - ReturnSize(far)])
    ensures Step(p, c, c')
  {
    c' := c.(pc := c.stack[|c.stack| - 1].index, stack := c.stack[..|c.stack| - ReturnSize(far)]);
  }

  /** Only a local return flows anywhere, and only to the statement behind its call. */
  lemma ReturnFlow(p: Procedure, n: Node, m: Node)
    requires n.index < |p.statements| && p.statements[n.index].op.Return? && Flows(p, n, m)
    ensures n.state.calls != [] && n.state.stack == n.state.calls[|n.state.calls| - 1].stack
    ensures m.index == n.state.calls[|n.state.calls| - 1].returnIndex < |p.statements|
    ensures m == Normalized(p, RawTargets(p, n)[0])
  {
  }

  lemma ReturnIsRun(p: Procedure, c: Cpu, n: Node, m: Node) returns (c': Cpu)
    requires Simulates(p, c, n) && Undisturbed(p, n) && Safe(p, c) && Flows(p, n, m)
    requires p.statements[n.index].op.Return?
    ensures Step(p, c, c') && Simulates(p, c', m)
  {
    ReturnFlow(p, n, m);
    ReturnFindsAddress(p, n.state, c.stack);
    c' := ReturnStep(p, c, p.statements[n.index].op.far);
    var tracked := ReturnTracks(p, c, c', n);
  }

  /** Whatever the lint merges, some step of the machine goes there. */
  lemma MachineFollowsLint(p: Procedure, c: Cpu, n: Node, m: Node) returns (c': Cpu)
    requires Simulates(p, c, n) && Undisturbed(p, n) && Flows(p, n, m)
    ensures Step(p, c, c') && Simulates(p, c', m)
  {
    SafeExactly(p, c, n);
    if IsTransfer(p, n.index) {
      c' := TransferIsRun(p, c, n, m);
    } else if p.statements[n.index].op.Call? {
      c' := CallIsRun(p, c, n, m);
    } else {
      c' := ReturnIsRun(p, c, n, m);
    }
  }

  lemma RunStep(p: Procedure, entry: Widths, run: seq<Cpu>, c: Cpu)
    requires IsRun(p, entry, run) && Step(p, run[|run| - 1], c)
    ensures IsRun(p, entry, run + [c])
  {
  }

  lemma {:induction false} PathIsRun(p: Procedure, entry: Widths, path: seq<Node>) returns (run: seq<Cpu>)
    requires IsPath(p, entry, path)
    requires forall j | 0 <= j < |path| - 1 :: Undisturbed(p, path[j])
    ensures IsRun(p, entry, run) && Simulates(p, run[|run| - 1], path[|path| - 1])
  {
    if |path| == 1 {
      run := [Boot(entry)];
    } else {
      var before := PathIsRun(p, entry, path[..|path| - 1]);
      assert Flows(p, path[|path| - 2], path[|path| - 2 + 1]);
      var c := MachineFollowsLint(p, before[|before| - 1], path[|path| - 2], path[|path| - 1]);
      RunStep(p, entry, before, c);
      run := before + [c];
    }
  }

  lemma PathIsReachable(p: Procedure, entry: Widths, path: seq<Node>)
    requires IsPath(p, entry, path)
    ensures forall j | 0 <= j < |path| :: Reachable(p, entry, path[j])
  {
    forall j | 0 <= j < |path|
      ensures Reachable(p, entry, path[j])
    {
      assert IsPath(p, entry, path[..j + 1]);
    }
  }

  /** A reachable problem or hazard is the end of some run: the first one on the way there. */
  lemma {:induction false} FaultIsReached(p: Procedure, entry: Widths, path: seq<Node>)
    requires InSight(p, entry) && IsPath(p, entry, path) && Faulty(p, path[|path| - 1])
    ensures !AllRunsSafe(p, entry)
    decreases |path|
  {
    if j :| 0 <= j < |path| - 1 && Faulty(p, path[j]) {
      FaultIsReached(p, entry, path[..j + 1]);
    } else {
      PathIsReachable(p, entry, path);
      var run := PathIsRun(p, entry, path);
      SafeExactly(p, run[|run| - 1], path[|path| - 1]);
    }
  }

  /** A procedure in sight of the lint runs safely on every path exactly when no reachable statement
      has a problem or is a hazard; a diagnostic is a false alarm only at a merge or when it misreports
      an immediate. */
  lemma LintIsExact(p: Procedure, entry: Widths)
    requires InSight(p, entry)
    ensures AllRunsSafe(p, entry) <==> FaultFree(p, entry)
  {
    if FaultFree(p, entry) {
      FaultFreeRunsAreSafe(p, entry);
    } else {
      var n :| Reachable(p, entry, n) && Faulty(p, n);
      var path :| IsPath(p, entry, path) && path[|path| - 1] == n;
      FaultIsReached(p, entry, path);
    }
  }

  /** For a procedure the lint accepts, hazards are what is left to decide. */
  lemma CleanIsExact(p: Procedure, entry: Widths)
    requires Clean(p, entry) && InSight(p, entry)
    ensures AllRunsSafe(p, entry) <==> HazardFree(p, entry)
  {
    LintIsExact(p, entry);
  }

  ghost predicate ConflictFree(p: Procedure, entry: Widths) {
    forall m, n | Reachable(p, entry, m) && Reachable(p, entry, n) :: !Conflict(m, n)
  }

  /** A safe procedure is rejected only where two states of a statement cannot be merged or where the lint
      is wrong about the encoding of an immediate. */
  lemma FalseAlarmsAreConflicts(p: Procedure, entry: Widths)
    requires InSight(p, entry) && AllRunsSafe(p, entry)
    ensures Clean(p, entry) <==>
              ConflictFree(p, entry) && forall n | Reachable(p, entry, n) :: !Misreports(p, n)
  {
    LintIsExact(p, entry);
    forall n | Reachable(p, entry, n) && Misreports(p, n)
      ensures Problems(p, n) != {}
    {
      assert ImmediateWidth in Problems(p, n);
    }
  }
}
