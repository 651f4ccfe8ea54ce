/** Where the machine faults: at the problems the lint reports and at the hazards it does not, exactly, as
    long as it does not look away. */
module LintFaults {
  import opened Octets
  import opened Asm65816
  import opened AssemblerLabels
  import opened WidthLint
  import opened Cpu65816
  import opened LintStack
  import opened LintMacros

  // ----- What the lint does not look at -----

  /** A way through a macro that the lint does not follow: it changes widths or stack, it goes on where the
      lint takes control flow to end, it jumps to a label of the procedure, or it returns from a local call. */
  predicate Strays(p: Procedure, n: Node, path: Path)
    requires n.index < |p.statements| && p.statements[n.index].op.Macro?
  {
    var st := p.statements[n.index];
    var t := FollowParts(p, n.state, st.encoded, path.parts);
    && t.Some?
    && match path.end
       case Onward => st.op.terminal || t.value != n.state
       case Away(to) => Assembled(p, n.index, to).Some?
       case Back(far) => n.state.calls != [] && Balanced(p, t.value, far)
  }

  /** Some way strays, or there is none onward although the lint goes on. */
  predicate MacroStrays(p: Procedure, n: Node)
    requires n.index < |p.statements| && p.statements[n.index].op.Macro?
  {
    var op := p.statements[n.index].op;
    || (exists j | 0 <= j < |op.paths| :: Strays(p, n, op.paths[j]))
    || (!op.terminal && forall j | 0 <= j < |op.paths| :: !op.paths[j].end.Onward?)
  }

  /** Statements with an effect on widths, stack or control flow that the lint does not follow. */
  predicate BlindSpot(p: Procedure, n: Node) {
    && n.index < |p.statements|
    && match p.statements[n.index].op
       case PushProgramBank => true
       case Increment32(_, _) => n.state.w.a == Eight
       case StatusImmediate(_, mask) => mask.None?
       case Jump(to) => Misresolved(p, n.index, to)
       case Branch(to) => Misresolved(p, n.index, to)
       case Call(_, callee) => Misresolved(p, n.index, callee)
       case Macro(_, _, _) => MacroStrays(p, n)
       case _ => false
  }

  // ----- What it does not report -----

  predicate Pulls(op: Op) { op.Pull? || op.PullStatus? || op.PullStatusAs? }

  /** A pull that would take the return address of the active local call. */
  predicate PullsReturnAddress(p: Procedure, n: Node) {
    n.index < |p.statements| && Pulls(p.statements[n.index].op) && n.state.calls != [] && !AboveFloor(n.state)
  }

  /** A local return of the other kind than the call it answers (RTS for JSL or RTL for JSR). */
  predicate MixesReturnKind(p: Procedure, n: Node) {
    && n.index < |p.statements|
    && p.statements[n.index].op.Return?
    && n.state.calls != []
    && p.statements[n.index].op.far != FrameIsFar(p, n.state.calls[|n.state.calls| - 1])
  }

  /** A macro reached with widths, an encoding or a typed stack that some way through it cannot use. */
  predicate MisusesMacro(p: Procedure, n: Node) {
    && n.index < |p.statements| && p.statements[n.index].op.Macro?
    && !MacroAccepts(p, n.index, n.state)
  }

  predicate IsImmediate(op: Op) { op.AccumulatorImmediate? || op.IndexImmediate? }

  predicate ImmediateFits(st: Statement, w: Widths) {
    (st.op.AccumulatorImmediate? ==> st.encoded.a == w.a) && (st.op.IndexImmediate? ==> st.encoded.i == w.i)
  }

  /** An immediate that has the width the lint takes it to be encoded with, but was encoded with another. */
  predicate HidesImmediate(p: Procedure, n: Node) {
    && n.index < |p.statements| && IsImmediate(p.statements[n.index].op)
    && !ImmediateProblem(p, n.index, n.state.w) && !ImmediateFits(p.statements[n.index], n.state.w)
  }

  /** A jump or branch out of the procedure with something left on the stack or at widths its target does not
      expect; the lint takes it for the end of control flow. */
  predicate LeavesAstray(p: Procedure, n: Node) {
    && n.index < |p.statements|
    && match p.statements[n.index].op
       case Jump(to) => !MayLeave(p, n.index, n.state, to)
       case Branch(to) => !MayLeave(p, n.index, n.state, to)
       case _ => false
  }

  /** A statement behind which the procedure ends although control goes on. */
  predicate GoesOnBehind(p: Procedure, n: Node) { n.index < |p.statements| && RunsOff(p, n.index, 0) }

  predicate Hazard(p: Procedure, n: Node) {
    || PullsReturnAddress(p, n) || MixesReturnKind(p, n) || MisusesMacro(p, n) || HidesImmediate(p, n)
    || LeavesAstray(p, n) || GoesOnBehind(p, n)
  }

  // ----- What it reports without need -----

  /** The other way round: the lint reports an immediate that was encoded with the right width. */
  predicate Misreports(p: Procedure, n: Node) {
    && n.index < |p.statements| && IsImmediate(p.statements[n.index].op)
    && ImmediateProblem(p, n.index, n.state.w) && ImmediateFits(p.statements[n.index], n.state.w)
  }

  // ----- The simulation -----

  /** The recorded widths are the machine's own, or what the width macro ahead makes of them. */
  predicate WidthsAgree(p: Procedure, k: nat, machine: Widths, recorded: Widths) {
    recorded == machine || recorded == Normalize(p, k, machine)
  }

  predicate Simulates(p: Procedure, c: Cpu, n: Node) {
    && c.pc == n.index && c.inside == 0
    && WidthsAgree(p, c.pc, c.w, n.state.w)
    && Layout(p, n.state.calls, n.state.stack, c.stack)
  }

  /** Neither faulty nor out of the lint's sight. */
  predicate Undisturbed(p: Procedure, n: Node) { !Faulty(p, n) && !BlindSpot(p, n) }

  lemma NormalizeIsLocal(p: Procedure, k: nat, w: Widths)
    requires k < |p.statements| && !p.statements[k].op.Label? && !p.statements[k].op.WidthMacro?
    ensures Normalize(p, k, w) == w
  {
  }

  // ----- Problems and hazards are exactly the faults -----

  predicate Faulty(p: Procedure, n: Node) { (Problems(p, n) != {} && !Misreports(p, n)) || Hazard(p, n) }

  /** The statement itself is at fault, whatever follows it. */
  predicate Misfit(p: Procedure, n: Node) {
    || (Problems(p, n) != {} && !Misreports(p, n))
    || PullsReturnAddress(p, n) || MixesReturnKind(p, n) || MisusesMacro(p, n) || HidesImmediate(p, n)
    || LeavesAstray(p, n)
  }

  lemma PullProblems(p: Procedure, n: Node)
    requires n.index < |p.statements| && Pulls(p.statements[n.index].op)
    ensures var s := n.state;
            Problems(p, n) == {}
            <==> match p.statements[n.index].op
                 case Pull(r) => PullAccepts(s.w, r, Top(s.stack))
                 case PullStatus => s.stack != [] && s.stack[|s.stack| - 1].Status?
                 case PullStatusAs(restored) => Top(s.stack) == Some(Status(restored))
                 case _ => false
  {
    var problems := Transfer(p.statements[n.index].op, n.state).1;
    assert Problems(p, n) == problems;
    assert PullMismatch in {PullMismatch} && StatusMismatch in {StatusMismatch} && RestoreMismatch in {RestoreMismatch};
  }

  lemma PullFault(p: Procedure, c: Cpu, n: Node)
    requires Simulates(p, c, n) && c.w == n.state.w && c.pc < |p.statements| && p.statements[c.pc].op.Pull?
    ensures Fits(p, c) <==> !Misfit(p, n)
  {
    PullProblems(p, n);
    PullIsExact(p, n.state, c, p.statements[c.pc].op.into);
  }

  /** What a restore of the status needs. */
  predicate StatusReady(op: Op, s: State) {
    && AboveFloor(s) && s.stack[|s.stack| - 1].Status?
    && (op.PullStatusAs? ==> s.stack[|s.stack| - 1].saved == op.restored)
  }

  lemma StatusFaultIs(p: Procedure, n: Node)
    requires n.index < |p.statements|
    requires p.statements[n.index].op.PullStatus? || p.statements[n.index].op.PullStatusAs?
    ensures Misfit(p, n) <==> !StatusReady(p.statements[n.index].op, n.state)
  {
    PullProblems(p, n);
  }

  lemma StatusSafety(p: Procedure, c: Cpu, op: Op, s: State)
    requires Layout(p, s.calls, s.stack, c.stack) && c.pc < |p.statements| && p.statements[c.pc].op == op
    requires op.PullStatus? || op.PullStatusAs?
    ensures Fits(p, c) <==> StatusReady(op, s)
  {
    StatusIsExact(p, s, c);
  }

  lemma StatusFault(p: Procedure, c: Cpu, n: Node)
    requires Simulates(p, c, n) && c.w == n.state.w && c.pc < |p.statements|
    requires p.statements[c.pc].op.PullStatus? || p.statements[c.pc].op.PullStatusAs?
    ensures Fits(p, c) <==> !Misfit(p, n)
  {
    StatusFaultIs(p, n);
    StatusSafety(p, c, p.statements[c.pc].op, n.state);
  }

  lemma ReturnProblemsAre(p: Procedure, s: State)
    ensures ReturnProblems(p, s) == {}
            <==> if s.calls == [] then s.stack == [] && p.returnAbi == Some(s.w)
                 else s.stack == s.calls[|s.calls| - 1].stack
  {
    assert UnbalancedLocalReturn in {UnbalancedLocalReturn} && ReturnInInterrupt in {ReturnInInterrupt};
    assert p.returnAbi.Some? && s.stack != [] && s.calls == [] ==> StackLeftBehind in ReturnProblems(p, s);
    assert p.returnAbi.Some? && s.w != p.returnAbi.value && s.calls == [] ==> ReturnAbi in ReturnProblems(p, s);
  }

  lemma ReturnFaultIs(p: Procedure, n: Node)
    requires n.index < |p.statements| && p.statements[n.index].op.Return?
    ensures Misfit(p, n) <==> !Balanced(p, n.state, p.statements[n.index].op.far)
  {
    ReturnProblemsAre(p, n.state);
    assert Problems(p, n) == ReturnProblems(p, n.state);
  }

  lemma ReturnFault(p: Procedure, c: Cpu, n: Node)
    requires Simulates(p, c, n) && c.w == n.state.w && c.pc < |p.statements| && p.statements[c.pc].op.Return?
    ensures Fits(p, c) <==> !Misfit(p, n)
  {
    ReturnFaultIs(p, n);
    ReturnIsExact(p, n.state, c, p.statements[c.pc].op.far);
  }

  lemma RtiFault(p: Procedure, c: Cpu, n: Node)
    requires Simulates(p, c, n) && c.pc < |p.statements| && p.statements[c.pc].op.InterruptReturn?
    ensures Fits(p, c) <==> !Misfit(p, n)
  {
    var s := n.state;
    EmptyIsExact(p, s, c);
    assert Problems(p, n) == RtiProblems(p, s);
    assert p.returnAbi.Some? ==> RtiOutsideInterrupt in RtiProblems(p, s);
    assert p.returnAbi.None? && s.calls != [] ==> RtiInSubroutine in RtiProblems(p, s);
    assert p.returnAbi.None? && s.stack != [] ==> RtiStackLeftBehind in RtiProblems(p, s);
  }

  /** Statements whose checks depend on widths alone. */
  lemma WidthFault(p: Procedure, c: Cpu, n: Node)
    requires c.pc == n.index < |p.statements| && c.w == n.state.w
    requires var op := p.statements[c.pc].op;
             && !Pulls(op) && !op.Return? && !op.InterruptReturn? && !op.Macro? && !IsImmediate(op)
             && !op.Jump? && !op.Branch?
    ensures Fits(p, c) <==> !Misfit(p, n)
  {
    var st := p.statements[c.pc];
    assert CallProblem(p, st.op, c.w) ==> CallAbi in Problems(p, n);
    assert AccessProblem(p, st.op, c.w) ==> AccessTooWide in Problems(p, n);
    assert st.op.AssertWidths? && c.w != st.op.expected ==> AssertFails in Problems(p, n);
  }

  lemma ImmediateFault(p: Procedure, c: Cpu, n: Node)
    requires c.pc == n.index < |p.statements| && c.w == n.state.w && IsImmediate(p.statements[c.pc].op)
    ensures Fits(p, c) <==> !Misfit(p, n)
  {
    assert ImmediateProblem(p, n.index, c.w) ==> ImmediateWidth in Problems(p, n);
    assert Problems(p, n) != {} ==> ImmediateProblem(p, n.index, c.w);
  }

  lemma LeavingFault(p: Procedure, c: Cpu, n: Node)
    requires Simulates(p, c, n) && c.w == n.state.w && c.pc < |p.statements|
    requires p.statements[c.pc].op.Jump? || p.statements[c.pc].op.Branch?
    ensures Fits(p, c) <==> !Misfit(p, n)
  {
    EmptyIsExact(p, n.state, c);
    assert Problems(p, n) == {};
  }

  lemma FitsExactly(p: Procedure, c: Cpu, n: Node)
    requires Simulates(p, c, n) && c.pc < |p.statements|
    ensures Fits(p, c) <==> !Misfit(p, n)
  {
    var op := p.statements[c.pc].op;
    if !op.Label? && !op.WidthMacro? {
      NormalizeIsLocal(p, c.pc, c.w);
      if op.Pull? {
        PullFault(p, c, n);
      } else if Pulls(op) {
        StatusFault(p, c, n);
      } else if op.Return? {
        ReturnFault(p, c, n);
      } else if op.InterruptReturn? {
        RtiFault(p, c, n);
      } else if op.Macro? {
        MacroFault(p, c, n);
      } else if op.Jump? || op.Branch? {
        LeavingFault(p, c, n);
      } else if IsImmediate(op) {
        ImmediateFault(p, c, n);
      } else {
        WidthFault(p, c, n);
      }
    }
  }

  lemma MacroFault(p: Procedure, c: Cpu, n: Node)
    requires Simulates(p, c, n) && c.w == n.state.w && c.pc < |p.statements| && p.statements[c.pc].op.Macro?
    ensures Fits(p, c) <==> !Misfit(p, n)
  {
    assert Problems(p, n) == {};
    MacroIsExact(p, n.state, c);
  }

  /** In the state that simulates it, a machine is safe exactly where the lint finds neither a problem
      nor a hazard, misreported immediates aside. In front of a width macro no check depends on widths;
      elsewhere the recorded widths are the machine's. */
  lemma SafeExactly(p: Procedure, c: Cpu, n: Node)
    requires Simulates(p, c, n) && c.pc < |p.statements|
    ensures Safe(p, c) <==> !Faulty(p, n)
  {
    FitsExactly(p, c, n);
  }
}
