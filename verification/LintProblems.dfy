/** What each problem of the lint says about the node it is reported for, problem by problem. */
module LintProblems {
  import opened Octets
  import opened Asm65816
  import opened WidthLint
  import opened Cpu65816

  /** The end of the procedure itself, outside its local subroutines. */
  predicate Outermost(s: State) { s.calls == [] }

  /** The cause of a problem; the machine `c` stands at the node with its widths. */
  ghost predicate Cause(p: Procedure, c: Cpu, n: Node, x: Problem)
    requires n.index == c.pc < |p.statements|
  {
    var (op, s) := (p.statements[n.index].op, n.state);
    match x
    case ImmediateWidth =>
      || (op == AccumulatorImmediate && TrackedAt(p, n.index).a != Some(c.w.a))
      || (op == IndexImmediate && TrackedAt(p, n.index).i != Some(c.w.i))
    case CallAbi => op.Call? && !Fits(p, c)
    case AccessTooWide => (op.Access? || op.Increment32?) && !Fits(p, c)
    case AssertFails => op.AssertWidths? && !Fits(p, c)
    case PullMismatch => op.Pull? && !PullAccepts(c.w, op.into, Top(s.stack))
    case StatusMismatch => op == PullStatus && (s.stack == [] || !s.stack[|s.stack| - 1].Status?)
    case RestoreMismatch => op.PullStatusAs? && (s.stack == [] || s.stack[|s.stack| - 1] != Status(op.restored))
    case UnbalancedLocalReturn => op.Return? && !Outermost(s) && s.stack != s.calls[|s.calls| - 1].stack
    case ReturnInInterrupt => op.Return? && Outermost(s) && p.returnAbi.None?
    case StackLeftBehind => op.Return? && Outermost(s) && p.returnAbi.Some? && s.stack != []
    case ReturnAbi => op.Return? && Outermost(s) && p.returnAbi.Some? && p.returnAbi != Some(c.w)
    case RtiOutsideInterrupt => op.InterruptReturn? && p.returnAbi.Some?
    case RtiInSubroutine => op.InterruptReturn? && p.returnAbi.None? && !Outermost(s)
    case RtiStackLeftBehind => op.InterruptReturn? && p.returnAbi.None? && s.stack != []
    case IncompatibleMerge => false
  }

  lemma ReturnProblem(p: Procedure, c: Cpu, n: Node, x: Problem)
    requires n.index == c.pc < |p.statements| && n.state.w == c.w && p.statements[n.index].op.Return?
    ensures x in Problems(p, n) <==> Cause(p, c, n, x)
  {
    assert Problems(p, n) == StatementProblems(p, n.index, n.state.w) + ReturnProblems(p, n.state);
  }

  lemma RtiProblem(p: Procedure, c: Cpu, n: Node, x: Problem)
    requires n.index == c.pc < |p.statements| && n.state.w == c.w && p.statements[n.index].op.InterruptReturn?
    ensures x in Problems(p, n) <==> Cause(p, c, n, x)
  {
    assert Problems(p, n) == StatementProblems(p, n.index, n.state.w) + RtiProblems(p, n.state);
  }

  /** A problem is found at a node exactly if its own cause is there. */
  lemma ProblemHasCause(p: Procedure, c: Cpu, n: Node, x: Problem)
    requires n.index == c.pc < |p.statements| && n.state.w == c.w
    ensures x in Problems(p, n) <==> Cause(p, c, n, x)
  {
    var op := p.statements[n.index].op;
    if op.Return? {
      ReturnProblem(p, c, n, x);
    } else if op.InterruptReturn? {
      RtiProblem(p, c, n, x);
    } else {
      assert Problems(p, n) == StatementProblems(p, n.index, n.state.w) + Transfer(op, n.state).1;
    }
  }
}
