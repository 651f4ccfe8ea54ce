/** What a clean lint says about the machine: step by step, each of the two follows the other. */
module LintSoundness {
  import opened Octets
  import opened Asm65816
  import opened AssemblerLabels
  import opened WidthLint
  import opened Cpu65816
  import opened LintStack
  import opened LintMacros
  import opened LintFaults

  /** `c` stands where the unmerged target `t` says, with widths that merge to the same. */
  predicate Tracks(p: Procedure, c: Cpu, t: Node) {
    && c.pc == t.index && c.inside == 0
    && Normalize(p, c.pc, t.state.w) == Normalize(p, c.pc, c.w)
    && Layout(p, t.state.calls, t.state.stack, c.stack)
  }

  /** The state behind a statement that neither returns nor calls within the procedure. */
  predicate HasEffect(p: Procedure, c: Cpu, c': Cpu, n: Node) {
    && n.index < |p.statements|
    && var after := Transfer(p.statements[n.index].op, n.state).0;
       && after.Some?
       && after.value.calls == n.state.calls
       && Layout(p, n.state.calls, after.value.stack, c'.stack)
       && (p.statements[n.index].op.Label? || after.value.w == c'.w)
       && (p.statements[n.index].op.Label? ==> c'.w == c.w && after.value.w == n.state.w)
  }

  predicate IsTransfer(p: Procedure, k: nat) {
    && k < |p.statements|
    && match p.statements[k].op
       case Return(_) | InterruptReturn | Halt => false
       case Macro(terminal, _, _) => !terminal
       case Call(_, callee) => Resolve(p, k, callee).None?
       case _ => true
  }

  lemma PushEffect(p: Procedure, c: Cpu, c': Cpu, n: Node)
    requires Simulates(p, c, n) && Undisturbed(p, n) && Step(p, c, c') && p.statements[c.pc].op.Push?
    ensures HasEffect(p, c, c', n)
  {
    var r := p.statements[c.pc].op.from;
    var bytes: seq<Cell> :|
      && IsPush(bytes, r, TransferSize(r, c.w)) && (r == RegP ==> WidthsOf(bytes[0].value) == c.w)
      && c' == c.(pc := c.pc + 1, stack := c.stack + bytes);
    NormalizeIsLocal(p, c.pc, c.w);
    LayoutPush(p, n.state.calls, n.state.stack, c.stack, PushedItem(c.w, r), bytes);
  }

  lemma PullMoves(p: Procedure, c: Cpu, c': Cpu)
    requires Step(p, c, c') && p.statements[c.pc].op.Pull?
    ensures var size := TransferSize(p.statements[c.pc].op.into, c.w);
            size <= |c.stack| && c' == c.(pc := c.pc + 1, stack := c.stack[..|c.stack| - size])
  {
  }

  /** What a statement that pulls finds when it is undisturbed. */
  predicate PullReady(p: Procedure, c: Cpu, n: Node) {
    && n.index == c.pc < |p.statements| && n.state.w == c.w
    && Layout(p, n.state.calls, n.state.stack, c.stack) && AboveFloor(n.state)
    && var top := n.state.stack[|n.state.stack| - 1];
       match p.statements[c.pc].op
       case Pull(r) => PullAccepts(n.state.w, r, Some(top))
       case PullStatus => top.Status?
       case PullStatusAs(restored) => top == Status(restored)
       case _ => false
  }

  lemma PullIsReady(p: Procedure, c: Cpu, n: Node)
    requires Simulates(p, c, n) && Undisturbed(p, n) && c.pc < |p.statements| && Pulls(p.statements[c.pc].op)
    ensures PullReady(p, c, n)
  {
    NormalizeIsLocal(p, c.pc, c.w);
    PullProblems(p, n);
  }

  lemma TypedPullEffect(p: Procedure, c: Cpu, c': Cpu, n: Node)
    requires n.index < |p.statements| && p.statements[n.index].op.Pull? && c'.w == c.w == n.state.w
    requires Layout(p, n.state.calls, AfterPull(p.statements[n.index].op.into, n.state.stack), c'.stack)
    ensures HasEffect(p, c, c', n)
  {
  }

  lemma PullEffect(p: Procedure, c: Cpu, c': Cpu, n: Node)
    requires PullReady(p, c, n) && p.statements[c.pc].op.Pull? && c'.w == c.w
    requires |c'.stack| + TransferSize(p.statements[c.pc].op.into, c.w) == |c.stack|
             && c'.stack == c.stack[..|c'.stack|]
    ensures HasEffect(p, c, c', n)
  {
    PullLayout(p, n.state, c.stack, p.statements[c.pc].op.into, c'.stack);
    TypedPullEffect(p, c, c', n);
  }

  lemma TypedStatusEffect(p: Procedure, c: Cpu, c': Cpu, n: Node)
    requires n.index < |p.statements| && n.state.stack != [] && n.state.stack[|n.state.stack| - 1].Status?
    requires var op := p.statements[n.index].op;
             op == PullStatus || op == PullStatusAs(n.state.stack[|n.state.stack| - 1].saved)
    requires c'.w == n.state.stack[|n.state.stack| - 1].saved
    requires Layout(p, n.state.calls, Popped(n.state.stack), c'.stack)
    ensures HasEffect(p, c, c', n)
  {
  }

  lemma StatusIsReady(p: Procedure, c: Cpu, n: Node)
    requires PullReady(p, c, n) && !p.statements[c.pc].op.Pull?
    ensures AboveFloor(n.state) && n.state.stack[|n.state.stack| - 1].Status?
    ensures var op := p.statements[n.index].op;
            op == PullStatus || op == PullStatusAs(n.state.stack[|n.state.stack| - 1].saved)
    ensures Layout(p, n.state.calls, n.state.stack, c.stack)
  {
  }

  lemma StatusEffect(p: Procedure, c: Cpu, c': Cpu, n: Node)
    requires PullReady(p, c, n) && !p.statements[c.pc].op.Pull?
    requires c.stack != [] && c.stack[|c.stack| - 1].Data?
    requires c'.w == WidthsOf(c.stack[|c.stack| - 1].value) && c'.stack == c.stack[..|c.stack| - 1]
    ensures HasEffect(p, c, c', n)
  {
    StatusIsReady(p, c, n);
    StatusTaken(p, n.state, c, c'.stack);
    TypedStatusEffect(p, c, c', n);
  }

  /** Statements that move no bytes on the stack. */
  lemma StacklessEffect(p: Procedure, c: Cpu, c': Cpu, n: Node)
    requires Simulates(p, c, n) && !BlindSpot(p, n) && Step(p, c, c') && IsTransfer(p, c.pc)
    requires !p.statements[c.pc].op.Push? && !Pulls(p.statements[c.pc].op) && !p.statements[c.pc].op.Macro?
    ensures HasEffect(p, c, c', n)
  {
    if !p.statements[c.pc].op.Label? && !p.statements[c.pc].op.WidthMacro? {
      NormalizeIsLocal(p, c.pc, c.w);
    }
  }

  /** A path that returns although nothing strays finds the end of the procedure: there is no step. */
  lemma ReturningEnds(p: Procedure, c: Cpu, c': Cpu, n: Node, path: Path, data: seq<bv8>)
    requires n.index == c.pc < |p.statements| && p.statements[c.pc].op.Macro? && Alike(p, n.state, c)
    requires var e := p.statements[c.pc].encoded;
             PathAccepts(p, c.pc, n.state, e, path) && !Strays(p, n, path) && path.end.Back?
    ensures !PathTaken(p, c, p.statements[c.pc].encoded, path, data, c')
  {
    var e := p.statements[c.pc].encoded;
    PartsAreExact(p, n.state, c, e, path.parts, data);
    EmptyIsExact(p, FollowParts(p, n.state, e, path.parts).value, RunParts(p, c, e, path.parts, data).value);
  }

  /** A way through a macro that does not stray stays in the procedure only by going on with nothing changed. */
  lemma PathIsOnward(p: Procedure, c: Cpu, c': Cpu, n: Node, path: Path, data: seq<bv8>)
    requires n.index == c.pc < |p.statements| && p.statements[c.pc].op.Macro? && Alike(p, n.state, c)
    requires var e := p.statements[c.pc].encoded;
             PathAccepts(p, c.pc, n.state, e, path) && !Strays(p, n, path) && PathTaken(p, c, e, path, data, c')
    requires c'.pc < |p.statements|
    ensures !p.statements[c.pc].op.terminal && c'.pc == c.pc + 1 && c'.inside == 0 && Alike(p, n.state, c')
  {
    if path.end.Back? {
      ReturningEnds(p, c, c', n, path, data);
    } else {
      PartsAreExact(p, n.state, c, p.statements[c.pc].encoded, path.parts, data);
    }
  }

  lemma MacroIsOnward(p: Procedure, c: Cpu, c': Cpu, n: Node)
    requires Simulates(p, c, n) && Undisturbed(p, n) && Step(p, c, c') && p.statements[c.pc].op.Macro?
    requires c'.pc < |p.statements|
    ensures !p.statements[c.pc].op.terminal && c'.pc == c.pc + 1 && c'.inside == 0
    ensures n.state.w == c.w && Alike(p, n.state, c')
  {
    var st := p.statements[c.pc];
    NormalizeIsLocal(p, c.pc, c.w);
    assert MacroAccepts(p, c.pc, n.state) && MacroStep(p, c, c') && PathsFrom(st.op, c.inside) == st.op.paths;
    var j, data :| 0 <= j < |st.op.paths| && PathTaken(p, c, st.encoded, st.op.paths[j], data, c');
    assert !Strays(p, n, st.op.paths[j]);
    PathIsOnward(p, c, c', n, st.op.paths[j], data);
  }

  lemma StepHasEffect(p: Procedure, c: Cpu, c': Cpu, n: Node)
    requires Simulates(p, c, n) && Undisturbed(p, n) && Step(p, c, c') && IsTransfer(p, c.pc)
    requires p.statements[c.pc].op.Macro? ==> c'.pc < |p.statements|
    ensures HasEffect(p, c, c', n)
  {
    var op := p.statements[c.pc].op;
    if op.Push? {
      PushEffect(p, c, c', n);
    } else if op.Pull? {
      PullMoves(p, c, c');
      PullIsReady(p, c, n);
      PullEffect(p, c, c', n);
    } else if op.PullStatus? || op.PullStatusAs? {
      PullIsReady(p, c, n);
      StatusEffect(p, c, c', n);
    } else if op.Macro? {
      MacroIsOnward(p, c, c', n);
    } else {
      StacklessEffect(p, c, c', n);
    }
  }

  /** After a transfer the machine tracks the target at its new program counter. */
  lemma EffectTracks(p: Procedure, c: Cpu, c': Cpu, n: Node)
    requires Simulates(p, c, n) && HasEffect(p, c, c', n)
    requires c'.inside == 0 && (p.statements[c.pc].op.Label? ==> c'.pc == c.pc + 1)
    ensures Tracks(p, c', Node(c'.pc, Transfer(p.statements[c.pc].op, n.state).0.value))
  {
  }

  lemma TargetAt(p: Procedure, n: Node, pc: nat) returns (m: Node)
    requires IsTransfer(p, n.index) && Transfer(p.statements[n.index].op, n.state).0.Some?
    requires pc in Successors(p, n.index) && pc < |p.statements|
    ensures m == Normalized(p, Node(pc, Transfer(p.statements[n.index].op, n.state).0.value)) && Flows(p, n, m)
  {
    var j :| 0 <= j < |Successors(p, n.index)| && Successors(p, n.index)[j] == pc;
    m := Normalized(p, RawTargets(p, n)[j]);
  }

  lemma StepGoesToSuccessor(p: Procedure, c: Cpu, c': Cpu, n: Node)
    requires Step(p, c, c') && IsTransfer(p, c.pc) && c'.pc < |p.statements|
    requires Simulates(p, c, n) && Undisturbed(p, n)
    ensures c'.pc in Successors(p, c.pc) && c'.inside == 0
    ensures p.statements[c.pc].op.Label? ==> c'.pc == c.pc + 1
  {
    if p.statements[c.pc].op.Macro? { MacroIsOnward(p, c, c', n); }
  }

  lemma CallTarget(p: Procedure, n: Node)
    requires n.index < |p.statements| && p.statements[n.index].op.Call?
    requires Resolve(p, n.index, p.statements[n.index].op.callee).Some?
    ensures var s := n.state;
            RawTargets(p, n) == [Node(Resolve(p, n.index, p.statements[n.index].op.callee).value,
                                      s.(calls := s.calls + [Frame(n.index + 1, s.stack)]))]
  {
  }

  lemma CallMoves(p: Procedure, c: Cpu, c': Cpu) returns (address: seq<Cell>)
    requires Step(p, c, c') && p.statements[c.pc].op.Call? && c.inside == 0
    requires Resolve(p, c.pc, p.statements[c.pc].op.callee).Some?
    requires !Misresolved(p, c.pc, p.statements[c.pc].op.callee)
    ensures var op := p.statements[c.pc].op;
            && IsReturnAddress(address, c.pc + 1, op.far)
            && c' == c.(pc := Resolve(p, c.pc, op.callee).value, stack := c.stack + address)
  {
    var op := p.statements[c.pc].op;
    var place := Assembled(p, c.pc, op.callee).value;
    address :|
      && IsReturnAddress(address, c.pc + 1, op.far)
      && c' == c.(pc := place.index, inside := place.inside, stack := c.stack + address);
  }

  lemma CallLands(p: Procedure, c: Cpu, c': Cpu, n: Node, address: seq<Cell>) returns (m: Node)
    requires Simulates(p, c, n) && c.pc < |p.statements| && p.statements[c.pc].op.Call?
    requires Resolve(p, c.pc, p.statements[c.pc].op.callee).Some?
    requires IsReturnAddress(address, c.pc + 1, p.statements[c.pc].op.far)
    requires c' == c.(pc := Resolve(p, c.pc, p.statements[c.pc].op.callee).value, stack := c.stack + address)
    ensures Flows(p, n, m) && Simulates(p, c', m)
    ensures |RawTargets(p, n)| == 1 && m == Normalized(p, RawTargets(p, n)[0])
  {
    NormalizeIsLocal(p, c.pc, c.w);
    LayoutCall(p, n.state.calls, n.state.stack, c.stack, Frame(c.pc + 1, n.state.stack), address);
    CallTarget(p, n);
    m := Normalized(p, RawTargets(p, n)[0]);
  }

  lemma CallTracks(p: Procedure, c: Cpu, c': Cpu, n: Node) returns (m: Node)
    requires Simulates(p, c, n) && !BlindSpot(p, n) && Step(p, c, c')
    requires p.statements[c.pc].op.Call? && Resolve(p, c.pc, p.statements[c.pc].op.callee).Some?
    ensures Flows(p, n, m) && Simulates(p, c', m)
    ensures |RawTargets(p, n)| == 1 && m == Normalized(p, RawTargets(p, n)[0])
  {
    var address := CallMoves(p, c, c');
    m := CallLands(p, c, c', n, address);
  }

  lemma ReturnLands(p: Procedure, c': Cpu, n: Node) returns (m: Node)
    requires n.index < |p.statements| && p.statements[n.index].op.Return? && n.state.calls != []
    requires Balanced(p, n.state, p.statements[n.index].op.far)
    requires c'.pc == n.state.calls[|n.state.calls| - 1].returnIndex < |p.statements| && c'.inside == 0
    requires c'.w == n.state.w && Layout(p, n.state.calls[..|n.state.calls| - 1], n.state.stack, c'.stack)
    ensures Flows(p, n, m) && Simulates(p, c', m)
    ensures |RawTargets(p, n)| == 1 && m == Normalized(p, RawTargets(p, n)[0])
  {
    var t := Node(c'.pc, n.state.(calls := n.state.calls[..|n.state.calls| - 1]));
    m := Normalized(p, t);
    assert RawTargets(p, n) == [t] && RawTargets(p, n)[0] == t;
  }

  lemma ReturnTracks(p: Procedure, c: Cpu, c': Cpu, n: Node) returns (m: Node)
    requires Simulates(p, c, n) && Undisturbed(p, n) && c.pc < |p.statements| && p.statements[c.pc].op.Return?
    requires c.stack != [] && c.stack[|c.stack| - 1].ReturnByte? && ReturnSize(p.statements[c.pc].op.far) <= |c.stack|
    requires c' == c.(pc := c.stack[|c.stack| - 1].index,
                      stack := c.stack[..|c.stack| - ReturnSize(p.statements[c.pc].op.far)])
    requires c'.pc < |p.statements|
    ensures Flows(p, n, m) && Simulates(p, c', m)
    ensures |RawTargets(p, n)| == 1 && m == Normalized(p, RawTargets(p, n)[0])
  {
    NormalizeIsLocal(p, c.pc, c.w);
    ReturnFaultIs(p, n);
    EmptyIsExact(p, n.state, c);
    ReturnFindsAddress(p, n.state, c.stack);
    m := ReturnLands(p, c', n);
  }

  /** Whatever the machine does next, the lint follows it. */
  lemma LintFollowsMachine(p: Procedure, c: Cpu, c': Cpu, n: Node) returns (m: Node)
    requires Simulates(p, c, n) && Undisturbed(p, n) && Step(p, c, c') && c'.pc < |p.statements|
    ensures Flows(p, n, m) && Simulates(p, c', m)
  {
    if IsTransfer(p, c.pc) {
      StepHasEffect(p, c, c', n);
      StepGoesToSuccessor(p, c, c', n);
      EffectTracks(p, c, c', n);
      m := TargetAt(p, n, c'.pc);
    } else if p.statements[c.pc].op.Call? {
      m := CallTracks(p, c, c', n);
    } else if p.statements[c.pc].op.Return? {
      m := ReturnTracks(p, c, c', n);
    } else {
      MacroIsOnward(p, c, c', n);
      assert false;
    }
  }
}
