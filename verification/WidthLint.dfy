/** The abstract side of the width lint: typed stacks, the transfer function,
    entry normalisation and the problems found at one statement. */
module WidthLint {
  import opened Octets
  import opened Asm65816

  datatype Item =
    | Register8Or16(register: Register, width: Width)       // pushed by PHA, PHX or PHY
    | Status(saved: Widths)
    | Bank
    | DirectPage
    | RawByte
    | RawPair

  /** Context of an active local subroutine: where it returns to and the stack at the call. */
  datatype Frame = Frame(returnIndex: nat, stack: seq<Item>)

  datatype State = State(w: Widths, stack: seq<Item>, calls: seq<Frame>)

  /** A statement index together with the state control flow has there. */
  datatype Node = Node(index: nat, state: State)

  datatype Problem =
    | ImmediateWidth | CallAbi | AccessTooWide | AssertFails
    | PullMismatch | StatusMismatch | RestoreMismatch
    | UnbalancedLocalReturn | ReturnInInterrupt | StackLeftBehind | ReturnAbi
    | RtiOutsideInterrupt | RtiInSubroutine | RtiStackLeftBehind
    | IncompatibleMerge

  datatype Diagnostic = Diagnostic(index: nat, problem: Problem)

  function InitialNode(entry: Widths): Node { Node(0, State(entry, [], [])) }

  function Top(stack: seq<Item>): Option<Item> {
    if stack == [] then None else Some(stack[|stack| - 1])
  }

  function Popped(stack: seq<Item>): seq<Item> {
    if stack == [] then [] else stack[..|stack| - 1]
  }

  function WidthOf(w: Widths, r: Register): Width { if r == RegA then w.a else w.i }

  function PushedItem(w: Widths, r: Register): Item {
    match r
    case RegA | RegX | RegY => Register8Or16(r, WidthOf(w, r))
    case RegP => Status(w)
    case RegB => Bank
    case RegD => DirectPage
    case RawWord => RawPair
  }

  /** Whether a pull into `r` finds something it may take on top of the typed stack. */
  predicate PullAccepts(w: Widths, r: Register, top: Option<Item>) {
    match r
    case RegA =>
      || top == Some(Register8Or16(RegA, w.a))
      || (w.a == Sixteen && top == Some(RawPair))
      || (w.a == Eight && top == Some(RawByte))
    case RegX | RegY => top == Some(Register8Or16(r, w.i))
    case RegB => top == Some(Bank) || top == Some(RawByte) || top == Some(RawPair)
    case RegD => top == Some(DirectPage) || top == Some(RawPair)
    case RegP | RawWord => false
  }

  function AfterPull(r: Register, stack: seq<Item>): seq<Item> {
    if r == RegB && Top(stack) == Some(RawPair) then Popped(stack) + [RawByte] else Popped(stack)
  }

  function ApplyMacro(op: Op, w: Widths): Widths
    requires op.WidthMacro?
  {
    Widths(if op.newA.Some? then op.newA.value else w.a,
           if op.newI.Some? then op.newI.value else w.i)
  }

  /** REP clears and SEP sets the bits of the mask; a set M or X bit means eight bits wide. */
  function ApplyMask(sets: bool, mask: bv8, w: Widths): Widths {
    var width := if sets then Eight else Sixteen;
    Widths(if mask & 0x20 != 0 then width else w.a, if mask & 0x10 != 0 then width else w.i)
  }

  /** The first statement at or after `k` that is not a label, if any. */
  function Normalizer(p: Procedure, k: nat): Option<Op>
    decreases |p.statements| - k
  {
    if k >= |p.statements| then None
    else if p.statements[k].op.Label? then Normalizer(p, k + 1)
    else Some(p.statements[k].op)
  }

  /** Labels in front of a width macro record the widths the macro is about to establish. */
  function Normalize(p: Procedure, k: nat, w: Widths): Widths {
    match Normalizer(p, k)
    case Some(WidthMacro(a, i)) => ApplyMacro(WidthMacro(a, i), w)
    case _ => w
  }

  /** The widths the lint takes the assembler to encode immediates with, as far as it has read any. */
  datatype Tracked = Tracked(a: Option<Width>, i: Option<Width>)

  function TrackedAfter(op: Op, t: Tracked): Tracked {
    match op
    case WidthMacro(newA, newI) => Tracked(if newA.Some? then newA else t.a, if newI.Some? then newI else t.i)
    case Directive(newA, newI) => Tracked(if newA.Some? then newA else t.a, if newI.Some? then newI else t.i)
    case AssertWidths(expected) => Tracked(Some(expected.a), Some(expected.i))
    case _ => t
  }

  /** What the statements in front of `k` say, in the order of the text. */
  function TrackedAt(p: Procedure, k: nat): Tracked
    requires k <= |p.statements|
  {
    if k == 0 then Tracked(None, None) else TrackedAfter(p.statements[k - 1].op, TrackedAt(p, k - 1))
  }

  predicate ImmediateProblem(p: Procedure, k: nat, w: Widths)
    requires k < |p.statements|
  {
    || (p.statements[k].op.AccumulatorImmediate? && TrackedAt(p, k).a != Some(w.a))
    || (p.statements[k].op.IndexImmediate? && TrackedAt(p, k).i != Some(w.i))
  }

  /** A callee named like an ordinary procedure must be entered at its declared widths. */
  predicate CallProblem(p: Procedure, op: Op, w: Widths) {
    && op.Call? && op.callee.Named?
    && !("@" <= op.callee.name)
    && op.callee.name in p.abis
    && p.abis[op.callee.name] != w
  }

  predicate AccessProblem(p: Procedure, op: Op, w: Widths) {
    match op
    case Access(indexed, symbol, offset) =>
      symbol in p.allocations && offset + (if indexed then w.i else w.a).Size() > p.allocations[symbol]
    case Increment32(symbol, offset) =>
      symbol in p.allocations && offset + 4 > p.allocations[symbol]
    case _ => false
  }

  function StatementProblems(p: Procedure, k: nat, w: Widths): set<Problem>
    requires k < |p.statements|
  {
    (if ImmediateProblem(p, k, w) then {ImmediateWidth} else {})
    + (if CallProblem(p, p.statements[k].op, w) then {CallAbi} else {})
    + (if AccessProblem(p, p.statements[k].op, w) then {AccessTooWide} else {})
  }

  /** The state after a statement that is neither a return nor an RTI; None where control flow ends. */
  function Transfer(op: Op, s: State): (Option<State>, set<Problem>) {
    match op
    case WidthMacro(_, _) => (Some(s.(w := ApplyMacro(op, s.w))), {})
    case AssertWidths(expected) => (Some(s), if s.w == expected then {} else {AssertFails})
    case StatusImmediate(sets, mask) =>
      (Some(if mask.Some? then s.(w := ApplyMask(sets, mask.value, s.w)) else s), {})
    case Push(r) => (Some(s.(stack := s.stack + [PushedItem(s.w, r)])), {})
    case Pull(r) =>
      (Some(s.(stack := AfterPull(r, s.stack))),
       if PullAccepts(s.w, r, Top(s.stack)) then {} else {PullMismatch})
    case PullStatus =>
      (match Top(s.stack)
       case Some(Status(saved)) => (Some(s.(w := saved, stack := Popped(s.stack))), {})
       case _ => (Some(s.(stack := Popped(s.stack))), {StatusMismatch}))
    case PullStatusAs(restored) =>
      if Top(s.stack) == Some(Status(restored))
      then (Some(s.(w := restored, stack := Popped(s.stack))), {})
      else (Some(s.(stack := Popped(s.stack))), {RestoreMismatch})
    case InterruptReturn | Halt => (None, {})
    case Macro(terminal, _, _) => (if terminal then None else Some(s), {})
    case _ => (Some(s), {})
  }

  function ReturnProblems(p: Procedure, s: State): set<Problem> {
    if s.calls != [] then
      if s.stack == s.calls[|s.calls| - 1].stack then {} else {UnbalancedLocalReturn}
    else if p.returnAbi.None? then {ReturnInInterrupt}
    else
      (if s.stack == [] then {} else {StackLeftBehind})
      + (if s.w == p.returnAbi.value then {} else {ReturnAbi})
  }

  function RtiProblems(p: Procedure, s: State): set<Problem> {
    if p.returnAbi.Some? then {RtiOutsideInterrupt}
    else
      (if s.calls == [] then {} else {RtiInSubroutine})
      + (if s.stack == [] then {} else {RtiStackLeftBehind})
  }

  /** Everything the lint reports while it processes one node, merges aside. */
  function Problems(p: Procedure, n: Node): set<Problem> {
    if n.index >= |p.statements| then {} else
    var st := p.statements[n.index];
    StatementProblems(p, n.index, n.state.w)
    + match st.op
      case Return(_) => ReturnProblems(p, n.state)
      case InterruptReturn => RtiProblems(p, n.state)
      case _ => Transfer(st.op, n.state).1
  }

  function Successors(p: Procedure, k: nat): seq<nat>
    requires k < |p.statements|
  {
    var next := if k + 1 < |p.statements| then [k + 1] else [];
    match p.statements[k].op
    case Return(_) | InterruptReturn | Halt => []
    case Jump(t) =>
      var r := Resolve(p, k, t);
      if r.Some? then [r.value] else []
    case Branch(t) =>
      var r := Resolve(p, k, t);
      if r.Some? && r.value !in next then next + [r.value] else next
    case _ => next
  }

  /** One node for every successor of statement `k`, all in the same state. */
  function Onward(p: Procedure, k: nat, s: State): seq<Node>
    requires k < |p.statements|
  {
    seq(|Successors(p, k)|, j requires 0 <= j < |Successors(p, k)| => Node(Successors(p, k)[j], s))
  }

  /** The nodes control flow moves to from `n`, before they are normalised and merged. */
  function RawTargets(p: Procedure, n: Node): seq<Node> {
    if n.index >= |p.statements| then [] else
    var (k, s) := (n.index, n.state);
    match p.statements[k].op
    case Return(_) =>
      if s.calls != [] && s.stack == s.calls[|s.calls| - 1].stack
      then [Node(s.calls[|s.calls| - 1].returnIndex, s.(calls := s.calls[..|s.calls| - 1]))]
      else []
    case Call(_, callee) =>
      var entered := Resolve(p, k, callee);
      if entered.Some? then [Node(entered.value, s.(calls := s.calls + [Frame(k + 1, s.stack)]))] else Onward(p, k, s)
    case op =>
      var after := Transfer(op, s).0;
      if after.Some? then Onward(p, k, after.value) else []
  }

  function Normalized(p: Procedure, n: Node): Node {
    n.(state := n.state.(w := Normalize(p, n.index, n.state.w)))
  }

  /** `m` is merged while `n` is processed; targets outside the procedure are dropped. */
  predicate Flows(p: Procedure, n: Node, m: Node) {
    m.index < |p.statements| && exists j | 0 <= j < |RawTargets(p, n)| :: m == Normalized(p, RawTargets(p, n)[j])
  }

  // ----- What a clean lint means, without reference to the worklist -----

  ghost predicate IsPath(p: Procedure, entry: Widths, path: seq<Node>) {
    && path != []
    && path[0] == InitialNode(entry)
    && (forall j | 0 <= j < |path| - 1 :: Flows(p, path[j], path[j + 1]))
  }

  ghost predicate Reachable(p: Procedure, entry: Widths, n: Node) {
    exists path :: IsPath(p, entry, path) && path[|path| - 1] == n
  }

  /** Two states of one statement under the same call context must be equal. */
  predicate Conflict(m: Node, n: Node) {
    m.index == n.index && m.state.calls == n.state.calls && m.state != n.state
  }

  ghost predicate Clean(p: Procedure, entry: Widths) {
    && (forall n | Reachable(p, entry, n) :: Problems(p, n) == {})
    && (forall m, n | Reachable(p, entry, m) && Reachable(p, entry, n) :: !Conflict(m, n))
  }

  lemma ReachableStart(p: Procedure, entry: Widths)
    ensures Reachable(p, entry, InitialNode(entry))
  {
    assert IsPath(p, entry, [InitialNode(entry)]);
  }

  lemma ReachableStep(p: Procedure, entry: Widths, n: Node, m: Node)
    requires Reachable(p, entry, n) && Flows(p, n, m)
    ensures Reachable(p, entry, m)
  {
    var path :| IsPath(p, entry, path) && path[|path| - 1] == n;
    var longer := path + [m];
    assert IsPath(p, entry, longer);
  }

  /** A set of nodes that holds the entry and is closed under control flow holds every reachable node. */
  lemma {:induction false} ClosedSetHoldsReachable(p: Procedure, entry: Widths, closed: set<Node>, n: Node)
    requires InitialNode(entry) in closed
    requires forall m, m' | m in closed && Flows(p, m, m') :: m' in closed
    requires Reachable(p, entry, n)
    ensures n in closed
  {
    var path :| IsPath(p, entry, path) && path[|path| - 1] == n;
    var j := 0;
    while j < |path| - 1
      invariant 0 <= j < |path| && path[j] in closed
    {
      assert Flows(p, path[j], path[j + 1]);
      j := j + 1;
    }
  }
}
