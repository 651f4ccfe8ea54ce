/** A 65816 that executes the statements of one procedure, macros expanded and labels as the assembler
    resolves them. Its stack is a sequence of single bytes, return addresses included, and it knows
    nothing of the lint's types. */
module Cpu65816 {
  import opened Octets
  import opened Asm65816
  import opened AssemblerLabels

  /** One byte of stack memory, top of stack last in the sequence. `size` and `offset` say which
      byte of a push it is; offset zero is the byte a pull takes first. */
  datatype Cell =
    | Data(from: Register, size: nat, offset: nat, value: bv8)
    | ReturnByte(index: nat, far: bool, offset: nat)

  /** `pc` at the end of the statements means that control has left the procedure; `inside` is zero or
      counts the anonymous labels of a macro up to the one that control is at. */
  datatype Cpu = Cpu(pc: nat, w: Widths, stack: seq<Cell>, inside: nat)

  function Boot(entry: Widths): Cpu { Cpu(0, entry, [], 0) }

  /** The M flag (0x20) and the X flag (0x10) of a status byte. */
  function WidthsOf(status: bv8): Widths {
    Widths(if status & 0x20 != 0 then Eight else Sixteen, if status & 0x10 != 0 then Eight else Sixteen)
  }

  function ApplyToStatus(sets: bool, mask: bv8, w: Widths): Widths {
    var width := if sets then Eight else Sixteen;
    Widths(if mask & 0x20 != 0 then width else w.a, if mask & 0x10 != 0 then width else w.i)
  }

  function Switched(newA: Option<Width>, newI: Option<Width>, w: Widths): Widths {
    Widths(if newA.Some? then newA.value else w.a, if newI.Some? then newI.value else w.i)
  }

  function TransferSize(r: Register, w: Widths): nat {
    match r
    case RegA => w.a.Size()
    case RegX | RegY => w.i.Size()
    case RegP | RegB => 1
    case RegD | RawWord => 2
  }

  /** Exactly the bytes of one push of `size` bytes. */
  predicate IsPush(cells: seq<Cell>, from: Register, size: nat) {
    && |cells| == size
    && forall j | 0 <= j < size ::
         cells[j].Data? && cells[j].from == from && cells[j].size == size && cells[j].offset == size - 1 - j
  }

  predicate IsReturnAddress(cells: seq<Cell>, index: nat, far: bool) {
    && |cells| == ReturnSize(far)
    && forall j | 0 <= j < |cells| :: cells[j] == ReturnByte(index, far, |cells| - 1 - j)
  }

  function ReturnSize(far: bool): nat { if far then 3 else 2 }

  function TopCells(stack: seq<Cell>, n: nat): seq<Cell>
    requires n <= |stack|
  {
    stack[|stack| - n..]
  }

  /** The byte a half-consumed raw word leaves behind. */
  predicate IsRemainder(cell: Cell) {
    cell.Data? && cell.from == RawWord && cell.size == 2 && cell.offset == 1
  }

  /** Pulling into `r` takes a whole push of the same register, or raw bytes pushed for it:
      B may take either byte of a raw word, an 8-bit accumulator only the byte B left. */
  predicate PullFits(c: Cpu, r: Register) {
    var size := TransferSize(r, c.w);
    && size <= |c.stack|
    && var top := TopCells(c.stack, size);
       match r
       case RegA => IsPush(top, RegA, size) || (if size == 2 then IsPush(top, RawWord, 2) else IsRemainder(top[0]))
       case RegX | RegY => IsPush(top, r, size)
       case RegB => IsPush(top, RegB, 1) || (top[0].Data? && top[0].from == RawWord && top[0].size == 2)
       case RegD => IsPush(top, RegD, 2) || IsPush(top, RawWord, 2)
       case RegP | RawWord => false
  }

  predicate StatusOnTop(c: Cpu) {
    c.stack != [] && IsPush(TopCells(c.stack, 1), RegP, 1)
  }

  predicate CallerWidthsMatch(p: Procedure, callee: Target, w: Widths) {
    callee.Named? && !("@" <= callee.name) && callee.name in p.abis ==> p.abis[callee.name] == w
  }

  /** Control may go on elsewhere with nothing left on the stack and, where the target is a procedure, at its
      widths, which are those it comes back with. */
  predicate LeavesWell(p: Procedure, c: Cpu, to: Target)
    requires c.pc < |p.statements|
  {
    Assembled(p, c.pc, to).None? ==> c.stack == [] && TailFits(p, to, c.w)
  }

  predicate TailFits(p: Procedure, to: Target, w: Widths) {
    to.Named? && !("@" <= to.name) && to.name in p.abis ==> p.abis[to.name] == w && p.returnAbi == Some(w)
  }

  predicate AccessFits(p: Procedure, symbol: string, offset: nat, size: nat) {
    symbol in p.allocations ==> offset + size <= p.allocations[symbol]
  }

  /** What an RTS or RTL finds: its own return address on top, or with nothing left on the stack
      the end of the procedure at the widths it promises. */
  predicate ReturnFits(p: Procedure, c: Cpu, far: bool) {
    if c.stack == [] then p.returnAbi == Some(c.w)
    else
      && |c.stack| >= ReturnSize(far)
      && c.stack[|c.stack| - 1].ReturnByte?
      && IsReturnAddress(TopCells(c.stack, ReturnSize(far)), c.stack[|c.stack| - 1].index, far)
  }

  function Pulled(c: Cpu, r: Register): Cpu
    requires TransferSize(r, c.w) <= |c.stack|
  {
    c.(stack := c.stack[..|c.stack| - TransferSize(r, c.w)])
  }

  // ----- What a macro expands to -----

  /** The widths the assembler encodes immediates with behind a part. */
  function Encoded(e: Widths, part: Part): Widths {
    match part
    case Switch(newA, newI) => Switched(newA, newI, e)
    case Declare(newA, newI) => Switched(newA, newI, e)
    case _ => e
  }

  predicate PartFits(p: Procedure, c: Cpu, e: Widths, part: Part) {
    match part
    case Immediate(indexed) => if indexed then e.i == c.w.i else e.a == c.w.a
    case Touch(indexed, symbol, offset) => AccessFits(p, symbol, offset, (if indexed then c.w.i else c.w.a).Size())
    case Enter(abi) => c.w == abi
    case Taken(r) => PullFits(c, r)
    case Restored => StatusOnTop(c)
    case Switch(_, _) | Declare(_, _) | Pushed(_) => true
  }

  /** A status byte with M and X as they are and anything in the other bits. */
  function StatusByte(w: Widths, others: bv8): (status: bv8)
    ensures WidthsOf(status) == w
  {
    (others & 0xcf) | (if w.a == Eight then 0x20 else 0) | (if w.i == Eight then 0x10 else 0)
  }

  function Value(data: seq<bv8>, k: nat): bv8 { if k < |data| then data[k] else 0 }

  /** What a push puts on the stack, where `data` are the contents of the register. */
  function PushedBytes(r: Register, w: Widths, data: seq<bv8>): (bytes: seq<Cell>)
    ensures IsPush(bytes, r, TransferSize(r, w))
    ensures r == RegP ==> WidthsOf(bytes[0].value) == w
  {
    if r == RegP then [Data(r, 1, 0, StatusByte(w, Value(data, 0)))]
    else if TransferSize(r, w) == 1 then [Data(r, 1, 0, Value(data, 0))]
    else [Data(r, 2, 1, Value(data, 1)), Data(r, 2, 0, Value(data, 0))]
  }

  function PartDone(p: Procedure, c: Cpu, e: Widths, part: Part, data: seq<bv8>): Cpu
    requires PartFits(p, c, e, part)
  {
    match part
    case Switch(newA, newI) => c.(w := Switched(newA, newI, c.w))
    case Pushed(r) => c.(stack := c.stack + PushedBytes(r, c.w, data))
    case Taken(r) => Pulled(c, r)
    case Restored => c.(w := WidthsOf(c.stack[|c.stack| - 1].value), stack := c.stack[..|c.stack| - 1])
    case _ => c
  }

  /** Several parts in a row, if each of them fits; the registers hold `data` when they are pushed. */
  function RunParts(p: Procedure, c: Cpu, e: Widths, parts: seq<Part>, data: seq<bv8>): (r: Option<Cpu>)
    ensures r.Some? ==> r.value.pc == c.pc && r.value.inside == c.inside
    decreases |parts|
  {
    if parts == [] then Some(c)
    else if PartFits(p, c, e, parts[0]) then
      var rest := if |data| < 2 then [] else data[2..];
      RunParts(p, PartDone(p, c, e, parts[0], data), Encoded(e, parts[0]), parts[1..], rest)
    else None
  }

  /** The paths from where control is in a macro. */
  function PathsFrom(op: Op, inside: nat): seq<Path>
    requires op.Macro?
  {
    if inside == 0 then op.paths else if inside <= |op.entries| then op.entries[inside - 1] else []
  }

  predicate PathFits(p: Procedure, c: Cpu, e: Widths, path: Path, data: seq<bv8>)
    requires c.pc < |p.statements|
  {
    var d := RunParts(p, c, e, path.parts, data);
    && d.Some?
    && match path.end
       case Onward => true
       case Away(to) => LeavesWell(p, d.value, to)
       case Back(far) => ReturnFits(p, d.value, far)
  }

  /** Whatever way control takes and whatever the registers hold. */
  ghost predicate MacroFits(p: Procedure, c: Cpu, st: Statement)
    requires st.op.Macro? && c.pc < |p.statements|
  {
    var paths := PathsFrom(st.op, c.inside);
    forall j, data | 0 <= j < |paths| :: PathFits(p, c, st.encoded, paths[j], data)
  }

  /** The instruction at `pc` does what its source text says. */
  ghost predicate Fits(p: Procedure, c: Cpu)
    requires c.pc < |p.statements|
  {
    var st := p.statements[c.pc];
    match st.op
    case AccumulatorImmediate => st.encoded.a == c.w.a
    case IndexImmediate => st.encoded.i == c.w.i
    case AssertWidths(expected) => c.w == expected
    case Access(indexed, symbol, offset) =>
      AccessFits(p, symbol, offset, (if indexed then c.w.i else c.w.a).Size())
    case Increment32(symbol, offset) => AccessFits(p, symbol, offset, 4)
    case Pull(r) => PullFits(c, r)
    case PullStatus => StatusOnTop(c)
    case PullStatusAs(restored) =>
      StatusOnTop(c) && WidthsOf(c.stack[|c.stack| - 1].value) == restored
    case Call(_, callee) => CallerWidthsMatch(p, callee, c.w)
    case Return(far) => ReturnFits(p, c, far)
    case Macro(_, _, _) => MacroFits(p, c, st)
    case Jump(to) => LeavesWell(p, c, to)
    case Branch(to) => LeavesWell(p, c, to)
    case InterruptReturn => p.returnAbi.None? && c.stack == []
    case _ => true
  }

  /** Some way behind the statement, which is the last, runs into whatever follows the procedure. */
  predicate RunsOff(p: Procedure, k: nat, inside: nat)
    requires k < |p.statements|
  {
    && k + 1 == |p.statements|
    && match p.statements[k].op
       case Jump(_) | Return(_) | InterruptReturn | Halt => false
       case Macro(_, _, _) =>
         var paths := PathsFrom(p.statements[k].op, inside);
         exists j | 0 <= j < |paths| :: paths[j].end.Onward?
       case _ => true
  }

  ghost predicate Safe(p: Procedure, c: Cpu) {
    c.pc < |p.statements| ==> Fits(p, c) && !RunsOff(p, c.pc, c.inside)
  }

  ghost predicate Goes(c: Cpu, place: Place, c': Cpu) { c' == c.(pc := place.index, inside := place.inside) }

  /** Control moves to the target, or out of the procedure when the target is elsewhere. */
  function Destination(p: Procedure, k: nat, target: Target): Place
    requires k < |p.statements|
  {
    var r := Assembled(p, k, target);
    if r.Some? then r.value else Place(|p.statements|, 0)
  }

  function Behind(c: Cpu): Place { Place(c.pc + 1, 0) }

  /** A return that fits goes behind the call its address names; with an empty stack it leaves. */
  ghost predicate Returns(c: Cpu, far: bool, c': Cpu) {
    && ReturnSize(far) <= |c.stack| && c.stack[|c.stack| - 1].ReturnByte?
    && c' == c.(pc := c.stack[|c.stack| - 1].index, inside := 0, stack := c.stack[..|c.stack| - ReturnSize(far)])
  }

  /** One way through a macro has been taken. */
  ghost predicate PathTaken(p: Procedure, c: Cpu, e: Widths, path: Path, data: seq<bv8>, c': Cpu)
    requires c.pc < |p.statements|
  {
    var d := RunParts(p, c, e, path.parts, data);
    && d.Some?
    && match path.end
       case Onward => Goes(d.value, Behind(c), c')
       case Away(to) => Goes(d.value, Destination(p, c.pc, to), c')
       case Back(far) => Returns(d.value, far, c')
  }

  ghost predicate MacroStep(p: Procedure, c: Cpu, c': Cpu)
    requires c.pc < |p.statements| && p.statements[c.pc].op.Macro?
  {
    var st := p.statements[c.pc];
    var paths := PathsFrom(st.op, c.inside);
    exists j, data | 0 <= j < |paths| :: PathTaken(p, c, st.encoded, paths[j], data, c')
  }

  /** One safe instruction. Branch outcomes and data bytes are arbitrary, and a call that leaves
      the procedure comes back behind the call with the caller's widths and stack. */
  ghost predicate Step(p: Procedure, c: Cpu, c': Cpu) {
    && c.pc < |p.statements|
    && Safe(p, c)
    && match p.statements[c.pc].op
       case WidthMacro(a, i) => c' == c.(pc := c.pc + 1, w := Switched(a, i, c.w))
       case StatusImmediate(sets, mask) =>
         exists actual: bv8 ::
           && (mask.Some? ==> actual == mask.value)
           && c' == c.(pc := c.pc + 1, w := ApplyToStatus(sets, actual, c.w))
       case Push(r) =>
         exists bytes: seq<Cell> ::
           && IsPush(bytes, r, TransferSize(r, c.w))
           && (r == RegP ==> WidthsOf(bytes[0].value) == c.w)
           && c' == c.(pc := c.pc + 1, stack := c.stack + bytes)
       case PushProgramBank =>
         exists v: bv8 :: c' == c.(pc := c.pc + 1, stack := c.stack + [Data(RegB, 1, 0, v)])
       case Increment32(_, _) => c' == c.(pc := c.pc + 1, w := c.w.(a := Sixteen))
       case Pull(r) => c' == c.(pc := c.pc + 1, stack := c.stack[..|c.stack| - TransferSize(r, c.w)])
       case PullStatus =>
         c' == Cpu(c.pc + 1, WidthsOf(c.stack[|c.stack| - 1].value), c.stack[..|c.stack| - 1], 0)
       case PullStatusAs(_) =>
         c' == Cpu(c.pc + 1, WidthsOf(c.stack[|c.stack| - 1].value), c.stack[..|c.stack| - 1], 0)
       case Jump(to) => Goes(c, Destination(p, c.pc, to), c')
       case Branch(to) => Goes(c, Behind(c), c') || Goes(c, Destination(p, c.pc, to), c')
       case Call(far, callee) =>
         var r := Assembled(p, c.pc, callee);
         if r.None? then Goes(c, Behind(c), c')
         else
           exists address: seq<Cell> ::
             && IsReturnAddress(address, c.pc + 1, far)
             && c' == c.(pc := r.value.index, inside := r.value.inside, stack := c.stack + address)
       case Return(far) => Returns(c, far, c')
       case Macro(_, _, _) => MacroStep(p, c, c')
       case InterruptReturn | Halt => false
       case _ => Goes(c, Behind(c), c')
  }

  ghost predicate IsRun(p: Procedure, entry: Widths, run: seq<Cpu>) {
    && run != []
    && run[0] == Boot(entry)
    && (forall j | 0 <= j < |run| - 1 :: Step(p, run[j], run[j + 1]))
  }

  /** No path through the procedure misbehaves. */
  ghost predicate AllRunsSafe(p: Procedure, entry: Widths) {
    forall run | IsRun(p, entry, run) :: Safe(p, run[|run| - 1])
  }
}
