/** The expansion of a macro on the typed stack, which the lint does not look at: whether it fits, exactly,
    and what it leaves. */
module LintMacros {
  import opened Octets
  import opened Asm65816
  import opened WidthLint
  import opened AssemblerLabels
  import opened Cpu65816
  import opened LintStack

  predicate PartAccepts(p: Procedure, s: State, e: Widths, part: Part) {
    match part
    case Immediate(indexed) => if indexed then e.i == s.w.i else e.a == s.w.a
    case Touch(indexed, symbol, offset) => AccessFits(p, symbol, offset, (if indexed then s.w.i else s.w.a).Size())
    case Enter(abi) => s.w == abi
    case Taken(r) => AboveFloor(s) && PullAccepts(s.w, r, Top(s.stack))
    case Restored => AboveFloor(s) && s.stack[|s.stack| - 1].Status?
    case Switch(_, _) | Declare(_, _) | Pushed(_) => true
  }

  function PartLeaves(p: Procedure, s: State, e: Widths, part: Part): (r: State)
    requires PartAccepts(p, s, e, part)
    ensures r.calls == s.calls
  {
    match part
    case Switch(newA, newI) => s.(w := Switched(newA, newI, s.w))
    case Pushed(r) => s.(stack := s.stack + [PushedItem(s.w, r)])
    case Taken(r) => s.(stack := AfterPull(r, s.stack))
    case Restored => s.(w := s.stack[|s.stack| - 1].saved, stack := Popped(s.stack))
    case _ => s
  }

  function FollowParts(p: Procedure, s: State, e: Widths, parts: seq<Part>): (r: Option<State>)
    ensures r.Some? ==> r.value.calls == s.calls
    decreases |parts|
  {
    if parts == [] then Some(s)
    else if PartAccepts(p, s, e, parts[0]) then
      FollowParts(p, PartLeaves(p, s, e, parts[0]), Encoded(e, parts[0]), parts[1..])
    else None
  }

  /** A jump out of the procedure leaves nothing behind. */
  predicate MayLeave(p: Procedure, k: nat, s: State, to: Target)
    requires k < |p.statements|
  {
    Assembled(p, k, to).None? ==> s.calls == [] && s.stack == [] && TailFits(p, to, s.w)
  }

  /** Every part fits, and a return or a jump finds what it should. */
  predicate PathAccepts(p: Procedure, k: nat, s: State, e: Widths, path: Path)
    requires k < |p.statements|
  {
    var t := FollowParts(p, s, e, path.parts);
    && t.Some?
    && match path.end
       case Onward => true
       case Away(to) => MayLeave(p, k, t.value, to)
       case Back(far) => Balanced(p, t.value, far)
  }

  // ----- Against the machine -----

  predicate Alike(p: Procedure, s: State, c: Cpu) { s.w == c.w && Layout(p, s.calls, s.stack, c.stack) }

  lemma PartIsExact(p: Procedure, s: State, c: Cpu, e: Widths, part: Part)
    requires Alike(p, s, c)
    ensures PartFits(p, c, e, part) <==> PartAccepts(p, s, e, part)
  {
    match part {
      case Taken(r) => PullIsExact(p, s, c, r);
      case Restored => StatusIsExact(p, s, c);
      case _ =>
    }
  }

  lemma PushKeepsAlike(p: Procedure, s: State, c: Cpu, r: Register, bytes: seq<Cell>)
    requires Alike(p, s, c) && IsPush(bytes, r, TransferSize(r, c.w)) && (r == RegP ==> WidthsOf(bytes[0].value) == c.w)
    ensures Layout(p, s.calls, s.stack + [PushedItem(s.w, r)], c.stack + bytes)
  {
    LayoutPush(p, s.calls, s.stack, c.stack, PushedItem(s.w, r), bytes);
  }

  lemma RestoreKeepsAlike(p: Procedure, s: State, c: Cpu)
    requires Alike(p, s, c) && StatusOnTop(c) && AboveFloor(s) && s.stack[|s.stack| - 1].Status?
    ensures WidthsOf(c.stack[|c.stack| - 1].value) == s.stack[|s.stack| - 1].saved
    ensures Layout(p, s.calls, Popped(s.stack), c.stack[..|c.stack| - 1])
  {
    StatusTaken(p, s, c, c.stack[..|c.stack| - 1]);
  }

  lemma PartKeepsAlike(p: Procedure, s: State, c: Cpu, e: Widths, part: Part, data: seq<bv8>)
    requires Alike(p, s, c) && PartFits(p, c, e, part) && PartAccepts(p, s, e, part)
    ensures Alike(p, PartLeaves(p, s, e, part), PartDone(p, c, e, part, data))
  {
    match part {
      case Pushed(r) => PushKeepsAlike(p, s, c, r, PushedBytes(r, c.w, data));
      case Taken(r) => PullKeepsLayout(p, s, c, r);
      case Restored => RestoreKeepsAlike(p, s, c);
      case _ =>
    }
  }

  lemma {:induction false} PartsAreExact(p: Procedure, s: State, c: Cpu, e: Widths, parts: seq<Part>, data: seq<bv8>)
    requires Alike(p, s, c)
    ensures RunParts(p, c, e, parts, data).Some? <==> FollowParts(p, s, e, parts).Some?
    ensures FollowParts(p, s, e, parts).Some? ==>
              Alike(p, FollowParts(p, s, e, parts).value, RunParts(p, c, e, parts, data).value)
    decreases |parts|
  {
    if parts != [] {
      PartIsExact(p, s, c, e, parts[0]);
      if PartAccepts(p, s, e, parts[0]) {
        PartKeepsAlike(p, s, c, e, parts[0], data);
        PartsAreExact(p, PartLeaves(p, s, e, parts[0]), PartDone(p, c, e, parts[0], data), Encoded(e, parts[0]),
                      parts[1..], if |data| < 2 then [] else data[2..]);
      }
    }
  }

  /** One way through a macro is right on the machine, whatever the registers hold, exactly if widths,
      encoding and typed stack are what it needs. */
  lemma PathIsExact(p: Procedure, s: State, c: Cpu, e: Widths, path: Path, data: seq<bv8>)
    requires Alike(p, s, c) && c.pc < |p.statements|
    ensures PathFits(p, c, e, path, data) <==> PathAccepts(p, c.pc, s, e, path)
  {
    PartsAreExact(p, s, c, e, path.parts, data);
    var t := FollowParts(p, s, e, path.parts);
    if t.Some? {
      var d := RunParts(p, c, e, path.parts, data).value;
      match path.end {
        case Onward =>
        case Away(to) => EmptyIsExact(p, t.value, d);
        case Back(far) => ReturnIsExact(p, t.value, d, far);
      }
    }
  }

  predicate MacroAccepts(p: Procedure, k: nat, s: State)
    requires k < |p.statements| && p.statements[k].op.Macro?
  {
    var st := p.statements[k];
    forall j | 0 <= j < |st.op.paths| :: PathAccepts(p, k, s, st.encoded, st.op.paths[j])
  }

  lemma MacroIsExact(p: Procedure, s: State, c: Cpu)
    requires c.pc < |p.statements| && p.statements[c.pc].op.Macro? && c.inside == 0 && Alike(p, s, c)
    ensures MacroFits(p, c, p.statements[c.pc]) <==> MacroAccepts(p, c.pc, s)
  {
    var st := p.statements[c.pc];
    var (e, paths) := (st.encoded, st.op.paths);
    assert PathsFrom(st.op, c.inside) == paths;
    forall j, data: seq<bv8> | 0 <= j < |paths|
      ensures PathFits(p, c, e, paths[j], data) <==> PathAccepts(p, c.pc, s, e, paths[j])
    {
      PathIsExact(p, s, c, e, paths[j], data);
    }
    if MacroFits(p, c, st) {
      forall j | 0 <= j < |paths|
        ensures PathAccepts(p, c.pc, s, e, paths[j])
      {
        assert PathFits(p, c, e, paths[j], []);
      }
    }
  }
}
