/** The widths the assembler encodes immediates with, and when the lint, which reads the text on its own,
    takes them for the same. */
module AssemblerWidths {
  import opened Octets
  import opened Asm65816
  import opened WidthLint
  import opened Cpu65816
  import opened LintFaults

  /** What the assembler encodes with behind a statement other than a macro the lint does not know. */
  function Told(op: Op, e: Widths): Widths {
    match op
    case WidthMacro(newA, newI) => Switched(newA, newI, e)
    case Directive(newA, newI) => Switched(newA, newI, e)
    case AssertWidths(expected) => expected
    case PullStatusAs(restored) => restored
    case Increment32(_, _) => e.(a := Sixteen)
    case _ => e
  }

  predicate Encodes(p: Procedure) {
    forall k | 0 < k < |p.statements| && !p.statements[k - 1].op.Macro? ::
      p.statements[k].encoded == Told(p.statements[k - 1].op, p.statements[k - 1].encoded)
  }

  /** Statement `k` changes the encoding to something the lint does not track. */
  predicate Silent(p: Procedure, k: nat)
    requires k < |p.statements|
  {
    match p.statements[k].op
    case PullStatusAs(restored) => TrackedAt(p, k) != Tracked(Some(restored.a), Some(restored.i))
    case Increment32(_, _) => TrackedAt(p, k).a != Some(Sixteen)
    case Macro(_, _, _) => k + 1 < |p.statements| && p.statements[k + 1].encoded != p.statements[k].encoded
    case _ => false
  }

  lemma {:induction false} TrackingAgrees(p: Procedure, k: nat)
    requires Encodes(p) && k < |p.statements|
    requires forall j | 0 <= j < k :: !Silent(p, j)
    ensures var (t, e) := (TrackedAt(p, k), p.statements[k].encoded);
            (t.a.Some? ==> t.a.value == e.a) && (t.i.Some? ==> t.i.value == e.i)
  {
    if k > 0 {
      TrackingAgrees(p, k - 1);
      assert !Silent(p, k - 1);
      assert !p.statements[k - 1].op.Macro? ==>
          p.statements[k].encoded == Told(p.statements[k - 1].op, p.statements[k - 1].encoded);
    }
  }

  /** Behind directives for both widths, and as long as nothing changes the encoding silently, the lint judges
      every immediate by the width it is encoded with. */
  lemma ImmediatesAreTracked(p: Procedure, n: Node)
    requires Encodes(p) && n.index < |p.statements|
    requires TrackedAt(p, n.index).a.Some? && TrackedAt(p, n.index).i.Some?
    requires forall j | 0 <= j < n.index :: !Silent(p, j)
    ensures !HidesImmediate(p, n) && !Misreports(p, n)
  {
    TrackingAgrees(p, n.index);
  }
}
