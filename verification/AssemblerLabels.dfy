/** Labels as the assembler resolves them: it counts the anonymous labels inside macros, and an "@" name
    belongs to the stretch between two ordinary labels. */
module AssemblerLabels {
  import opened Octets
  import opened Asm65816

  /** A statement, or behind the `inside`-th anonymous label of a macro, counting from one. */
  datatype Place = Place(index: nat, inside: nat)

  function HiddenLabels(op: Op): nat { if op.Macro? then |op.entries| else 0 }

  function AnonymousLabels(op: Op): nat { if op == Label("") then 1 else HiddenLabels(op) }

  ghost predicate IsPlace(p: Procedure, place: Place) {
    && place.index < |p.statements| && place.inside <= HiddenLabels(p.statements[place.index].op)
    && (place.inside == 0 ==> p.statements[place.index].op.Label?)
  }

  /** The `n`-th anonymous label at or after statement `k`, counting from zero. */
  function LabelFrom(p: Procedure, k: nat, n: nat): (r: Option<Place>)
    ensures r.Some? ==> IsPlace(p, r.value)
    decreases |p.statements| - k
  {
    if k >= |p.statements| then None
    else
      var op := p.statements[k].op;
      var here := AnonymousLabels(op);
      if n >= here then LabelFrom(p, k + 1, n - here)
      else Some(Place(k, if op.Macro? then n + 1 else 0))
  }

  /** The `n`-th anonymous label before statement `k`, nearest first. */
  function LabelBefore(p: Procedure, k: nat, n: nat): (r: Option<Place>)
    requires k <= |p.statements|
    ensures r.Some? ==> IsPlace(p, r.value)
  {
    if k == 0 then None
    else
      var op := p.statements[k - 1].op;
      var here := AnonymousLabels(op);
      if n >= here then LabelBefore(p, k - 1, n - here)
      else Some(Place(k - 1, if op.Macro? then here - n else 0))
  }

  predicate IsCheap(name: string) { "@" <= name }

  predicate IsOrdinaryLabel(op: Op) { op.Label? && op.name != "" && !IsCheap(op.name) }

  /** The last ordinary label at or before statement `k`, or the start of the procedure. */
  function StretchStart(p: Procedure, k: nat): (r: nat)
    requires k < |p.statements|
    ensures r <= k
  {
    if k == 0 || IsOrdinaryLabel(p.statements[k].op) then k else StretchStart(p, k - 1)
  }

  /** The first ordinary label at or behind statement `k`, or the end of the procedure. */
  function StretchEnd(p: Procedure, k: nat): (r: nat)
    requires k <= |p.statements|
    ensures k <= r <= |p.statements|
    decreases |p.statements| - k
  {
    if k == |p.statements| || IsOrdinaryLabel(p.statements[k].op) then k else StretchEnd(p, k + 1)
  }

  /** An ordinary name is declared once; an "@" name once in a stretch. */
  function Assembled(p: Procedure, k: nat, target: Target): (r: Option<Place>)
    requires k < |p.statements|
    ensures r.Some? ==> IsPlace(p, r.value)
  {
    match target
    case Named(name) =>
      if name == "" then None
      else
        var found := LastLabel(p, name, if IsCheap(name) then StretchEnd(p, k + 1) else |p.statements|);
        if found.None? || (IsCheap(name) && found.value < StretchStart(p, k)) then None
        else Some(Place(found.value, 0))
    case Forward(n) => LabelFrom(p, k + 1, if n == 0 then 0 else n - 1)
    case Backward(n) => LabelBefore(p, k, if n == 0 then 0 else n - 1)
  }

  /** The lint and the assembler take the target for different places. */
  predicate Misresolved(p: Procedure, k: nat, target: Target)
    requires k < |p.statements|
  {
    var r := Resolve(p, k, target);
    Assembled(p, k, target) != if r.Some? then Some(Place(r.value, 0)) else None
  }

  // ----- When the two agree -----

  lemma {:induction false} SameFrom(p: Procedure, k: nat, n: nat)
    requires forall j | 0 <= j < |p.statements| :: HiddenLabels(p.statements[j].op) == 0
    ensures var r := AnonymousFrom(p, k, n);
            LabelFrom(p, k, n) == if r.Some? then Some(Place(r.value, 0)) else None
    decreases |p.statements| - k
  {
    if k < |p.statements| {
      if !IsAnonymous(p, k) {
        SameFrom(p, k + 1, n);
      } else if n > 0 {
        SameFrom(p, k + 1, n - 1);
      }
    }
  }

  lemma {:induction false} SameBefore(p: Procedure, k: nat, n: nat)
    requires k <= |p.statements|
    requires forall j | 0 <= j < |p.statements| :: HiddenLabels(p.statements[j].op) == 0
    ensures var r := AnonymousBefore(p, k, n);
            LabelBefore(p, k, n) == if r.Some? then Some(Place(r.value, 0)) else None
  {
    if k > 0 {
      if !IsAnonymous(p, k - 1) {
        SameBefore(p, k - 1, n);
      } else if n > 0 {
        SameBefore(p, k - 1, n - 1);
      }
    }
  }

  /** The statements `lo` up to `hi` declare the name at most where the whole procedure does last. */
  lemma {:induction false} LastInStretch(p: Procedure, name: string, hi: nat, end: nat)
    requires hi <= end <= |p.statements|
    requires forall j | hi <= j < end :: p.statements[j].op != Label(name)
    ensures LastLabel(p, name, end) == LastLabel(p, name, hi)
    decreases end
  {
    if hi < end {
      LastInStretch(p, name, hi, end - 1);
    }
  }

  /** The "@" names of a stretch are declared in no other stretch. */
  predicate KeepsToStretch(p: Procedure, k: nat, name: string)
    requires k < |p.statements|
  {
    forall j | 0 <= j < |p.statements| && p.statements[j].op == Label(name) ::
      StretchStart(p, k) <= j < StretchEnd(p, k + 1)
  }

  /** Without labels inside macros, and with "@" names that are used only where they are declared, the lint
      resolves every target as the assembler does. */
  lemma ResolutionsAgree(p: Procedure, k: nat, target: Target)
    requires k < |p.statements|
    requires forall j | 0 <= j < |p.statements| :: HiddenLabels(p.statements[j].op) == 0
    requires target.Named? && IsCheap(target.name) ==> KeepsToStretch(p, k, target.name)
    ensures !Misresolved(p, k, target)
  {
    match target {
      case Named(name) =>
        if IsCheap(name) {
          LastInStretch(p, name, StretchEnd(p, k + 1), |p.statements|);
        }
      case Forward(n) => SameFrom(p, k + 1, if n == 0 then 0 else n - 1);
      case Backward(n) => SameBefore(p, k, if n == 0 then 0 else n - 1);
    }
  }

  lemma {:induction false} OneStretch(p: Procedure, k: nat)
    requires k <= |p.statements|
    requires forall j | 0 <= j < |p.statements| :: !IsOrdinaryLabel(p.statements[j].op)
    ensures StretchEnd(p, k) == |p.statements|
    ensures k < |p.statements| ==> StretchStart(p, k) == 0
    decreases |p.statements| - k
  {
    if k < |p.statements| {
      OneStretch(p, k + 1);
      StartOfStretch(p, k);
    }
  }

  lemma {:induction false} StartOfStretch(p: Procedure, k: nat)
    requires k < |p.statements|
    requires forall j | 0 <= j < |p.statements| :: !IsOrdinaryLabel(p.statements[j].op)
    ensures StretchStart(p, k) == 0
  {
    if k > 0 {
      StartOfStretch(p, k - 1);
    }
  }
}
