/** Concrete procedures in sight of the lint that it accepts although a run of them misbehaves, one for
    every kind of hazard. */
module LintCounterexamples {
  import opened Octets
  import opened Asm65816
  import opened AssemblerLabels
  import opened WidthLint
  import opened Cpu65816
  import opened LintStack
  import opened LintMacros
  import opened LintFaults
  import opened LintSoundness
  import opened LintExactness
  import opened LintExamples
  import opened AssemblerWidths

  /** `jsr @f; rts; @f: rtl` leaves through a three-byte return behind a two-byte call. */
  const MIXED := Program([Call(false, Named("@f")), Return(false), Label("@f"), Return(true)])

  function MixedNode(k: nat): Node {
    Node(k, State(NARROW, [], if k < 2 then [] else [Frame(1, [])]))
  }

  function MixedTable(): seq<Node> { seq(4, k requires 0 <= k < 4 => MixedNode(k)) }

  function MixedNext(k: nat): nat {
    if k == 0 then 2 else if k == 3 then 1 else k + 1
  }

  lemma MixedCall()
    ensures Resolve(MIXED, 0, Named("@f")) == Some(2)
  {
    assert LastLabel(MIXED, "@f", 3) == Some(2);
    assert LastLabel(MIXED, "@f", 4) == Some(2);
  }

  lemma MixedLeaves()
    ensures RawTargets(MIXED, MixedNode(1)) == [] && RawTargets(MIXED, MixedNode(3)) == [MixedNode(1)]
  {
  }

  lemma MixedEnters()
    ensures RawTargets(MIXED, MixedNode(0)) == [MixedNode(2)]
  {
    MixedCall();
    CallTarget(MIXED, MixedNode(0));
    assert [] + [Frame(1, [])] == [Frame(1, [])];
  }

  lemma MixedTargets(k: nat)
    requires k < 4
    ensures RawTargets(MIXED, MixedNode(k)) == if k == 1 then [] else [MixedNode(MixedNext(k))]
  {
    if k == 0 { MixedEnters(); } else if k != 2 { MixedLeaves(); }
  }

  lemma MixedIsRight(k: nat)
    requires k < 4
    ensures Problems(MIXED, MixedNode(k)) == {}
  {
  }

  lemma MixedIsSeen(k: nat)
    requires k < 4
    ensures !BlindSpot(MIXED, MixedNode(k))
  {
    if k == 0 { InOneStretch(MIXED, 0, Named("@f")); }
  }

  lemma MixedFlow(k: nat)
    requires k < 4
    ensures k != 1 ==> Flows(MIXED, MixedNode(k), MixedNode(MixedNext(k)))
    ensures forall m | Flows(MIXED, MixedNode(k), m) :: k != 1 && m == MixedNode(MixedNext(k))
  {
    MixedTargets(k);
    if k != 1 {
      NothingToNormalize(MIXED, MixedNext(k), NARROW);
      OneTarget(MIXED, MixedNode(k), MixedNode(MixedNext(k)));
    }
  }

  lemma MixedSettles(k: nat)
    requires k < 4
    ensures Settles(MIXED, MixedTable(), k) && !BlindSpot(MIXED, MixedTable()[k])
  {
    MixedIsRight(k);
    MixedIsSeen(k);
    MixedFlow(k);
    assert MixedNext(k) < 4 || k == 1;
  }

  lemma MixedIsClean()
    ensures Clean(MIXED, NARROW) && InSight(MIXED, NARROW)
  {
    var table := MixedTable();
    forall k | 0 <= k < |table|
      ensures Settles(MIXED, table, k) && !BlindSpot(MIXED, table[k])
    {
      MixedSettles(k);
    }
    CleanByTable(MIXED, NARROW, table);
  }

  lemma MixedReturnIsAccepted()
    ensures Clean(MIXED, NARROW) && InSight(MIXED, NARROW) && !AllRunsSafe(MIXED, NARROW)
  {
    MixedIsClean();
    ReachableStart(MIXED, NARROW);
    MixedFlow(0);
    ReachableStep(MIXED, NARROW, MixedNode(0), MixedNode(2));
    MixedFlow(2);
    ReachableStep(MIXED, NARROW, MixedNode(2), MixedNode(3));
    HazardRefutes(MIXED, NARROW, MixedNode(3));
  }

  /** `pha; jsr @f; pla; rts; @f: pla; pha; rts` pulls the low byte of its return address. */
  const THROUGH := Program([
    Push(RegA), Call(false, Named("@f")), Pull(RegA), Return(false),
    Label("@f"), Pull(RegA), Push(RegA), Return(false)])

  const SAVED := [Register8Or16(RegA, Eight)]

  /** The only state each statement of `THROUGH` is reached in. */
  function ThroughNode(k: nat): Node {
    if k < 4 then Node(k, State(NARROW, if k == 1 || k == 2 then SAVED else [], []))
    else Node(k, State(NARROW, if k == 6 then [] else SAVED, [Frame(2, SAVED)]))
  }

  function ThroughTable(): seq<Node> { seq(8, k requires 0 <= k < 8 => ThroughNode(k)) }

  function ThroughNext(k: nat): nat {
    if k == 1 then 4 else if k == 7 then 2 else k + 1
  }

  lemma ThroughCall()
    ensures Resolve(THROUGH, 1, Named("@f")) == Some(4)
  {
    var p := THROUGH;
    assert LastLabel(p, "@f", 5) == Some(4);
    assert LastLabel(p, "@f", 6) == Some(4);
    assert LastLabel(p, "@f", 7) == Some(4);
    assert LastLabel(p, "@f", 8) == Some(4);
  }

  lemma ThroughLeaves()
    ensures RawTargets(THROUGH, ThroughNode(3)) == [] && RawTargets(THROUGH, ThroughNode(7)) == [ThroughNode(2)]
  {
  }

  lemma ThroughEnters()
    ensures RawTargets(THROUGH, ThroughNode(1)) == [ThroughNode(4)]
  {
    ThroughCall();
    CallTarget(THROUGH, ThroughNode(1));
    assert [] + [Frame(2, SAVED)] == [Frame(2, SAVED)];
  }

  lemma ThroughTargets(k: nat)
    requires k < 8
    ensures RawTargets(THROUGH, ThroughNode(k)) == if k == 3 then [] else [ThroughNode(ThroughNext(k))]
  {
    if k == 1 {
      ThroughEnters();
    } else if k == 3 || k == 7 {
      ThroughLeaves();
    } else {
      assert [] + SAVED == SAVED;
    }
  }

  lemma ThroughIsRight(k: nat)
    requires k < 8
    ensures Problems(THROUGH, ThroughNode(k)) == {}
  {
  }

  lemma ThroughInSight(k: nat)
    requires k < 8
    ensures !BlindSpot(THROUGH, ThroughNode(k))
  {
    if k == 1 { InOneStretch(THROUGH, 1, Named("@f")); }
  }

  lemma ThroughFlow(k: nat)
    requires k < 8
    ensures k != 3 ==> Flows(THROUGH, ThroughNode(k), ThroughNode(ThroughNext(k)))
    ensures forall m | Flows(THROUGH, ThroughNode(k), m) :: k != 3 && m == ThroughNode(ThroughNext(k))
  {
    ThroughTargets(k);
    if k != 3 {
      NothingToNormalize(THROUGH, ThroughNext(k), NARROW);
      OneTarget(THROUGH, ThroughNode(k), ThroughNode(ThroughNext(k)));
    }
  }

  lemma ThroughSettles(k: nat)
    requires k < 8
    ensures Settles(THROUGH, ThroughTable(), k) && !BlindSpot(THROUGH, ThroughTable()[k])
  {
    ThroughIsRight(k);
    ThroughInSight(k);
    ThroughFlow(k);
    assert ThroughNext(k) < 8 || k == 3;
  }

  lemma ThroughIsClean()
    ensures Clean(THROUGH, NARROW) && InSight(THROUGH, NARROW)
  {
    var table := ThroughTable();
    forall k | 0 <= k < |table|
      ensures Settles(THROUGH, table, k) && !BlindSpot(THROUGH, table[k])
    {
      ThroughSettles(k);
    }
    CleanByTable(THROUGH, NARROW, table);
  }

  lemma ThroughReachesPull()
    ensures Reachable(THROUGH, NARROW, ThroughNode(5))
  {
    ReachableStart(THROUGH, NARROW);
    ThroughFlow(0);
    ReachableStep(THROUGH, NARROW, ThroughNode(0), ThroughNode(1));
    ThroughFlow(1);
    ReachableStep(THROUGH, NARROW, ThroughNode(1), ThroughNode(4));
    ThroughFlow(4);
    ReachableStep(THROUGH, NARROW, ThroughNode(4), ThroughNode(5));
  }

  lemma PullThroughReturnIsAccepted()
    ensures Clean(THROUGH, NARROW) && InSight(THROUGH, NARROW) && !AllRunsSafe(THROUGH, NARROW)
  {
    ThroughIsClean();
    ThroughReachesPull();
    HazardRefutes(THROUGH, NARROW, ThroughNode(5));
  }

  // ----- Macros that end in a return -----

  /** The expansion of a macro that writes an error code, pulls Y, X and B and returns. */
  const UNDO := Path([Immediate(false), Switch(Some(Sixteen), None), Switch(Some(Eight), None),
                      Taken(RegY), Taken(RegX), Taken(RegB)], Back(false))

  const UNDOING := Macro(true, [UNDO], [])

  /** The macro in a procedure that has pushed nothing. */
  const BARE := Program([UNDOING])

  /** The same macro behind the pushes it undoes. */
  const PUSHED := Program([Push(RegB), Push(RegX), Push(RegY), UNDOING])

  /** The three parts in front of the pulls leave widths and encoding as they were. */
  lemma UndoStarts(p: Procedure, s: State)
    requires s.w == NARROW
    ensures FollowParts(p, s, NARROW, UNDO.parts) == FollowParts(p, s, NARROW, UNDO.parts[3..])
  {
    var wide := s.(w := Widths(Sixteen, Eight));
    var e := Widths(Sixteen, Eight);
    assert UNDO.parts[1..][1..] == UNDO.parts[2..] && UNDO.parts[2..][1..] == UNDO.parts[3..];
    assert FollowParts(p, s, NARROW, UNDO.parts) == FollowParts(p, s, NARROW, UNDO.parts[1..]);
    assert FollowParts(p, s, NARROW, UNDO.parts[1..]) == FollowParts(p, wide, e, UNDO.parts[2..]);
    assert FollowParts(p, wide, e, UNDO.parts[2..]) == FollowParts(p, s, NARROW, UNDO.parts[3..]);
  }

  lemma BareIsMisused()
    ensures Hazard(BARE, InitialNode(NARROW)) && !BlindSpot(BARE, InitialNode(NARROW))
  {
    var s := InitialNode(NARROW).state;
    UndoStarts(BARE, s);
    assert UNDO.parts[3..][0] == Taken(RegY);
    assert FollowParts(BARE, s, NARROW, UNDO.parts) == None;
    assert !PathAccepts(BARE, 0, s, NARROW, UNDOING.paths[0]) && !Strays(BARE, InitialNode(NARROW), UNDOING.paths[0]);
  }

  lemma MisusedReturnMacroIsAccepted()
    ensures Clean(BARE, NARROW) && InSight(BARE, NARROW) && !AllRunsSafe(BARE, NARROW)
  {
    var n := InitialNode(NARROW);
    EndsThere(BARE, n);
    assert Settles(BARE, [n], 0);
    BareIsMisused();
    CleanByTable(BARE, NARROW, [n]);
    ReachableStart(BARE, NARROW);
    HazardRefutes(BARE, NARROW, n);
  }

  function PushedStack(k: nat): seq<Item> {
    if k == 0 then []
    else if k == 1 then [Bank]
    else if k == 2 then [Bank, Register8Or16(RegX, Eight)]
    else [Bank, Register8Or16(RegX, Eight), Register8Or16(RegY, Eight)]
  }

  function PushedNode(k: nat): Node { Node(k, State(NARROW, PushedStack(k), [])) }

  lemma PushedTargets(k: nat)
    requires k < 3
    ensures RawTargets(PUSHED, PushedNode(k)) == [PushedNode(k + 1)]
  {
    var pushed := if k == 0 then Bank else if k == 1 then Register8Or16(RegX, Eight) else Register8Or16(RegY, Eight);
    assert PushedStack(k) + [pushed] == PushedStack(k + 1);
  }

  lemma UndoEnds(p: Procedure, s: State)
    requires s == PushedNode(3).state
    ensures FollowParts(p, s, NARROW, UNDO.parts[3..]) == Some(s.(stack := []))
  {
    var (two, one, none) := (s.(stack := PushedStack(2)), s.(stack := PushedStack(1)), s.(stack := []));
    assert AfterPull(RegY, s.stack) == PushedStack(2) && AfterPull(RegX, two.stack) == PushedStack(1);
    assert AfterPull(RegB, one.stack) == [];
    assert UNDO.parts[3..][1..] == UNDO.parts[4..] && UNDO.parts[4..][1..] == UNDO.parts[5..];
    assert UNDO.parts[5..][1..] == [];
    assert FollowParts(p, one, NARROW, UNDO.parts[5..]) == FollowParts(p, none, NARROW, []) == Some(none);
    assert FollowParts(p, two, NARROW, UNDO.parts[4..]) == Some(none);
  }

  lemma UndoAccepts(p: Procedure)
    ensures FollowParts(p, PushedNode(3).state, NARROW, UNDO.parts) == Some(State(NARROW, [], []))
  {
    UndoStarts(p, PushedNode(3).state);
    UndoEnds(p, PushedNode(3).state);
  }

  /** A macro with one path that returns from where nothing is left on the stack. */
  lemma ReturnsAtEnd(p: Procedure, n: Node, path: Path, w: Widths)
    requires n.index < |p.statements| && p.statements[n.index].op == Macro(true, [path], [])
    requires path.end == Back(false) && n.state.calls == [] && p.returnAbi == Some(w)
    requires FollowParts(p, n.state, p.statements[n.index].encoded, path.parts) == Some(State(w, [], []))
    ensures !Hazard(p, n) && !BlindSpot(p, n)
  {
    var st := p.statements[n.index];
    assert st.op.paths == [path] && PathAccepts(p, n.index, n.state, st.encoded, path);
  }

  lemma PushedIsConsumed()
    ensures !Hazard(PUSHED, PushedNode(3)) && !BlindSpot(PUSHED, PushedNode(3))
  {
    UndoAccepts(PUSHED);
    ReturnsAtEnd(PUSHED, PushedNode(3), UNDO, NARROW);
  }

  lemma PushedFlow(k: nat)
    requires k < 4
    ensures Problems(PUSHED, PushedNode(k)) == {}
    ensures !BlindSpot(PUSHED, PushedNode(k)) && !Hazard(PUSHED, PushedNode(k))
    ensures forall m | Flows(PUSHED, PushedNode(k), m) :: k < 3 && m == PushedNode(k + 1)
  {
    if k < 3 {
      PushedTargets(k);
      NothingToNormalize(PUSHED, k + 1, NARROW);
      OneTarget(PUSHED, PushedNode(k), PushedNode(k + 1));
    } else {
      EndsThere(PUSHED, PushedNode(3));
      PushedIsConsumed();
    }
  }

  /** Not every use of the macro is a hazard: behind its pushes it is safe on every run. */
  lemma MatchedReturnMacroIsSafe()
    ensures Clean(PUSHED, NARROW) && InSight(PUSHED, NARROW) && AllRunsSafe(PUSHED, NARROW)
  {
    var table := seq(4, k requires 0 <= k < 4 => PushedNode(k));
    forall k | 0 <= k < |table|
      ensures Settles(PUSHED, table, k) && !BlindSpot(PUSHED, table[k]) && !Hazard(PUSHED, table[k])
    {
      PushedFlow(k);
    }
    CleanByTable(PUSHED, NARROW, table);
    CleanIsExact(PUSHED, NARROW);
  }

  // ----- Immediates inside a macro -----

  /** A macro that loads an immediate and stores it. */
  const WRITING := Macro(false, [Path([Immediate(false)], Onward)], [])

  /** `bra @a; @b: macro, encoded for an 8-bit accumulator; m8; rts; @a: m16; bra @b`. */
  const HIDDEN := Program([
    Jump(Named("@a")), Label("@b"), WRITING, WidthMacro(Some(Eight), None), Return(false),
    Label("@a"), WidthMacro(Some(Sixteen), None), Jump(Named("@b"))])

  const WIDE := Widths(Sixteen, Eight)

  function HiddenNode(k: nat): Node {
    Node(k, State(if k == 0 || k == 3 || k == 4 then NARROW else WIDE, [], []))
  }

  function HiddenNext(k: nat): nat { if k == 0 then 5 else if k == 7 then 1 else k + 1 }

  lemma HiddenJumps()
    ensures Resolve(HIDDEN, 0, Named("@a")) == Some(5) && Resolve(HIDDEN, 7, Named("@b")) == Some(1)
  {
    var p := HIDDEN;
    assert LastLabel(p, "@a", 6) == Some(5) && LastLabel(p, "@a", 7) == Some(5) && LastLabel(p, "@a", 8) == Some(5);
    assert LastLabel(p, "@b", 2) == Some(1) && LastLabel(p, "@b", 3) == Some(1) && LastLabel(p, "@b", 4) == Some(1);
    assert LastLabel(p, "@b", 5) == Some(1) && LastLabel(p, "@b", 6) == Some(1) && LastLabel(p, "@b", 7) == Some(1);
    assert LastLabel(p, "@b", 8) == Some(1);
  }

  /** The states before they are normalised. */
  function HiddenRaw(k: nat): Node {
    Node(HiddenNext(k), State(if k == 0 || k == 3 then NARROW else WIDE, [], []))
  }

  lemma HiddenTargets(k: nat)
    requires k < 8
    ensures RawTargets(HIDDEN, HiddenNode(k)) == if k == 4 then [] else [HiddenRaw(k)]
  {
    if k == 0 || k == 7 { HiddenJumps(); }
  }

  lemma HiddenNormalized(k: nat)
    requires k < 8 && k != 4
    ensures Normalized(HIDDEN, HiddenRaw(k)) == HiddenNode(HiddenNext(k))
  {
    assert Normalizer(HIDDEN, 6) == Some(WidthMacro(Some(Sixteen), None));
    assert Normalizer(HIDDEN, 2) == Some(WRITING);
  }

  lemma HiddenIsRight(k: nat)
    requires k < 8
    ensures Problems(HIDDEN, HiddenNode(k)) == {}
  {
  }

  lemma HiddenInSight(k: nat)
    requires k < 8
    ensures !BlindSpot(HIDDEN, HiddenNode(k))
  {
    if k == 0 {
      InOneStretch(HIDDEN, 0, Named("@a"));
    } else if k == 7 {
      InOneStretch(HIDDEN, 7, Named("@b"));
    } else if k == 2 {
      HiddenFails();
    }
  }

  /** The macro is in sight, but its immediate has another width than the accumulator. */
  lemma HiddenFails()
    ensures Hazard(HIDDEN, HiddenNode(2)) && !BlindSpot(HIDDEN, HiddenNode(2))
  {
    assert FollowParts(HIDDEN, HiddenNode(2).state, NARROW, [Immediate(false)]) == None;
    assert !PathAccepts(HIDDEN, 2, HiddenNode(2).state, NARROW, WRITING.paths[0]);
    assert !Strays(HIDDEN, HiddenNode(2), WRITING.paths[0]) && WRITING.paths[0].end.Onward?;
  }

  lemma HiddenFlow(k: nat)
    requires k < 8
    ensures Problems(HIDDEN, HiddenNode(k)) == {} && !BlindSpot(HIDDEN, HiddenNode(k))
    ensures k != 4 ==> Flows(HIDDEN, HiddenNode(k), HiddenNode(HiddenNext(k)))
    ensures forall m | Flows(HIDDEN, HiddenNode(k), m) :: k != 4 && m == HiddenNode(HiddenNext(k))
  {
    HiddenTargets(k);
    HiddenIsRight(k);
    HiddenInSight(k);
    if k != 4 {
      HiddenNormalized(k);
      assert RawTargets(HIDDEN, HiddenNode(k))[0] == HiddenRaw(k);
    }
  }

  lemma HiddenIsClean()
    ensures Clean(HIDDEN, NARROW) && InSight(HIDDEN, NARROW)
  {
    var table := seq(8, k requires 0 <= k < 8 => HiddenNode(k));
    forall k | 0 <= k < |table|
      ensures Settles(HIDDEN, table, k) && !BlindSpot(HIDDEN, table[k])
    {
      HiddenFlow(k);
      assert HiddenNext(k) < 8 || k == 4;
    }
    CleanByTable(HIDDEN, NARROW, table);
  }

  lemma HiddenReachesMacro()
    ensures Reachable(HIDDEN, NARROW, HiddenNode(2))
  {
    ReachableStart(HIDDEN, NARROW);
    HiddenFlow(0);
    ReachableStep(HIDDEN, NARROW, HiddenNode(0), HiddenNode(5));
    HiddenFlow(5);
    ReachableStep(HIDDEN, NARROW, HiddenNode(5), HiddenNode(6));
    HiddenFlow(6);
    ReachableStep(HIDDEN, NARROW, HiddenNode(6), HiddenNode(7));
    HiddenFlow(7);
    ReachableStep(HIDDEN, NARROW, HiddenNode(7), HiddenNode(1));
    HiddenFlow(1);
    ReachableStep(HIDDEN, NARROW, HiddenNode(1), HiddenNode(2));
  }

  lemma MacroImmediateIsAccepted()
    ensures Clean(HIDDEN, NARROW) && InSight(HIDDEN, NARROW) && !AllRunsSafe(HIDDEN, NARROW)
  {
    HiddenIsClean();
    HiddenReachesMacro();
    HiddenFails();
    HazardRefutes(HIDDEN, NARROW, HiddenNode(2));
  }

  // ----- Immediates the lint takes to be encoded otherwise -----

  /** `.a8 .i8; bra @x; inc32 counter; @x: lda #..; rts`: the macro nobody comes through has declared a 16-bit
      accumulator. */
  const STALE := Procedure([
    Statement(Directive(Some(Eight), Some(Eight)), NARROW), Statement(Jump(Named("@x")), NARROW),
    Statement(Increment32("counter", 0), NARROW), Statement(Label("@x"), WIDE),
    Statement(AccumulatorImmediate, WIDE), Statement(Return(false), WIDE)], Some(NARROW), map[], map[])

  function StaleNode(k: nat): Node { Node(k, State(NARROW, [], [])) }

  function StaleNext(k: nat): nat { if k == 1 then 3 else k + 1 }

  function StaleNodes(): set<Node> { {StaleNode(0), StaleNode(1), StaleNode(3), StaleNode(4), StaleNode(5)} }

  lemma StaleJumps()
    ensures Resolve(STALE, 1, Named("@x")) == Some(3)
  {
    var p := STALE;
    assert LastLabel(p, "@x", 4) == Some(3) && LastLabel(p, "@x", 5) == Some(3) && LastLabel(p, "@x", 6) == Some(3);
  }

  lemma StaleIsTracked()
    ensures TrackedAt(STALE, 4) == Tracked(Some(Eight), Some(Eight))
  {
    assert TrackedAt(STALE, 1) == Tracked(Some(Eight), Some(Eight));
    assert TrackedAt(STALE, 2) == TrackedAt(STALE, 1) && TrackedAt(STALE, 3) == TrackedAt(STALE, 2);
  }

  lemma StaleIsRight(n: Node)
    requires n in StaleNodes()
    ensures Problems(STALE, n) == {} && !BlindSpot(STALE, n)
  {
    if n.index == 1 {
      InOneStretch(STALE, 1, Named("@x"));
    } else if n.index == 4 {
      StaleIsTracked();
    }
  }

  lemma StaleTargets(k: nat)
    requires k < 5 && k != 2
    ensures RawTargets(STALE, StaleNode(k)) == [StaleNode(StaleNext(k))]
  {
    if k == 1 { StaleJumps(); }
  }

  lemma StaleFlow(k: nat)
    requires k < 6 && k != 2
    ensures k < 5 ==> Flows(STALE, StaleNode(k), StaleNode(StaleNext(k)))
    ensures forall m | Flows(STALE, StaleNode(k), m) :: k < 5 && m == StaleNode(StaleNext(k))
  {
    if k < 5 {
      StaleTargets(k);
      NothingToNormalize(STALE, StaleNext(k), NARROW);
      OneTarget(STALE, StaleNode(k), StaleNode(StaleNext(k)));
    }
  }

  lemma StaleMember(n: Node)
    requires n in StaleNodes()
    ensures n == StaleNode(n.index) && n.index < 6 && n.index != 2
  {
  }

  lemma StaleCloses(n: Node, m: Node)
    requires n in StaleNodes() && Flows(STALE, n, m)
    ensures m in StaleNodes()
  {
    StaleMember(n);
    StaleFlow(n.index);
  }

  lemma StaleAgrees()
    ensures InitialNode(NARROW) in StaleNodes()
    ensures forall m, n | m in StaleNodes() && n in StaleNodes() :: !Conflict(m, n)
  {
    SameStatesDoNotConflict(StaleNodes(), State(NARROW, [], []));
  }

  lemma StaleIsClean()
    ensures Clean(STALE, NARROW) && InSight(STALE, NARROW)
  {
    var nodes := StaleNodes();
    forall n, m | n in nodes && Flows(STALE, n, m)
      ensures m in nodes
    {
      StaleCloses(n, m);
    }
    forall n | n in nodes
      ensures Problems(STALE, n) == {} && !BlindSpot(STALE, n)
    {
      StaleIsRight(n);
    }
    StaleAgrees();
    SeenByNodes(STALE, NARROW, nodes);
  }

  lemma StaleEncodes()
    ensures Encodes(STALE)
  {
  }

  lemma StaleHides()
    ensures Hazard(STALE, StaleNode(4))
  {
    StaleIsTracked();
  }

  lemma StaleReachesImmediate()
    ensures Reachable(STALE, NARROW, StaleNode(4))
  {
    ReachableStart(STALE, NARROW);
    StaleFlow(0);
    ReachableStep(STALE, NARROW, StaleNode(0), StaleNode(1));
    StaleFlow(1);
    ReachableStep(STALE, NARROW, StaleNode(1), StaleNode(3));
    StaleFlow(3);
    ReachableStep(STALE, NARROW, StaleNode(3), StaleNode(4));
  }

  lemma StaleImmediateIsAccepted()
    ensures Encodes(STALE) && Clean(STALE, NARROW) && InSight(STALE, NARROW) && !AllRunsSafe(STALE, NARROW)
  {
    StaleIsClean();
    StaleReachesImmediate();
    StaleHides();
    StaleEncodes();
    HazardRefutes(STALE, NARROW, StaleNode(4));
  }

  // ----- Ways out of a procedure -----

  /** `pha; jmp other`: the byte is left behind. */
  const LEAVING := Program([Push(RegA), Jump(Named("other"))])

  function LeavingNode(k: nat): Node {
    Node(k, State(NARROW, if k == 0 then [] else [Register8Or16(RegA, Eight)], []))
  }

  lemma LeavesProcedure()
    ensures Resolve(LEAVING, 1, Named("other")) == None && Assembled(LEAVING, 1, Named("other")) == None
  {
    assert "other"[0] == 'o';
    assert LastLabel(LEAVING, "other", 1) == None && LastLabel(LEAVING, "other", 2) == None;
  }

  lemma LeavingFlow(k: nat)
    requires k < 2
    ensures Problems(LEAVING, LeavingNode(k)) == {} && !BlindSpot(LEAVING, LeavingNode(k))
    ensures k == 0 ==> Flows(LEAVING, LeavingNode(0), LeavingNode(1))
    ensures forall m | Flows(LEAVING, LeavingNode(k), m) :: k == 0 && m == LeavingNode(1)
  {
    LeavesProcedure();
    if k == 0 {
      assert [] + [Register8Or16(RegA, Eight)] == [Register8Or16(RegA, Eight)];
      PlainTarget(LEAVING, LeavingNode(0), LeavingNode(1).state);
      NothingToNormalize(LEAVING, 1, NARROW);
      OneTarget(LEAVING, LeavingNode(0), LeavingNode(1));
    } else {
      assert RawTargets(LEAVING, LeavingNode(1)) == [];
    }
  }

  lemma JumpOutIsAccepted()
    ensures Clean(LEAVING, NARROW) && InSight(LEAVING, NARROW) && !AllRunsSafe(LEAVING, NARROW)
  {
    var table := [LeavingNode(0), LeavingNode(1)];
    forall k | 0 <= k < |table|
      ensures Settles(LEAVING, table, k) && !BlindSpot(LEAVING, table[k])
    {
      LeavingFlow(k);
    }
    CleanByTable(LEAVING, NARROW, table);
    LeavesProcedure();
    ReachableStart(LEAVING, NARROW);
    LeavingFlow(0);
    ReachableStep(LEAVING, NARROW, LeavingNode(0), LeavingNode(1));
    HazardRefutes(LEAVING, NARROW, LeavingNode(1));
  }

  /** A procedure of one plain instruction, without a return. */
  const ENDLESS := Program([Plain])

  lemma MissingReturnIsAccepted()
    ensures Clean(ENDLESS, NARROW) && InSight(ENDLESS, NARROW) && !AllRunsSafe(ENDLESS, NARROW)
  {
    var n := InitialNode(NARROW);
    assert RawTargets(ENDLESS, n) == [];
    assert Settles(ENDLESS, [n], 0) && !BlindSpot(ENDLESS, n);
    CleanByTable(ENDLESS, NARROW, [n]);
    ReachableStart(ENDLESS, NARROW);
    HazardRefutes(ENDLESS, NARROW, n);
  }
}
