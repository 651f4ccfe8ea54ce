/** The worklist that explores one procedure, round by round, and what it has decided when no
    node is left in the queue. */
module LintWorklist {
  import opened Octets
  import opened Asm65816
  import opened WidthLint

  datatype Worklist = Worklist(states: seq<seq<State>>, queue: seq<Node>, diagnostics: set<Diagnostic>)

  predicate Recorded(w: Worklist, n: Node) {
    n.index < |w.states| && n.state in w.states[n.index]
  }

  /** Index of the first recorded state with the given call context. */
  function SameContext(states: seq<State>, calls: seq<Frame>): (r: Option<nat>)
    ensures r.Some? ==> r.value < |states| && states[r.value].calls == calls
    ensures r.None? ==> forall s | s in states :: s.calls != calls
  {
    if states == [] then None
    else if states[0].calls == calls then Some(0)
    else
      var rest := SameContext(states[1..], calls);
      if rest.Some? then Some(rest.value + 1) else None
  }

  function Start(p: Procedure, entry: Widths): Worklist {
    var initial := InitialNode(entry);
    Worklist(seq(|p.statements|, k => if k == 0 then [initial.state] else []), [initial], {})
  }

  /** Record a target: drop it when outside or known, report it when it conflicts, queue it otherwise. */
  function Merge(p: Procedure, w: Worklist, target: Node): Worklist {
    var n := Normalized(p, target);
    if n.index >= |w.states| || n.state in w.states[n.index] then w
    else if SameContext(w.states[n.index], n.state.calls).Some? then
      w.(diagnostics := w.diagnostics + {Diagnostic(n.index, IncompatibleMerge)})
    else
      w.(states := w.states[n.index := w.states[n.index] + [n.state]], queue := w.queue + [n])
  }

  function MergeAll(p: Procedure, w: Worklist, targets: seq<Node>): Worklist {
    if targets == [] then w
    else Merge(p, MergeAll(p, w, targets[..|targets| - 1]), targets[|targets| - 1])
  }

  function Report(w: Worklist, k: nat, problems: set<Problem>): Worklist {
    w.(diagnostics := w.diagnostics + set x | x in problems :: Diagnostic(k, x))
  }

  function Process(p: Procedure, w: Worklist): Worklist
    requires w.queue != []
  {
    var n := w.queue[0];
    MergeAll(p, Report(w.(queue := w.queue[1..]), n.index, Problems(p, n)), RawTargets(p, n))
  }

  /** The worklists of successive rounds, the first one included. */
  ghost predicate IsExploration(p: Procedure, entry: Widths, rounds: seq<Worklist>) {
    && rounds != []
    && rounds[0] == Start(p, entry)
    && (forall j | 0 <= j < |rounds| - 1 :: rounds[j].queue != [] && rounds[j + 1] == Process(p, rounds[j]))
  }

  lemma ExplorationStep(p: Procedure, entry: Widths, rounds: seq<Worklist>, next: Worklist)
    requires IsExploration(p, entry, rounds) && rounds[|rounds| - 1].queue != []
    requires next == Process(p, rounds[|rounds| - 1])
    ensures IsExploration(p, entry, rounds + [next])
  {
  }

  // ----- Why an exhausted worklist decides cleanliness -----

  /** `n` has been dealt with: it is free of problems and everything it flows to is recorded. */
  ghost predicate Settled(p: Procedure, w: Worklist, n: Node) {
    Problems(p, n) == {} && forall m | Flows(p, n, m) :: Recorded(w, m)
  }

  ghost predicate DistinctContexts(states: seq<State>) {
    forall i, j | 0 <= i < j < |states| :: states[i].calls != states[j].calls
  }

  /** What every round keeps; `done` holds the nodes already processed. */
  ghost predicate Valid(p: Procedure, entry: Widths, w: Worklist, done: set<Node>) {
    && |w.states| == |p.statements|
    && Recorded(w, InitialNode(entry))
    && (forall n | Recorded(w, n) :: Reachable(p, entry, n) && (n in w.queue || n in done))
    && (forall n | n in w.queue || n in done :: Recorded(w, n))
    && (forall k | 0 <= k < |w.states| :: DistinctContexts(w.states[k]))
    && (w.diagnostics == {} ==> forall n | n in done && n !in w.queue :: Settled(p, w, n))
    && (w.diagnostics != {} ==> !Clean(p, entry))
  }

  /** Merging forgets nothing, and without a report every inside target ends up recorded. */
  lemma {:induction false} MergeAllRecords(p: Procedure, w: Worklist, targets: seq<Node>)
    requires |w.states| == |p.statements|
    ensures var w' := MergeAll(p, w, targets);
            && |w'.states| == |w.states|
            && (forall n | Recorded(w, n) :: Recorded(w', n))
            && w.diagnostics <= w'.diagnostics
            && (w'.diagnostics == {} ==>
                  forall j | 0 <= j < |targets| && targets[j].index < |p.statements| ::
                    Recorded(w', Normalized(p, targets[j])))
  {
    if targets != [] {
      MergeAllRecords(p, w, targets[..|targets| - 1]);
      MergeRecords(p, MergeAll(p, w, targets[..|targets| - 1]), targets[|targets| - 1]);
    }
  }

  lemma MergeRecords(p: Procedure, w: Worklist, target: Node)
    requires |w.states| == |p.statements|
    ensures var w' := Merge(p, w, target);
            && |w'.states| == |w.states|
            && (forall n | Recorded(w, n) :: Recorded(w', n))
            && w.diagnostics <= w'.diagnostics
            && (w'.diagnostics == {} && target.index < |p.statements| ==> Recorded(w', Normalized(p, target)))
  {
    var n := Normalized(p, target);
    if n.index < |w.states| && n.state !in w.states[n.index] && SameContext(w.states[n.index], n.state.calls).Some? {
      assert Diagnostic(n.index, IncompatibleMerge) in Merge(p, w, target).diagnostics;
    }
  }

  /** A state that conflicts with a recorded one is reported, and the procedure is not clean. */
  lemma ConflictKeepsValid(p: Procedure, entry: Widths, w: Worklist, done: set<Node>, n: Node, other: Node)
    requires Valid(p, entry, w, done) && Reachable(p, entry, n) && Recorded(w, other) && Conflict(other, n)
    ensures Valid(p, entry, w.(diagnostics := w.diagnostics + {Diagnostic(n.index, IncompatibleMerge)}), done)
  {
    var w' := w.(diagnostics := w.diagnostics + {Diagnostic(n.index, IncompatibleMerge)});
    assert Diagnostic(n.index, IncompatibleMerge) in w'.diagnostics;
    assert forall m :: Recorded(w, m) <==> Recorded(w', m);
  }

  function Queued(w: Worklist, n: Node): Worklist
    requires n.index < |w.states|
  {
    w.(states := w.states[n.index := w.states[n.index] + [n.state]], queue := w.queue + [n])
  }

  lemma QueuedIsRecorded(w: Worklist, n: Node)
    requires n.index < |w.states|
    ensures forall m :: Recorded(Queued(w, n), m) <==> Recorded(w, m) || m == n
    ensures forall m :: m in Queued(w, n).queue <==> m in w.queue || m == n
  {
  }

  lemma QueuedContextsDiffer(w: Worklist, n: Node)
    requires n.index < |w.states| && forall k | 0 <= k < |w.states| :: DistinctContexts(w.states[k])
    requires forall s | s in w.states[n.index] :: s.calls != n.state.calls
    ensures forall k | 0 <= k < |w.states| :: DistinctContexts(Queued(w, n).states[k])
  {
  }

  lemma QueuingKeepsValid(p: Procedure, entry: Widths, w: Worklist, done: set<Node>, n: Node)
    requires Valid(p, entry, w, done) && Reachable(p, entry, n) && n.index < |w.states|
    requires forall s | s in w.states[n.index] :: s.calls != n.state.calls
    ensures Valid(p, entry, Queued(w, n), done)
  {
    QueuedIsRecorded(w, n);
    QueuedContextsDiffer(w, n);
  }

  lemma MergeKeepsValid(p: Procedure, entry: Widths, w: Worklist, done: set<Node>, target: Node)
    requires Valid(p, entry, w, done)
    requires target.index < |p.statements| ==> Reachable(p, entry, Normalized(p, target))
    ensures Valid(p, entry, Merge(p, w, target), done)
  {
    var n := Normalized(p, target);
    if n.index < |w.states| && n.state !in w.states[n.index] {
      var same := SameContext(w.states[n.index], n.state.calls);
      if same.Some? {
        ConflictKeepsValid(p, entry, w, done, n, Node(n.index, w.states[n.index][same.value]));
      } else {
        QueuingKeepsValid(p, entry, w, done, n);
      }
    }
  }

  lemma {:induction false} MergeAllKeepsValid(p: Procedure, entry: Widths, w: Worklist, done: set<Node>,
                                              targets: seq<Node>)
    requires Valid(p, entry, w, done)
    requires forall j | 0 <= j < |targets| && targets[j].index < |p.statements| ::
               Reachable(p, entry, Normalized(p, targets[j]))
    ensures Valid(p, entry, MergeAll(p, w, targets), done)
  {
    if targets != [] {
      var (front, last) := (targets[..|targets| - 1], targets[|targets| - 1]);
      MergeAllKeepsValid(p, entry, w, done, front);
      MergeKeepsValid(p, entry, MergeAll(p, w, front), done, last);
    }
  }

  /** Reporting the problems of a reachable node keeps the worklist valid. */
  lemma ReportKeepsValid(p: Procedure, entry: Widths, w: Worklist, done: set<Node>, n: Node)
    requires Valid(p, entry, w, done) && Recorded(w, n)
    ensures Valid(p, entry, Report(w, n.index, Problems(p, n)), done)
    ensures Report(w, n.index, Problems(p, n)).diagnostics == {} ==> Problems(p, n) == {}
  {
    var reported := Report(w, n.index, Problems(p, n));
    if x :| x in Problems(p, n) {
      assert Reachable(p, entry, n);
      assert Diagnostic(n.index, x) in reported.diagnostics;
    } else {
      assert reported == w;
    }
  }

  /** With its targets recorded and its problems reported, the head of the queue is done. */
  lemma DropKeepsValid(p: Procedure, entry: Widths, w: Worklist, done: set<Node>)
    requires Valid(p, entry, w, done) && w.queue != []
    requires w.diagnostics == {} ==> Settled(p, w, w.queue[0])
    ensures Valid(p, entry, w.(queue := w.queue[1..]), done + {w.queue[0]})
  {
    var w' := w.(queue := w.queue[1..]);
    var n := w.queue[0];
    assert w.queue == [n] + w'.queue;
    assert forall m :: Recorded(w, m) <==> Recorded(w', m);
    forall m | w'.diagnostics == {} && m in done + {n} && m !in w'.queue
      ensures Settled(p, w', m)
    {
      assert Settled(p, w, m);
    }
  }

  lemma ProcessKeepsValid(p: Procedure, entry: Widths, w: Worklist, done: set<Node>)
    requires Valid(p, entry, w, done) && w.queue != []
    ensures Valid(p, entry, Process(p, w), done + {w.queue[0]})
  {
    // Until its targets are merged, the node counts as queued so that nothing is claimed about it.
    var n := w.queue[0];
    var targets := RawTargets(p, n);
    var reported := Report(w, n.index, Problems(p, n));
    var merged := MergeAll(p, reported, targets);
    assert Recorded(w, n) && Reachable(p, entry, n);
    ReportKeepsValid(p, entry, w, done, n);
    forall j | 0 <= j < |targets| && targets[j].index < |p.statements|
      ensures Reachable(p, entry, Normalized(p, targets[j]))
    {
      assert Flows(p, n, Normalized(p, targets[j]));
      ReachableStep(p, entry, n, Normalized(p, targets[j]));
    }
    MergeAllKeepsValid(p, entry, reported, done, targets);
    MergeAllRecords(p, reported, targets);
    ReportThenDrop(p, w, n.index, Problems(p, n), targets);
    DropKeepsValid(p, entry, merged, done);
  }

  /** Merging only appends to the queue, so its head can be removed before or after. */
  lemma {:induction false} ReportThenDrop(p: Procedure, w: Worklist, k: nat, problems: set<Problem>, targets: seq<Node>)
    requires w.queue != []
    ensures var early := MergeAll(p, Report(w.(queue := w.queue[1..]), k, problems), targets);
            var late := MergeAll(p, Report(w, k, problems), targets);
            late.queue != [] && late.queue[0] == w.queue[0] && early == late.(queue := late.queue[1..])
  {
    if targets != [] {
      ReportThenDrop(p, w, k, problems, targets[..|targets| - 1]);
    }
  }

  lemma StartValid(p: Procedure, entry: Widths)
    requires p.statements != []
    ensures Valid(p, entry, Start(p, entry), {})
  {
    ReachableStart(p, entry);
  }

  lemma {:induction false} ExplorationValid(p: Procedure, entry: Widths, rounds: seq<Worklist>)
    returns (done: set<Node>)
    requires p.statements != [] && IsExploration(p, entry, rounds)
    ensures Valid(p, entry, rounds[|rounds| - 1], done)
  {
    if |rounds| == 1 {
      StartValid(p, entry);
      done := {};
    } else {
      var before := rounds[|rounds| - 2];
      done := ExplorationValid(p, entry, rounds[..|rounds| - 1]);
      ProcessKeepsValid(p, entry, before, done);
      done := done + {before.queue[0]};
    }
  }

  /** An exhausted worklist has reported nothing exactly for the clean procedures. */
  lemma ExplorationDecides(p: Procedure, entry: Widths, rounds: seq<Worklist>)
    requires p.statements != [] && IsExploration(p, entry, rounds)
    ensures var w := rounds[|rounds| - 1];
            w.queue == [] ==> (w.diagnostics == {} <==> Clean(p, entry))
  {
    var done := ExplorationValid(p, entry, rounds);
    var w := rounds[|rounds| - 1];
    if w.queue == [] && w.diagnostics == {} {
      ExhaustedIsClean(p, entry, w, done);
    }
  }

  lemma ExhaustedIsClean(p: Procedure, entry: Widths, w: Worklist, done: set<Node>)
    requires Valid(p, entry, w, done) && w.queue == [] && w.diagnostics == {}
    ensures Clean(p, entry)
  {
    forall n | Reachable(p, entry, n)
      ensures n in done && Settled(p, w, n) && Recorded(w, n)
    {
      assert forall m, m' | m in done && Flows(p, m, m') :: Settled(p, w, m) && Recorded(w, m') && m' in done;
      ClosedSetHoldsReachable(p, entry, done, n);
    }
    forall m, n | Reachable(p, entry, m) && Reachable(p, entry, n)
      ensures !Conflict(m, n)
    {
      if m.index == n.index {
        assert Recorded(w, m) && Recorded(w, n) && DistinctContexts(w.states[m.index]);
      }
    }
  }
}
