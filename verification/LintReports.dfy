/** Where the lint reports what: its diagnostics against the nodes it has taken from the queue and against
    the reachable ones. */
module LintReports {
  import opened Octets
  import opened Asm65816
  import opened WidthLint
  import opened LintWorklist

  /** The nodes processed in the rounds of an exploration. */
  ghost predicate TakenIn(rounds: seq<Worklist>, j: nat, n: Node) {
    j < |rounds| - 1 && rounds[j].queue != [] && rounds[j].queue[0] == n
  }

  ghost predicate Taken(rounds: seq<Worklist>, n: Node) { exists j :: TakenIn(rounds, j, n) }

  ghost predicate ReportsNoMerge(w: Worklist) {
    forall k :: Diagnostic(k, IncompatibleMerge) !in w.diagnostics
  }

  /** Some state at `k` conflicts with another one. */
  ghost predicate ConflictAt(p: Procedure, entry: Widths, k: nat) {
    exists m, n :: Reachable(p, entry, m) && Reachable(p, entry, n) && Conflict(m, n) && n.index == k
  }

  // ----- One round -----

  lemma NoMergeProblem(p: Procedure, n: Node)
    ensures IncompatibleMerge !in Problems(p, n)
  {
  }

  /** Merging adds reports of conflicts only. */
  lemma MergeReports(p: Procedure, entry: Widths, w: Worklist, target: Node, k: nat, x: Problem)
    requires forall n | Recorded(w, n) :: Reachable(p, entry, n)
    requires target.index < |w.states| ==> Reachable(p, entry, Normalized(p, target))
    ensures var w' := Merge(p, w, target);
            && (Diagnostic(k, x) in w.diagnostics ==> Diagnostic(k, x) in w'.diagnostics)
            && (Diagnostic(k, x) in w'.diagnostics ==>
                  Diagnostic(k, x) in w.diagnostics || (x == IncompatibleMerge && ConflictAt(p, entry, k)))
            && forall n | Recorded(w', n) :: Reachable(p, entry, n)
  {
    var n := Normalized(p, target);
    if n.index < |w.states| && n.state !in w.states[n.index] {
      var same := SameContext(w.states[n.index], n.state.calls);
      if same.Some? {
        var other := Node(n.index, w.states[n.index][same.value]);
        assert Recorded(w, other) && Conflict(other, n);
      } else {
        QueuedIsRecorded(w, n);
      }
    }
  }

  lemma {:induction false} MergeAllReports(p: Procedure, entry: Widths, w: Worklist, targets: seq<Node>,
                                           k: nat, x: Problem)
    requires |w.states| == |p.statements| && forall n | Recorded(w, n) :: Reachable(p, entry, n)
    requires forall j | 0 <= j < |targets| && targets[j].index < |p.statements| ::
               Reachable(p, entry, Normalized(p, targets[j]))
    ensures var w' := MergeAll(p, w, targets);
            && (Diagnostic(k, x) in w.diagnostics ==> Diagnostic(k, x) in w'.diagnostics)
            && (Diagnostic(k, x) in w'.diagnostics ==>
                  Diagnostic(k, x) in w.diagnostics || (x == IncompatibleMerge && ConflictAt(p, entry, k)))
            && forall n | Recorded(w', n) :: Reachable(p, entry, n)
  {
    if targets != [] {
      var front := targets[..|targets| - 1];
      MergeAllReports(p, entry, w, front, k, x);
      MergeAllRecords(p, w, front);
      MergeReports(p, entry, MergeAll(p, w, front), targets[|targets| - 1], k, x);
    }
  }

  lemma TargetsAreReachable(p: Procedure, entry: Widths, n: Node)
    requires Reachable(p, entry, n)
    ensures forall j | 0 <= j < |RawTargets(p, n)| && RawTargets(p, n)[j].index < |p.statements| ::
              Reachable(p, entry, Normalized(p, RawTargets(p, n)[j]))
  {
    var targets := RawTargets(p, n);
    forall j | 0 <= j < |targets| && targets[j].index < |p.statements|
      ensures Reachable(p, entry, Normalized(p, targets[j]))
    {
      assert Flows(p, n, Normalized(p, targets[j]));
      ReachableStep(p, entry, n, Normalized(p, targets[j]));
    }
  }

  lemma SameRecorded(w: Worklist, w': Worklist)
    requires w'.states == w.states
    ensures forall n :: Recorded(w', n) <==> Recorded(w, n)
  {
  }

  /** A round reports the problems of the node it takes, at that node, and conflicts. */
  lemma ProcessReports(p: Procedure, entry: Widths, w: Worklist, k: nat, x: Problem)
    requires |w.states| == |p.statements| && forall n | Recorded(w, n) :: Reachable(p, entry, n)
    requires w.queue != [] && Recorded(w, w.queue[0])
    ensures var (n, w') := (w.queue[0], Process(p, w));
            && (Diagnostic(k, x) in w.diagnostics || (n.index == k && x in Problems(p, n)) ==>
                  Diagnostic(k, x) in w'.diagnostics)
            && (Diagnostic(k, x) in w'.diagnostics ==>
                  || Diagnostic(k, x) in w.diagnostics || (n.index == k && x in Problems(p, n))
                  || (x == IncompatibleMerge && ConflictAt(p, entry, k)))
  {
    var n := w.queue[0];
    var reported := Report(w.(queue := w.queue[1..]), n.index, Problems(p, n));
    SameRecorded(w, reported);
    TargetsAreReachable(p, entry, n);
    MergeAllReports(p, entry, reported, RawTargets(p, n), k, x);
  }

  lemma {:induction false} MergesKeepReports(p: Procedure, w: Worklist, targets: seq<Node>, k: nat, x: Problem)
    requires x != IncompatibleMerge
    ensures Diagnostic(k, x) in MergeAll(p, w, targets).diagnostics <==> Diagnostic(k, x) in w.diagnostics
  {
    if targets != [] {
      MergesKeepReports(p, w, targets[..|targets| - 1], k, x);
    }
  }

  /** Conflicts aside, a round adds exactly the problems of the node it takes, at its statement. */
  lemma RoundReports(p: Procedure, w: Worklist, k: nat, x: Problem)
    requires w.queue != [] && x != IncompatibleMerge
    ensures Diagnostic(k, x) in Process(p, w).diagnostics
            <==> Diagnostic(k, x) in w.diagnostics || (w.queue[0].index == k && x in Problems(p, w.queue[0]))
  {
    var n := w.queue[0];
    MergesKeepReports(p, Report(w.(queue := w.queue[1..]), n.index, Problems(p, n)), RawTargets(p, n), k, x);
  }

  // ----- Every round -----

  lemma TakenNext(rounds: seq<Worklist>, n: Node)
    requires |rounds| > 1 && rounds[|rounds| - 2].queue != []
    ensures Taken(rounds, n) <==> Taken(rounds[..|rounds| - 1], n) || n == rounds[|rounds| - 2].queue[0]
  {
    var front := rounds[..|rounds| - 1];
    if j: nat :| TakenIn(front, j, n) {
      assert TakenIn(rounds, j, n);
    }
    if n == rounds[|rounds| - 2].queue[0] {
      assert TakenIn(rounds, |rounds| - 2, n);
    }
    if j: nat :| TakenIn(rounds, j, n) {
      assert j < |rounds| - 2 ==> TakenIn(front, j, n);
    }
  }

  /** A node that was taken at `k` has the problem. */
  ghost predicate TakenWith(p: Procedure, rounds: seq<Worklist>, k: nat, x: Problem) {
    exists n :: Taken(rounds, n) && n.index == k && x in Problems(p, n)
  }

  lemma TakenWithNext(p: Procedure, rounds: seq<Worklist>, k: nat, x: Problem)
    requires |rounds| > 1 && rounds[|rounds| - 2].queue != []
    ensures var n := rounds[|rounds| - 2].queue[0];
            TakenWith(p, rounds, k, x)
            <==> TakenWith(p, rounds[..|rounds| - 1], k, x) || (n.index == k && x in Problems(p, n))
  {
    var (front, n) := (rounds[..|rounds| - 1], rounds[|rounds| - 2].queue[0]);
    TakenNext(rounds, n);
    if m :| Taken(front, m) && m.index == k && x in Problems(p, m) {
      TakenNext(rounds, m);
    }
    if m :| Taken(rounds, m) && m.index == k && x in Problems(p, m) {
      TakenNext(rounds, m);
    }
  }

  lemma {:induction false} RoundsReport(p: Procedure, entry: Widths, rounds: seq<Worklist>, k: nat, x: Problem)
    requires p.statements != [] && IsExploration(p, entry, rounds)
    ensures var w := rounds[|rounds| - 1];
            && (TakenWith(p, rounds, k, x) ==> Diagnostic(k, x) in w.diagnostics)
            && (Diagnostic(k, x) in w.diagnostics ==>
                  TakenWith(p, rounds, k, x) || (x == IncompatibleMerge && ConflictAt(p, entry, k)))
  {
    if |rounds| > 1 {
      var front := rounds[..|rounds| - 1];
      RoundsReport(p, entry, front, k, x);
      var done := ExplorationValid(p, entry, front);
      ProcessReports(p, entry, front[|front| - 1], k, x);
      TakenWithNext(p, rounds, k, x);
    }
  }

  /** Only what is reachable is recorded, and what is recorded is waiting or has been taken. */
  lemma {:induction false} TakenIsReachable(p: Procedure, entry: Widths, rounds: seq<Worklist>)
    requires p.statements != [] && IsExploration(p, entry, rounds)
    ensures var w := rounds[|rounds| - 1];
            && (forall n | Taken(rounds, n) :: Reachable(p, entry, n))
            && (forall n | Recorded(w, n) :: n in w.queue || Taken(rounds, n))
  {
    if |rounds| > 1 {
      TakenIsReachable(p, entry, rounds[..|rounds| - 1]);
      NextIsReachable(p, entry, rounds);
    }
  }

  lemma NextIsReachable(p: Procedure, entry: Widths, rounds: seq<Worklist>)
    requires p.statements != [] && IsExploration(p, entry, rounds) && |rounds| > 1
    requires var (front, w) := (rounds[..|rounds| - 1], rounds[|rounds| - 2]);
             && (forall n | Taken(front, n) :: Reachable(p, entry, n))
             && (forall n | Recorded(w, n) :: n in w.queue || Taken(front, n))
    ensures var w := rounds[|rounds| - 1];
            && (forall n | Taken(rounds, n) :: Reachable(p, entry, n))
            && (forall n | Recorded(w, n) :: n in w.queue || Taken(rounds, n))
  {
    var (front, before) := (rounds[..|rounds| - 1], rounds[|rounds| - 2]);
    var n := before.queue[0];
    var done := ExplorationValid(p, entry, front);
    assert Recorded(before, n) && Reachable(p, entry, n);
    forall m
      ensures Taken(rounds, m) <==> Taken(front, m) || m == n
    {
      TakenNext(rounds, m);
    }
    ProcessQueues(p, before);
  }

  lemma {:induction false} MergeAllQueues(p: Procedure, w: Worklist, targets: seq<Node>)
    ensures var w' := MergeAll(p, w, targets);
            && (forall m | m in w.queue :: m in w'.queue)
            && (forall m | Recorded(w', m) :: Recorded(w, m) || m in w'.queue)
  {
    if targets != [] {
      var front := MergeAll(p, w, targets[..|targets| - 1]);
      MergeAllQueues(p, w, targets[..|targets| - 1]);
      var n := Normalized(p, targets[|targets| - 1]);
      if n.index < |front.states| { QueuedIsRecorded(front, n); }
    }
  }

  lemma ProcessQueues(p: Procedure, w: Worklist)
    requires w.queue != []
    ensures forall m | m in w.queue :: m == w.queue[0] || m in Process(p, w).queue
    ensures forall m | Recorded(Process(p, w), m) :: Recorded(w, m) || m in Process(p, w).queue
  {
    var n := w.queue[0];
    var reported := Report(w.(queue := w.queue[1..]), n.index, Problems(p, n));
    SameRecorded(w, reported);
    assert w.queue == [n] + reported.queue;
    MergeAllQueues(p, reported, RawTargets(p, n));
  }

  // ----- The end -----

  lemma MergeFollows(p: Procedure, w: Worklist, target: Node)
    requires |w.states| == |p.statements|
    ensures ReportsNoMerge(Merge(p, w, target)) ==>
              && ReportsNoMerge(w)
              && (target.index < |p.statements| ==> Recorded(Merge(p, w, target), Normalized(p, target)))
  {
    var (n, w') := (Normalized(p, target), Merge(p, w, target));
    MergeRecords(p, w, target);
    if n.index < |w.states| && n.state !in w.states[n.index] {
      if SameContext(w.states[n.index], n.state.calls).Some? {
        assert Diagnostic(n.index, IncompatibleMerge) in w'.diagnostics;
      } else {
        QueuedIsRecorded(w, n);
      }
    }
  }

  lemma {:induction false} MergeAllFollows(p: Procedure, w: Worklist, targets: seq<Node>)
    requires |w.states| == |p.statements|
    ensures var w' := MergeAll(p, w, targets);
            ReportsNoMerge(w') ==>
              && ReportsNoMerge(w)
              && forall j | 0 <= j < |targets| && targets[j].index < |p.statements| ::
                   Recorded(w', Normalized(p, targets[j]))
  {
    if targets != [] {
      var front := targets[..|targets| - 1];
      MergeAllFollows(p, w, front);
      MergeAllRecords(p, w, front);
      MergeFollows(p, MergeAll(p, w, front), targets[|targets| - 1]);
      MergeRecords(p, MergeAll(p, w, front), targets[|targets| - 1]);
    }
  }

  lemma ProcessFollows(p: Procedure, w: Worklist)
    requires |w.states| == |p.statements| && w.queue != []
    ensures var w' := Process(p, w);
            && (forall n | Recorded(w, n) :: Recorded(w', n))
            && (ReportsNoMerge(w') ==> ReportsNoMerge(w) && forall m | Flows(p, w.queue[0], m) :: Recorded(w', m))
  {
    var n := w.queue[0];
    var reported := Report(w.(queue := w.queue[1..]), n.index, Problems(p, n));
    SameRecorded(w, reported);
    MergeAllRecords(p, reported, RawTargets(p, n));
    MergeAllFollows(p, reported, RawTargets(p, n));
    if ReportsNoMerge(Process(p, w)) {
      assert forall d | d in w.diagnostics :: d in reported.diagnostics;
    }
  }

  /** One round of an exploration: its state table has the size of the procedure and only grows. */
  lemma RoundGrows(p: Procedure, entry: Widths, rounds: seq<Worklist>, i: nat)
    requires p.statements != [] && IsExploration(p, entry, rounds) && i + 1 < |rounds|
    ensures var (w, w') := (rounds[i], rounds[i + 1]);
            && w.queue != [] && Recorded(w, w.queue[0])
            && (forall n | Recorded(w, n) :: Recorded(w', n))
            && (ReportsNoMerge(w') ==> ReportsNoMerge(w) && forall m | Flows(p, w.queue[0], m) :: Recorded(w', m))
  {
    var done := ExplorationValid(p, entry, rounds[..i + 1]);
    assert rounds[..i + 1][i] == rounds[i];
    ProcessFollows(p, rounds[i]);
  }

  lemma {:induction false} RecordedLater(p: Procedure, entry: Widths, rounds: seq<Worklist>, i: nat, n: Node)
    requires p.statements != [] && IsExploration(p, entry, rounds) && i < |rounds| && Recorded(rounds[i], n)
    ensures Recorded(rounds[|rounds| - 1], n)
    decreases |rounds| - i
  {
    if i + 1 < |rounds| {
      RoundGrows(p, entry, rounds, i);
      RecordedLater(p, entry, rounds, i + 1, n);
    }
  }

  lemma {:induction false} NoMergeBefore(p: Procedure, entry: Widths, rounds: seq<Worklist>, i: nat)
    requires p.statements != [] && IsExploration(p, entry, rounds) && i < |rounds|
    requires ReportsNoMerge(rounds[|rounds| - 1])
    ensures ReportsNoMerge(rounds[i])
    decreases |rounds| - i
  {
    if i + 1 < |rounds| {
      NoMergeBefore(p, entry, rounds, i + 1);
      RoundGrows(p, entry, rounds, i);
    }
  }

  /** Without a reported conflict everything a taken node flows to is recorded. */
  lemma RoundsFollow(p: Procedure, entry: Widths, rounds: seq<Worklist>, n: Node, m: Node)
    requires p.statements != [] && IsExploration(p, entry, rounds) && ReportsNoMerge(rounds[|rounds| - 1])
    requires Taken(rounds, n) && Flows(p, n, m)
    ensures Recorded(rounds[|rounds| - 1], m)
  {
    var j: nat :| TakenIn(rounds, j, n);
    NoMergeBefore(p, entry, rounds, j + 1);
    RoundGrows(p, entry, rounds, j);
    RecordedLater(p, entry, rounds, j + 1, m);
  }

  lemma TakenStays(p: Procedure, entry: Widths, rounds: seq<Worklist>, n: Node)
    requires p.statements != [] && IsExploration(p, entry, rounds) && Taken(rounds, n)
    ensures Recorded(rounds[|rounds| - 1], n)
  {
    var j: nat :| TakenIn(rounds, j, n);
    RoundGrows(p, entry, rounds, j);
    RecordedLater(p, entry, rounds, j, n);
  }

  ghost function TakenNodes(rounds: seq<Worklist>): set<Node>
    requires forall j | 0 <= j < |rounds| - 1 :: rounds[j].queue != []
  {
    set j | 0 <= j < |rounds| - 1 :: rounds[j].queue[0]
  }

  lemma TakenNodesAre(rounds: seq<Worklist>, n: Node)
    requires forall j | 0 <= j < |rounds| - 1 :: rounds[j].queue != []
    ensures n in TakenNodes(rounds) <==> Taken(rounds, n)
  {
    if j :| 0 <= j < |rounds| - 1 && rounds[j].queue[0] == n {
      assert TakenIn(rounds, j, n);
    }
  }

  /** Without a reported conflict an exhausted worklist has taken everything reachable. */
  lemma EverythingIsTaken(p: Procedure, entry: Widths, rounds: seq<Worklist>, n: Node)
    requires p.statements != [] && IsExploration(p, entry, rounds)
    requires rounds[|rounds| - 1].queue == [] && ReportsNoMerge(rounds[|rounds| - 1]) && Reachable(p, entry, n)
    ensures Taken(rounds, n) && Recorded(rounds[|rounds| - 1], n)
  {
    var (w, nodes) := (rounds[|rounds| - 1], TakenNodes(rounds));
    var done := ExplorationValid(p, entry, rounds);
    TakenIsReachable(p, entry, rounds);
    forall m
      ensures m in nodes <==> Taken(rounds, m)
    {
      TakenNodesAre(rounds, m);
    }
    forall m, m' | m in nodes && Flows(p, m, m')
      ensures m' in nodes
    {
      RoundsFollow(p, entry, rounds, m, m');
    }
    ClosedSetHoldsReachable(p, entry, nodes, n);
    TakenStays(p, entry, rounds, n);
  }

  // ----- What is reported -----

  /** In every exploration a problem is reported at a statement exactly if a node taken there has it, all nodes
      taken are reachable, and a conflict is reported only where two reachable states conflict. */
  lemma ReportsAreExact(p: Procedure, entry: Widths, rounds: seq<Worklist>, k: nat, x: Problem)
    requires p.statements != [] && IsExploration(p, entry, rounds)
    ensures x != IncompatibleMerge ==>
              (Diagnostic(k, x) in rounds[|rounds| - 1].diagnostics
               <==> exists n :: Taken(rounds, n) && n.index == k && x in Problems(p, n))
    ensures forall n | Taken(rounds, n) :: Reachable(p, entry, n)
    ensures Diagnostic(k, IncompatibleMerge) in rounds[|rounds| - 1].diagnostics ==> ConflictAt(p, entry, k)
  {
    RoundsReport(p, entry, rounds, k, x);
    RoundsReport(p, entry, rounds, k, IncompatibleMerge);
    TakenIsReachable(p, entry, rounds);
    if TakenWith(p, rounds, k, IncompatibleMerge) {
      var n :| Taken(rounds, n) && n.index == k && IncompatibleMerge in Problems(p, n);
      NoMergeProblem(p, n);
    }
  }

  /** An exhausted worklist reports a conflict exactly if two reachable states conflict somewhere; if not, its
      reports are those of all reachable nodes, each at its statement. */
  lemma ExhaustedReports(p: Procedure, entry: Widths, rounds: seq<Worklist>)
    requires p.statements != [] && IsExploration(p, entry, rounds) && rounds[|rounds| - 1].queue == []
    ensures ReportsNoMerge(rounds[|rounds| - 1]) <==> forall k :: !ConflictAt(p, entry, k)
    ensures (forall k :: !ConflictAt(p, entry, k)) ==>
              forall k, x :: Diagnostic(k, x) in rounds[|rounds| - 1].diagnostics
                             <==> exists n :: Reachable(p, entry, n) && n.index == k && x in Problems(p, n)
  {
    var w := rounds[|rounds| - 1];
    forall k: nat
      ensures Diagnostic(k, IncompatibleMerge) in w.diagnostics ==> ConflictAt(p, entry, k)
    {
      ReportsAreExact(p, entry, rounds, k, IncompatibleMerge);
    }
    if ReportsNoMerge(w) {
      NoConflictLeft(p, entry, rounds);
      forall k, x
        ensures Diagnostic(k, x) in w.diagnostics
                <==> exists n :: Reachable(p, entry, n) && n.index == k && x in Problems(p, n)
      {
        ReportedForReachable(p, entry, rounds, k, x);
      }
    }
  }

  lemma NoConflictLeft(p: Procedure, entry: Widths, rounds: seq<Worklist>)
    requires p.statements != [] && IsExploration(p, entry, rounds)
    requires rounds[|rounds| - 1].queue == [] && ReportsNoMerge(rounds[|rounds| - 1])
    ensures forall k :: !ConflictAt(p, entry, k)
  {
    var w := rounds[|rounds| - 1];
    var done := ExplorationValid(p, entry, rounds);
    forall m, n | Reachable(p, entry, m) && Reachable(p, entry, n)
      ensures !Conflict(m, n)
    {
      EverythingIsTaken(p, entry, rounds, m);
      EverythingIsTaken(p, entry, rounds, n);
      if m.index == n.index { assert DistinctContexts(w.states[m.index]); }
    }
  }

  lemma ReportedForReachable(p: Procedure, entry: Widths, rounds: seq<Worklist>, k: nat, x: Problem)
    requires p.statements != [] && IsExploration(p, entry, rounds)
    requires rounds[|rounds| - 1].queue == [] && ReportsNoMerge(rounds[|rounds| - 1])
    ensures Diagnostic(k, x) in rounds[|rounds| - 1].diagnostics
            <==> exists n :: Reachable(p, entry, n) && n.index == k && x in Problems(p, n)
  {
    RoundsReport(p, entry, rounds, k, x);
    TakenIsReachable(p, entry, rounds);
    if n :| Reachable(p, entry, n) && n.index == k && x in Problems(p, n) {
      EverythingIsTaken(p, entry, rounds, n);
      NoMergeProblem(p, n);
    }
    if Diagnostic(k, x) in rounds[|rounds| - 1].diagnostics {
      assert TakenWith(p, rounds, k, x);
    }
  }
}
