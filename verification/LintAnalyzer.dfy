/** The loop of the lint: it runs the rounds of `LintWorklist` in place. */
module LintAnalyzer {
  import opened Octets
  import opened Asm65816
  import opened WidthLint
  import opened LintWorklist
  import opened LintTermination
  import opened LintReports

  class Analyzer {
    const p: Procedure
    var states: seq<seq<State>>
    var queue: seq<Node>
    var diagnostics: set<Diagnostic>

    function View(): Worklist
      reads this
    {
      Worklist(states, queue, diagnostics)
    }

    constructor (p: Procedure, entry: Widths)
      requires p.statements != []
      ensures this.p == p && View() == Start(p, entry)
    {
      this.p := p;
      var initial := InitialNode(entry);
      states := seq(|p.statements|, k => if k == 0 then [initial.state] else []);
      queue := [initial];
      diagnostics := {};
    }

    method MergeState(target: Node)
      modifies this
      ensures View() == Merge(p, old(View()), target)
    {
      var n := Normalized(p, target);
      if n.index >= |states| {
        return;
      }
      var known := states[n.index];
      var j := 0;
      while j < |known|
        invariant 0 <= j <= |known|
        invariant forall i | 0 <= i < j :: known[i] != n.state
        invariant View() == old(View())
      {
        if known[j] == n.state {
          return;
        }
        j := j + 1;
      }
      var same := SameContext(known, n.state.calls);
      if same.Some? {
        diagnostics := diagnostics + {Diagnostic(n.index, IncompatibleMerge)};
        return;
      }
      states := states[n.index := known + [n.state]];
      queue := queue + [n];
    }

    /** Take the next node: report its problems and merge the nodes it flows to. */
    method ProcessNext()
      requires queue != []
      modifies this
      ensures View() == Process(p, old(View()))
      ensures forall k, x | x != IncompatibleMerge ::
                Diagnostic(k, x) in diagnostics
                <==> Diagnostic(k, x) in old(diagnostics)
                     || (old(queue)[0].index == k && x in Problems(p, old(queue)[0]))
    {
      var n := queue[0];
      queue := queue[1..];
      diagnostics := diagnostics + set x | x in Problems(p, n) :: Diagnostic(n.index, x);
      ghost var reported := View();
      var targets := RawTargets(p, n);
      var j := 0;
      while j < |targets|
        invariant 0 <= j <= |targets|
        invariant View() == MergeAll(p, reported, targets[..j])
      {
        MergeState(targets[j]);
        assert targets[..j + 1][..j] == targets[..j];
        j := j + 1;
      }
      assert targets[..j] == targets;
      forall k, x | x != IncompatibleMerge
        ensures Diagnostic(k, x) in diagnostics
                <==> Diagnostic(k, x) in old(diagnostics)
                     || (old(queue)[0].index == k && x in Problems(p, old(queue)[0]))
      {
        RoundReports(p, old(View()), k, x);
      }
    }

    /** Process queued nodes until none is left or `fuel` nodes have been taken. */
    method Explore(entry: Widths, fuel: nat) returns (ghost rounds: seq<Worklist>)
      requires View() == Start(p, entry)
      modifies this
      ensures IsExploration(p, entry, rounds) && rounds[|rounds| - 1] == View()
      ensures queue == [] || |rounds| == fuel + 1
    {
      rounds := [View()];
      var left := fuel;
      while queue != [] && left > 0
        invariant 0 <= left <= fuel && |rounds| == fuel - left + 1
        invariant IsExploration(p, entry, rounds) && rounds[|rounds| - 1] == View()
        decreases left
      {
        ProcessNext();
        ExplorationStep(p, entry, rounds, View());
        rounds := rounds + [View()];
        left := left - 1;
      }
    }

    /** An exhausted queue and no diagnostics: exactly the clean procedures. Without recursive local
        calls a bound that depends on the number of statements alone is enough to exhaust it. */
    method Analyze(entry: Widths, fuel: nat) returns (finished: bool, ghost rounds: seq<Worklist>)
      requires p.statements != []
      requires View() == Start(p, entry)
      modifies this
      ensures IsExploration(p, entry, rounds) && rounds[|rounds| - 1] == View()
      ensures finished <==> queue == []
      ensures !finished ==> |rounds| == fuel + 1
      ensures finished ==> (diagnostics == {} <==> Clean(p, entry))
      ensures finished ==>
                ((exists k :: Diagnostic(k, IncompatibleMerge) in diagnostics)
                 <==> exists k :: ConflictAt(p, entry, k))
      ensures finished && (forall k :: !ConflictAt(p, entry, k)) ==>
                forall k, x :: Diagnostic(k, x) in diagnostics
                               <==> exists n :: Reachable(p, entry, n) && n.index == k && x in Problems(p, n)
      ensures !finished && fuel >= |p.statements| * Power(|p.statements| + 1, |p.statements|) ==>
                exists n :: Recorded(View(), n) && Recursive(n.state)
    {
      rounds := Explore(entry, fuel);
      finished := queue == [];
      if !finished && fuel >= |p.statements| * Power(|p.statements| + 1, |p.statements|) {
        OnlyRecursionIsEndless(p, entry, rounds);
      }
      ExplorationDecides(p, entry, rounds);
      if finished { ExhaustedReports(p, entry, rounds); }
    }
  }
}
