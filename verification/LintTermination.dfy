/** How many rounds an exploration can take: call contexts are determined by the calls they are
    made of, so only local calls that nest without end keep the queue from running empty. */
module LintTermination {
  import opened Octets
  import opened Asm65816
  import opened WidthLint
  import opened LintWorklist

  // ----- Every round but the first takes one recorded state from the queue -----

  ghost function Total(states: seq<seq<State>>): nat {
    if states == [] then 0 else Total(states[..|states| - 1]) + |states[|states| - 1]|
  }

  lemma {:induction false} TotalAfterAppend(states: seq<seq<State>>, k: nat, s: State)
    requires k < |states|
    ensures Total(states[k := states[k] + [s]]) == Total(states) + 1
  {
    var longer := states[k := states[k] + [s]];
    var last := |states| - 1;
    if k == last {
      assert longer[..last] == states[..last];
    } else {
      TotalAfterAppend(states[..last], k, s);
      assert longer[..last] == states[..last][k := states[k] + [s]];
    }
  }

  lemma {:induction false} MergeAllKeepsBalance(p: Procedure, w: Worklist, targets: seq<Node>)
    requires |w.states| == |p.statements|
    ensures var w' := MergeAll(p, w, targets);
            |w'.states| == |w.states| && Total(w'.states) - |w'.queue| == Total(w.states) - |w.queue|
  {
    if targets != [] {
      var front := MergeAll(p, w, targets[..|targets| - 1]);
      var n := Normalized(p, targets[|targets| - 1]);
      MergeAllKeepsBalance(p, w, targets[..|targets| - 1]);
      if n.index < |front.states| {
        TotalAfterAppend(front.states, n.index, n.state);
      }
    }
  }

  lemma {:induction false} TotalBound(states: seq<seq<State>>, bound: nat)
    requires forall k | 0 <= k < |states| :: |states[k]| <= bound
    ensures Total(states) <= |states| * bound
  {
    if states != [] {
      TotalBound(states[..|states| - 1], bound);
    }
  }

  lemma {:induction false} ExplorationBalance(p: Procedure, entry: Widths, rounds: seq<Worklist>)
    requires p.statements != [] && IsExploration(p, entry, rounds)
    ensures var w := rounds[|rounds| - 1];
            |w.states| == |p.statements| && Total(w.states) == |w.queue| + |rounds| - 1
  {
    if |rounds| == 1 {
      StartTotal(p, entry, |p.statements|);
      assert rounds[0].states[..|p.statements|] == rounds[0].states;
    } else {
      var before := rounds[|rounds| - 2];
      var n := before.queue[0];
      ExplorationBalance(p, entry, rounds[..|rounds| - 1]);
      MergeAllKeepsBalance(p, Report(before.(queue := before.queue[1..]), n.index, Problems(p, n)), RawTargets(p, n));
    }
  }

  lemma {:induction false} StartTotal(p: Procedure, entry: Widths, k: nat)
    requires k <= |p.statements|
    ensures Total(Start(p, entry).states[..k]) == if k == 0 then 0 else 1
  {
    var states := Start(p, entry).states;
    if k > 0 {
      StartTotal(p, entry, k - 1);
      assert states[..k][..k - 1] == states[..k - 1];
    }
  }

  // ----- A context is determined by where its calls return to -----

  predicate IsCallState(w: Worklist, f: Frame, outer: seq<Frame>, s: State) {
    && 0 < f.returnIndex && Recorded(w, Node(f.returnIndex - 1, s))
    && s.calls == outer && s.stack == f.stack
  }

  ghost predicate HasCallState(w: Worklist, f: Frame, outer: seq<Frame>) {
    exists s :: IsCallState(w, f, outer, s)
  }

  /** The state in which the innermost active call was made is on record. */
  ghost predicate CallRecorded(p: Procedure, w: Worklist, calls: seq<Frame>) {
    calls != [] ==>
      && 0 < calls[|calls| - 1].returnIndex <= |p.statements|
      && HasCallState(w, calls[|calls| - 1], calls[..|calls| - 1])
  }

  ghost predicate CallsRecorded(p: Procedure, w: Worklist) {
    forall n | Recorded(w, n) :: CallRecorded(p, w, n.state.calls)
  }

  lemma RecordedForGood(p: Procedure, w: Worklist, w': Worklist, calls: seq<Frame>)
    requires CallRecorded(p, w, calls) && forall n | Recorded(w, n) :: Recorded(w', n)
    ensures CallRecorded(p, w', calls)
  {
    if calls != [] {
      var s :| IsCallState(w, calls[|calls| - 1], calls[..|calls| - 1], s);
      assert IsCallState(w', calls[|calls| - 1], calls[..|calls| - 1], s);
    }
  }

  lemma EnteredCall(p: Procedure, w: Worklist, n: Node, f: Frame)
    requires Recorded(w, n) && n.index < |p.statements| && f == Frame(n.index + 1, n.state.stack)
    ensures CallRecorded(p, w, n.state.calls + [f])
  {
    var calls := n.state.calls + [f];
    assert calls[..|calls| - 1] == n.state.calls;
    assert IsCallState(w, f, calls[..|calls| - 1], n.state);
  }

  lemma LeftCall(p: Procedure, w: Worklist, calls: seq<Frame>)
    requires CallsRecorded(p, w) && CallRecorded(p, w, calls) && calls != []
    ensures CallRecorded(p, w, calls[..|calls| - 1])
  {
    var s :| IsCallState(w, calls[|calls| - 1], calls[..|calls| - 1], s);
    assert Recorded(w, Node(calls[|calls| - 1].returnIndex - 1, s));
  }

  lemma TargetCalls(p: Procedure, n: Node, j: nat)
    requires n.index < |p.statements| && j < |RawTargets(p, n)|
    ensures var (before, after) := (n.state.calls, RawTargets(p, n)[j].state.calls);
            || after == before
            || after == before + [Frame(n.index + 1, n.state.stack)]
            || (before != [] && after == before[..|before| - 1])
  {
  }

  lemma TargetCallRecorded(p: Procedure, w: Worklist, n: Node, j: nat)
    requires CallsRecorded(p, w) && Recorded(w, n) && n.index < |p.statements| && j < |RawTargets(p, n)|
    ensures CallRecorded(p, w, RawTargets(p, n)[j].state.calls)
  {
    var (before, after) := (n.state.calls, RawTargets(p, n)[j].state.calls);
    TargetCalls(p, n, j);
    ContextRecorded(p, w, n, before, after);
  }

  lemma ContextRecorded(p: Procedure, w: Worklist, n: Node, before: seq<Frame>, after: seq<Frame>)
    requires CallsRecorded(p, w) && Recorded(w, n) && n.index < |p.statements| && before == n.state.calls
    requires || after == before
             || after == before + [Frame(n.index + 1, n.state.stack)]
             || (before != [] && after == before[..|before| - 1])
    ensures CallRecorded(p, w, after)
  {
    if after == before + [Frame(n.index + 1, n.state.stack)] {
      EnteredCall(p, w, n, Frame(n.index + 1, n.state.stack));
    } else if after != before {
      LeftCall(p, w, before);
    }
  }

  lemma MergeKeepsCalls(p: Procedure, w: Worklist, target: Node)
    requires |w.states| == |p.statements| && CallsRecorded(p, w) && CallRecorded(p, w, target.state.calls)
    ensures CallsRecorded(p, Merge(p, w, target))
  {
    var w' := Merge(p, w, target);
    MergeRecords(p, w, target);
    forall n | Recorded(w', n)
      ensures CallRecorded(p, w', n.state.calls)
    {
      assert Recorded(w, n) || n == Normalized(p, target);
      RecordedForGood(p, w, w', n.state.calls);
    }
  }

  lemma {:induction false} MergeAllKeepsCalls(p: Procedure, w: Worklist, targets: seq<Node>)
    requires |w.states| == |p.statements| && CallsRecorded(p, w)
    requires forall j | 0 <= j < |targets| :: CallRecorded(p, w, targets[j].state.calls)
    ensures CallsRecorded(p, MergeAll(p, w, targets))
  {
    if targets != [] {
      var (front, last) := (targets[..|targets| - 1], targets[|targets| - 1]);
      MergeAllKeepsCalls(p, w, front);
      MergeAllRecords(p, w, front);
      RecordedForGood(p, w, MergeAll(p, w, front), last.state.calls);
      MergeKeepsCalls(p, MergeAll(p, w, front), last);
    }
  }

  lemma SameRecords(p: Procedure, w: Worklist, w': Worklist)
    requires CallsRecorded(p, w) && w'.states == w.states
    ensures CallsRecorded(p, w')
  {
    assert forall n :: Recorded(w, n) <==> Recorded(w', n);
    forall n | Recorded(w', n)
      ensures CallRecorded(p, w', n.state.calls)
    {
      RecordedForGood(p, w, w', n.state.calls);
    }
  }

  lemma ProcessKeepsCalls(p: Procedure, w: Worklist)
    requires |w.states| == |p.statements| && w.queue != [] && CallsRecorded(p, w) && Recorded(w, w.queue[0])
    ensures CallsRecorded(p, Process(p, w))
  {
    var n := w.queue[0];
    var reported := Report(w.(queue := w.queue[1..]), n.index, Problems(p, n));
    SameRecords(p, w, reported);
    forall j | 0 <= j < |RawTargets(p, n)|
      ensures CallRecorded(p, reported, RawTargets(p, n)[j].state.calls)
    {
      TargetCallRecorded(p, reported, n, j);
    }
    MergeAllKeepsCalls(p, reported, RawTargets(p, n));
  }

  lemma {:induction false} ExplorationRecordsCalls(p: Procedure, entry: Widths, rounds: seq<Worklist>)
    requires p.statements != [] && IsExploration(p, entry, rounds)
    ensures CallsRecorded(p, rounds[|rounds| - 1])
  {
    if |rounds| > 1 {
      var front := rounds[..|rounds| - 1];
      ExplorationRecordsCalls(p, entry, front);
      var done := ExplorationValid(p, entry, front);
      ProcessKeepsCalls(p, front[|front| - 1]);
    }
  }

  // ----- Counting contexts -----

  function Power(base: nat, exponent: nat): nat {
    if exponent == 0 then 1 else Power(base, exponent - 1) * base
  }

  /** The return indices of a context, read as the digits of a number. */
  function Code(calls: seq<Frame>, base: nat): nat {
    if calls == [] then 0 else Code(calls[..|calls| - 1], base) * base + calls[|calls| - 1].returnIndex
  }

  lemma ProductOfNats(a: nat, b: nat)
    ensures a * b >= 0
  {
  }

  lemma NextMultiple(a: int, b: int)
    ensures (a + 1) * b == a * b + b
  {
  }

  lemma FurtherApart(x: nat, y: nat, base: nat)
    ensures x < y ==> x * base + base <= y * base
  {
    if x < y {
      ProductOfNats(y - x - 1, base);
      assert (y - x - 1) * base == y * base - (x + 1) * base;
      NextMultiple(x, base);
    }
  }

  lemma SameDigits(x: nat, y: nat, r: nat, s: nat, base: nat)
    requires r < base && s < base && x * base + r == y * base + s
    ensures x == y && r == s
  {
    FurtherApart(x, y, base);
    FurtherApart(y, x, base);
  }

  lemma DigitBelow(x: nat, power: nat, r: nat, base: nat)
    requires x < power && r < base
    ensures x * base + r < power * base
  {
    assert power * base >= (x + 1) * base;
  }

  lemma {:induction false} PowerIsPositive(base: nat, exponent: nat)
    requires base > 0
    ensures Power(base, exponent) > 0
  {
    if exponent > 0 {
      PowerIsPositive(base, exponent - 1);
    }
  }

  lemma {:induction false} CodeBelow(p: Procedure, w: Worklist, calls: seq<Frame>, depth: nat)
    requires CallsRecorded(p, w) && CallRecorded(p, w, calls) && |calls| <= depth
    ensures Code(calls, |p.statements| + 1) < Power(|p.statements| + 1, depth)
    decreases depth
  {
    var base := |p.statements| + 1;
    if calls == [] {
      PowerIsPositive(base, depth);
    } else {
      var front := calls[..|calls| - 1];
      LeftCall(p, w, calls);
      CodeBelow(p, w, front, depth - 1);
      DigitBelow(Code(front, base), Power(base, depth - 1), calls[|calls| - 1].returnIndex, base);
    }
  }

  /** A call statement has one recorded state in each context, so equal frames follow from equal indices. */
  lemma SameFrame(p: Procedure, w: Worklist, f: Frame, g: Frame, outer: seq<Frame>, s: State, t: State)
    requires forall k | 0 <= k < |w.states| :: DistinctContexts(w.states[k])
    requires IsCallState(w, f, outer, s) && IsCallState(w, g, outer, t) && f.returnIndex == g.returnIndex
    ensures f == g
  {
    var states := w.states[f.returnIndex - 1];
    assert DistinctContexts(states);
    var i :| 0 <= i < |states| && states[i] == s;
    var j :| 0 <= j < |states| && states[j] == t;
    assert i == j;
  }

  lemma LastDigit(a: seq<Frame>, b: seq<Frame>, base: nat)
    requires a != [] && b != [] && Code(a, base) == Code(b, base)
    requires a[|a| - 1].returnIndex < base && b[|b| - 1].returnIndex < base
    ensures Code(a[..|a| - 1], base) == Code(b[..|b| - 1], base) && a[|a| - 1].returnIndex == b[|b| - 1].returnIndex
  {
    SameDigits(Code(a[..|a| - 1], base), Code(b[..|b| - 1], base), a[|a| - 1].returnIndex, b[|b| - 1].returnIndex,
        base);
  }

  lemma CodeIsPositive(calls: seq<Frame>, base: nat)
    requires calls != [] && calls[|calls| - 1].returnIndex > 0
    ensures Code(calls, base) > 0
  {
  }

  lemma SameContextFrame(p: Procedure, w: Worklist, a: seq<Frame>, b: seq<Frame>)
    requires a != [] && b != [] && CallRecorded(p, w, a) && CallRecorded(p, w, b)
    requires forall k | 0 <= k < |w.states| :: DistinctContexts(w.states[k])
    requires a[..|a| - 1] == b[..|b| - 1] && a[|a| - 1].returnIndex == b[|b| - 1].returnIndex
    ensures a == b
  {
    var (f, g, outer) := (a[|a| - 1], b[|b| - 1], a[..|a| - 1]);
    var s :| IsCallState(w, f, outer, s);
    var t :| IsCallState(w, g, outer, t);
    SameFrame(p, w, f, g, outer, s, t);
    assert a == outer + [f] && b == outer + [g];
  }

  lemma {:induction false} SameCode(p: Procedure, w: Worklist, a: seq<Frame>, b: seq<Frame>)
    requires CallsRecorded(p, w) && CallRecorded(p, w, a) && CallRecorded(p, w, b)
    requires forall k | 0 <= k < |w.states| :: DistinctContexts(w.states[k])
    requires Code(a, |p.statements| + 1) == Code(b, |p.statements| + 1)
    ensures a == b
    decreases |a|
  {
    var base := |p.statements| + 1;
    if a != [] && b != [] {
      LastDigit(a, b, base);
      LeftCall(p, w, a);
      LeftCall(p, w, b);
      SameCode(p, w, a[..|a| - 1], b[..|b| - 1]);
      SameContextFrame(p, w, a, b);
    } else if a != [] {
      CodeIsPositive(a, base);
    } else if b != [] {
      CodeIsPositive(b, base);
    }
  }

  ghost predicate Distinct(numbers: seq<nat>) {
    forall i, j | 0 <= i < j < |numbers| :: numbers[i] != numbers[j]
  }

  lemma {:induction false} DistinctFit(numbers: seq<nat>, room: set<nat>)
    requires Distinct(numbers) && forall x | x in numbers :: x in room
    ensures |numbers| <= |room|
  {
    if numbers != [] {
      var (front, last) := (numbers[..|numbers| - 1], numbers[|numbers| - 1]);
      assert last == numbers[|numbers| - 1];
      DistinctFit(front, room - {last});
    }
  }

  function Range(lo: nat, n: nat): (r: set<nat>)
    ensures |r| == n && forall x :: x in r <==> lo <= x < lo + n
  {
    if n == 0 then {} else Range(lo, n - 1) + {lo + n - 1}
  }

  lemma DistinctInRange(numbers: seq<nat>, lo: nat, n: nat)
    requires Distinct(numbers) && forall x | x in numbers :: lo <= x < lo + n
    ensures |numbers| <= n
  {
    DistinctFit(numbers, Range(lo, n));
  }

  lemma StatesBound(p: Procedure, w: Worklist, k: nat, depth: nat)
    requires k < |w.states| && CallsRecorded(p, w)
    requires forall j | 0 <= j < |w.states| :: DistinctContexts(w.states[j])
    requires forall n | Recorded(w, n) :: |n.state.calls| <= depth
    ensures |w.states[k]| <= Power(|p.statements| + 1, depth)
  {
    var base := |p.statements| + 1;
    var states := w.states[k];
    var codes: seq<nat> := seq(|states|, i requires 0 <= i < |states| => Code(states[i].calls, base));
    forall i | 0 <= i < |states|
      ensures codes[i] < Power(base, depth)
    {
      assert Recorded(w, Node(k, states[i]));
      CodeBelow(p, w, states[i].calls, depth);
    }
    forall i, j | 0 <= i < j < |states|
      ensures codes[i] != codes[j]
    {
      assert Recorded(w, Node(k, states[i])) && Recorded(w, Node(k, states[j])) && DistinctContexts(states);
      if codes[i] == codes[j] { SameCode(p, w, states[i].calls, states[j].calls); }
    }
    DistinctInRange(codes, 0, Power(base, depth));
  }

  /** No exploration takes more rounds, queued nodes included, than statements times what fits into the
      depth its recorded local calls reach. */
  lemma ExplorationBounded(p: Procedure, entry: Widths, depth: nat, rounds: seq<Worklist>)
    requires p.statements != [] && IsExploration(p, entry, rounds)
    requires forall n | Recorded(rounds[|rounds| - 1], n) :: |n.state.calls| <= depth
    ensures |rounds| - 1 + |rounds[|rounds| - 1].queue| <= |p.statements| * Power(|p.statements| + 1, depth)
  {
    var w := rounds[|rounds| - 1];
    var done := ExplorationValid(p, entry, rounds);
    ExplorationRecordsCalls(p, entry, rounds);
    ExplorationBalance(p, entry, rounds);
    forall k | 0 <= k < |w.states|
      ensures |w.states[k]| <= Power(|p.statements| + 1, depth)
    {
      StatesBound(p, w, k, depth);
    }
    TotalBound(w.states, Power(|p.statements| + 1, depth));
  }

  // ----- Only recursion goes on without end -----

  /** Two active calls that return to the same place. */
  predicate Recursive(s: State) {
    exists i, j :: 0 <= i < j < |s.calls| && s.calls[i].returnIndex == s.calls[j].returnIndex
  }

  lemma {:induction false} ReturnsInside(p: Procedure, w: Worklist, calls: seq<Frame>, i: nat)
    requires CallsRecorded(p, w) && CallRecorded(p, w, calls) && i < |calls|
    ensures 1 <= calls[i].returnIndex < 1 + |p.statements|
    decreases |calls|
  {
    if i < |calls| - 1 {
      LeftCall(p, w, calls);
      ReturnsInside(p, w, calls[..|calls| - 1], i);
    }
  }

  lemma ShallowWithoutRecursion(p: Procedure, w: Worklist, s: State)
    requires CallsRecorded(p, w) && CallRecorded(p, w, s.calls) && !Recursive(s)
    ensures |s.calls| <= |p.statements|
  {
    var indices: seq<nat> := seq(|s.calls|, i requires 0 <= i < |s.calls| => s.calls[i].returnIndex);
    forall i | 0 <= i < |s.calls|
      ensures 1 <= indices[i] < 1 + |p.statements|
    {
      ReturnsInside(p, w, s.calls, i);
    }
    DistinctInRange(indices, 1, |p.statements|);
  }

  /** An exploration that goes on for longer than this has recorded a local call that is active twice. */
  lemma OnlyRecursionIsEndless(p: Procedure, entry: Widths, rounds: seq<Worklist>)
    requires p.statements != [] && IsExploration(p, entry, rounds)
    requires |rounds| - 1 + |rounds[|rounds| - 1].queue| > |p.statements| * Power(|p.statements| + 1, |p.statements|)
    ensures exists n :: Recorded(rounds[|rounds| - 1], n) && Recursive(n.state)
  {
    var w := rounds[|rounds| - 1];
    if forall n | Recorded(w, n) :: !Recursive(n.state) {
      ExplorationRecordsCalls(p, entry, rounds);
      forall n | Recorded(w, n)
        ensures |n.state.calls| <= |p.statements|
      {
        ShallowWithoutRecursion(p, w, n.state);
      }
      ExplorationBounded(p, entry, |p.statements|, rounds);
    }
  }
}
