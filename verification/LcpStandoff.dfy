/** Two machines that propose the same magic number. If exactly one of the lists draws a Reject, the other
    machine takes another number in the meantime; if not, they change numbers together for ever. */
module LcpStandoff {
  import opened Octets
  import opened LcpCodec
  import opened LcpPolicy
  import opened LcpConvergence
  import opened Rfc1661
  import opened LcpSpec
  import opened LcpRuns
  import opened LcpLink
  import opened LcpMagic
  import opened LcpDialogue

  // ----- Only A's list is rejected -----

  /** B's request, sent before anything was read, is judged before A reads the Reject, and so B's Nak is on its
      way before A asks again. */
  predicate Uneven(l: Link, a: Phase, b: Phase, policyA: Policy, policyB: Policy) {
    && Speaks(l, a, b, policyA, policyB)
    && FirstMagic(l.a.options).Some? && FirstMagic(l.a.options) == FirstMagic(l.b.options)
    && Verdict(l.b, l.a, policyA).Naked? && b != Agreed
    && match Verdict(l.a, l.b, policyB)
       case Rejected(_) =>
         && a != Agreed
         && (a == Asking && b == Answered ==> l.toB == [Request(l.a)] + AnswerIn(b, l.b, l.a, policyA))
         && (a == Answered && b == Asking ==> l.toA == [Request(l.b)] + AnswerIn(a, l.a, l.b, policyB))
       case Naked(_) =>
         a == Asking && b == Answered && l.toB == AnswerIn(b, l.b, l.a, policyA) + [Request(l.a)]
       case Acked(_) => false
  }

  lemma RequestToA(l: Link, a: Phase, policyA: Policy, policyB: Policy, now: Millis)
    requires Uneven(l, a, Asking, policyA, policyB)
    ensures var l' := Deliver(l, now, policyA);
            && Uneven(l', a, Answered, policyA, policyB)
            && TotalLeft(l', a, Answered, policyA, policyB) < TotalLeft(l, a, Asking, policyA, policyB)
  {
    assert l.toA == [Request(l.b)] + AnswerIn(a, l.a, l.b, policyB);
    RequestDelivered(l, a, policyA, policyB, now);
  }

  lemma RejectToA(l: Link, policyA: Policy, policyB: Policy, now: Millis)
    requires Uneven(l, Answered, Answered, policyA, policyB)
    ensures var l' := Deliver(l, now, policyA);
            && Uneven(l', Asking, Answered, policyA, policyB)
            && TotalLeft(l', Asking, Answered, policyA, policyB) < TotalLeft(l, Answered, Answered, policyA, policyB)
  {
    assert l.toA == AnswerIn(Answered, l.a, l.b, policyB) + RequestIn(Answered, l.b);
    var m := CorrectionDelivered(l, Answered, policyA, policyB, now);
    CorrectionMovesMagic(l.a.options, policyB, FirstMagic(l.b.options));
    RanksLower(l.a, l.b, policyB, m);
    CorrectionStep(l, Answered, policyA, policyB, m);
    OwnNumberIsNotAcked(m.options, policyB, FirstMagic(l.b.options));
  }

  lemma UnevenToA(l: Link, a: Phase, b: Phase, policyA: Policy, policyB: Policy, now: Millis)
    returns (a': Phase, b': Phase)
    requires Uneven(l, a, b, policyA, policyB) && l.toA != []
    ensures var l' := Deliver(l, now, policyA);
            && Uneven(l', a', b', policyA, policyB)
            && TotalLeft(l', a', b', policyA, policyB) < TotalLeft(l, a, b, policyA, policyB)
  {
    if b == Asking {
      RequestToA(l, a, policyA, policyB, now);
      a', b' := a, Answered;
    } else {
      RejectToA(l, policyA, policyB, now);
      a', b' := Asking, Answered;
    }
  }

  lemma RequestToB(l: Link, b: Phase, policyA: Policy, policyB: Policy, now: Millis)
    requires Uneven(l, Asking, b, policyA, policyB) && Verdict(l.a, l.b, policyB).Rejected?
    ensures var l' := Swap(Deliver(Swap(l), now, policyB));
            && Uneven(l', Answered, b, policyA, policyB)
            && TotalLeft(l', Answered, b, policyA, policyB) < TotalLeft(l, Asking, b, policyA, policyB)
  {
    var s := Swap(l);
    assert Swap(s) == l;
    assert s.toA == [Request(s.b)] + AnswerIn(b, s.a, s.b, policyA);
    RequestDelivered(s, b, policyB, policyA, now);
    var t := Deliver(s, now, policyB);
    assert Swap(Swap(t)) == t;
  }

  /** B takes another number, and A's list is judged by it as before or not at all yet. */
  lemma NakMovesApart(a: Lcp, b: Lcp, phase: Phase, policyA: Policy, policyB: Policy, m: Lcp)
    requires NoRepeats(b.options) && Verdict(b, a, policyA).Naked?
    requires FirstMagic(a.options).Some? && FirstMagic(a.options) == FirstMagic(b.options)
    requires Corrected(b.options, Verdict(b, a, policyA)) == Some(m.options)
    requires Verdict(a, b, policyB).Rejected? || (phase == Asking && Verdict(a, b, policyB).Naked?)
    ensures NoRepeats(m.options) && Apart(FirstMagic(a.options), FirstMagic(m.options))
    ensures SameForPeer(b, a, phase, policyB, m)
  {
    CorrectionMovesMagic(b.options, policyA, FirstMagic(a.options));
    RefusalIgnoresJudge(a.options, policyB, FirstMagic(b.options), FirstMagic(m.options));
  }

  lemma NakToB(l: Link, a: Phase, policyA: Policy, policyB: Policy, now: Millis)
    requires Uneven(l, a, Answered, policyA, policyB) && (a == Asking ==> Verdict(l.a, l.b, policyB).Naked?)
    ensures var l' := Swap(Deliver(Swap(l), now, policyB));
            && Talks(l', a, Asking, policyA, policyB)
            && TotalLeft(l', a, Asking, policyA, policyB) < TotalLeft(l, a, Answered, policyA, policyB)
  {
    var s := Swap(l);
    assert Swap(s) == l;
    assert s.toA == AnswerIn(Answered, s.a, s.b, policyA) + RequestIn(a, s.b);
    var m := CorrectionDelivered(s, a, policyB, policyA, now);
    NakMovesApart(l.a, l.b, a, policyA, policyB, m);
    RanksLower(s.a, s.b, policyA, m);
    CorrectionStep(s, a, policyB, policyA, m);
    TalksSwap(Swap(Deliver(s, now, policyB)), a, Asking, policyA, policyB);
    assert Swap(Swap(Deliver(s, now, policyB))) == Deliver(s, now, policyB);
  }

  /** What is delivered to B takes the machines on, or ends the standoff. */
  lemma UnevenToB(l: Link, a: Phase, b: Phase, policyA: Policy, policyB: Policy, now: Millis)
    returns (a': Phase, b': Phase)
    requires Uneven(l, a, b, policyA, policyB) && l.toB != []
    ensures var l' := Swap(Deliver(Swap(l), now, policyB));
            && (Uneven(l', a', b', policyA, policyB) || Talks(l', a', b', policyA, policyB))
            && TotalLeft(l', a', b', policyA, policyB) < TotalLeft(l, a, b, policyA, policyB)
  {
    if a == Asking && Verdict(l.a, l.b, policyB).Rejected? {
      RequestToB(l, b, policyA, policyB, now);
      a', b' := Answered, b;
    } else {
      NakToB(l, a, policyA, policyB, now);
      a', b' := a, Asking;
    }
  }

  // ----- Both lists are rejected, or neither -----

  /** Still asking, with a number that the peer has proposed as well. */
  predicate Stuck(m: Lcp) {
    Invariant(m) && NoRepeats(m.options) && m.state == RequestSent && FirstMagic(m.options).Some?
  }

  /** Who has judged the other's request, and who has then corrected its own. */
  datatype Stage = NoneJudged | AJudged | BJudged | BothJudged | ACorrected | BCorrected

  function Mirror(stage: Stage): Stage {
    match stage
    case AJudged => BJudged
    case BJudged => AJudged
    case ACorrected => BCorrected
    case BCorrected => ACorrected
    case _ => stage
  }

  /** The number a machine goes on with when it is judged by one with the same number. */
  function NextNumber(m: Lcp, policy: Policy): Option<Word32> {
    var number := FirstMagic(m.options);
    if number.Some? && Verdict(m, m, policy).Naked? then Some(NextMagic(number.value)) else number
  }

  predicate Even(a: Lcp, b: Lcp, policyA: Policy, policyB: Policy) {
    && FirstMagic(a.options) == FirstMagic(b.options)
    && (Verdict(a, a, policyB).Rejected? <==> Verdict(b, b, policyA).Rejected?)
  }

  /** `a` has corrected its list and `b` will. */
  predicate Ahead(a: Lcp, b: Lcp, policyA: Policy, policyB: Policy) {
    FirstMagic(a.options) == NextNumber(b, policyA) && !Verdict(a, a, policyB).Rejected?
  }

  predicate Level(l: Link, stage: Stage, policyA: Policy, policyB: Policy) {
    && Stuck(l.a) && Stuck(l.b)
    && var (toA, toB) := (Answer(l.a, l.a, policyB), Answer(l.b, l.b, policyA));
       match stage
       case NoneJudged => Even(l.a, l.b, policyA, policyB) && l.toA == [Request(l.b)] && l.toB == [Request(l.a)]
       case AJudged => Even(l.a, l.b, policyA, policyB) && l.toA == [] && l.toB == [Request(l.a), toB]
       case BJudged => Even(l.a, l.b, policyA, policyB) && l.toA == [Request(l.b), toA] && l.toB == []
       case BothJudged => Even(l.a, l.b, policyA, policyB) && l.toA == [toA] && l.toB == [toB]
       case ACorrected => Ahead(l.a, l.b, policyA, policyB) && l.toA == [] && l.toB == [toB, Request(l.a)]
       case BCorrected => Ahead(l.b, l.a, policyB, policyA) && l.toA == [toA, Request(l.b)] && l.toB == []
  }

  lemma LevelSwap(l: Link, stage: Stage, policyA: Policy, policyB: Policy)
    ensures Level(l, stage, policyA, policyB) <==> Level(Swap(l), Mirror(stage), policyB, policyA)
  {
  }

  /** A request with one's own number is answered, and nothing else changes. */
  lemma JudgesEven(m: Lcp, asker: Lcp, now: Millis, policy: Policy)
    requires Stuck(m) && Stuck(asker) && FirstMagic(m.options) == FirstMagic(asker.options)
    ensures var s := Receive(m, Wire(Request(asker)), now, policy);
            && Stuck(s.machine) && PacketsOf(s) == [Answer(asker, asker, policy)]
            && s.machine.options == m.options && s.machine.requestIdentifier == m.requestIdentifier
  {
    TakesRequest(m, asker, now, policy);
    OwnNumberIsNotAcked(asker.options, policy, FirstMagic(m.options));
  }

  /** The answer of a peer with the same number is a correction, after which a Reject is out of question. */
  lemma CorrectsItself(m: Lcp, now: Millis, policy: Policy, other: Policy)
    requires Stuck(m)
    ensures var s := Receive(m, Wire(Answer(m, m, policy)), now, other);
            && Stuck(s.machine) && PacketsOf(s) == [Request(s.machine)]
            && FirstMagic(s.machine.options) == NextNumber(m, policy)
            && !Verdict(s.machine, s.machine, policy).Rejected?
  {
    var s := Receive(m, Wire(Answer(m, m, policy)), now, other);
    OwnNumberIsNotAcked(m.options, policy, FirstMagic(m.options));
    TakesCorrection(m, m, now, policy, other);
    CorrectionMovesMagic(m.options, policy, FirstMagic(m.options));
    RanksLower(m, m, policy, s.machine);
    RefusalIgnoresJudge(s.machine.options, policy, FirstMagic(m.options), FirstMagic(s.machine.options));
  }

  function StageAfterA(stage: Stage): Stage {
    match stage
    case NoneJudged => AJudged
    case BJudged => BothJudged
    case BothJudged => ACorrected
    case BCorrected => NoneJudged
    case _ => stage
  }

  lemma JudgingStep(l: Link, stage: Stage, policyA: Policy, policyB: Policy, m: Lcp)
    requires Level(l, stage, policyA, policyB) && (stage == NoneJudged || stage == BJudged)
    requires Stuck(m) && m.options == l.a.options && m.requestIdentifier == l.a.requestIdentifier
    ensures Level(Delivered(l, m, [Answer(l.b, l.b, policyA)]), StageAfterA(stage), policyA, policyB)
  {
    assert [Request(l.a)] + [Answer(l.b, l.b, policyA)] == [Request(l.a), Answer(l.b, l.b, policyA)];
    assert [] + [Answer(l.b, l.b, policyA)] == [Answer(l.b, l.b, policyA)];
  }

  lemma CorrectingStep(l: Link, stage: Stage, policyA: Policy, policyB: Policy, m: Lcp)
    requires Level(l, stage, policyA, policyB) && (stage == BothJudged || stage == BCorrected)
    requires Stuck(m) && FirstMagic(m.options) == NextNumber(l.a, policyB) && !Verdict(m, m, policyB).Rejected?
    ensures Level(Delivered(l, m, [Request(m)]), StageAfterA(stage), policyA, policyB)
  {
    assert [Answer(l.b, l.b, policyA)] + [Request(m)] == [Answer(l.b, l.b, policyA), Request(m)];
    assert [] + [Request(m)] == [Request(m)];
    if stage == BothJudged { EvenNumbersMove(l.a, l.b, policyA, policyB); }
  }

  lemma EvenNumbersMove(a: Lcp, b: Lcp, policyA: Policy, policyB: Policy)
    requires Stuck(a) && Stuck(b) && Even(a, b, policyA, policyB)
    ensures NextNumber(a, policyB) == NextNumber(b, policyA)
  {
    OwnNumberIsNotAcked(a.options, policyB, FirstMagic(a.options));
    OwnNumberIsNotAcked(b.options, policyA, FirstMagic(b.options));
  }

  lemma LevelToA(l: Link, stage: Stage, policyA: Policy, policyB: Policy, now: Millis) returns (stage': Stage)
    requires Level(l, stage, policyA, policyB)
    ensures Level(Deliver(l, now, policyA), stage', policyA, policyB)
  {
    stage' := StageAfterA(stage);
    if l.toA != [] {
      DeliverIs(l, now, policyA);
      var m := Receive(l.a, Wire(l.toA[0]), now, policyA).machine;
      if stage == NoneJudged || stage == BJudged {
        JudgesEven(l.a, l.b, now, policyA);
        JudgingStep(l, stage, policyA, policyB, m);
      } else {
        CorrectsItself(l.a, now, policyB, policyA);
        CorrectingStep(l, stage, policyA, policyB, m);
      }
    }
  }

  lemma LevelToB(l: Link, stage: Stage, policyA: Policy, policyB: Policy, now: Millis) returns (stage': Stage)
    requires Level(l, stage, policyA, policyB)
    ensures Level(Swap(Deliver(Swap(l), now, policyB)), stage', policyA, policyB)
  {
    LevelSwap(l, stage, policyA, policyB);
    var mirrored := LevelToA(Swap(l), Mirror(stage), policyB, policyA, now);
    stage' := Mirror(mirrored);
    LevelSwap(Deliver(Swap(l), now, policyB), mirrored, policyB, policyA);
  }
}
