/** The two dialogues between opened machines that lose no packets and run into no timeouts: one about the
    options of either, each with one packet travelling at most. */
module LcpDialogue {
  import opened Octets
  import opened LcpCodec
  import opened LcpPolicy
  import opened LcpConvergence
  import opened Rfc1661
  import opened LcpSpec
  import opened LcpRuns
  import opened LcpLink
  import opened LcpMagic

  /** Where the dialogue about one machine's request stands: the request is travelling, its answer is, or it
      has been acknowledged. */
  datatype Phase = Asking | Answered | Agreed

  function Verdict(asker: Lcp, judge: Lcp, policy: Policy): Evaluation {
    Evaluate(asker.options, policy, FirstMagic(judge.options))
  }

  function Answer(asker: Lcp, judge: Lcp, policy: Policy): Packet {
    AnswerTo(Request(asker), Verdict(asker, judge, policy))
  }

  function RequestIn(phase: Phase, asker: Lcp): seq<Packet> { if phase == Asking then [Request(asker)] else [] }

  function AnswerIn(phase: Phase, asker: Lcp, judge: Lcp, policy: Policy): seq<Packet> {
    if phase == Answered then [Answer(asker, judge, policy)] else []
  }

  /** The judge has acknowledged the request. */
  predicate Given(phase: Phase, asker: Lcp, judge: Lcp, policy: Policy) {
    phase == Agreed || (phase == Answered && Verdict(asker, judge, policy).Acked?)
  }

  function StateOf(acked: bool, given: bool): State {
    if acked then (if given then Opened else AckReceived) else if given then AckSent else RequestSent
  }

  predicate Mixed(channel: seq<Packet>, x: seq<Packet>, y: seq<Packet>) { channel == x + y || channel == y + x }

  /** A and what is on its way to it. */
  predicate HalfTalks(l: Link, mine: Phase, other: Phase, policyA: Policy, policyB: Policy) {
    && Invariant(l.a) && NoRepeats(l.a.options)
    && l.a.state == StateOf(mine == Agreed, Given(other, l.b, l.a, policyA))
    && Mixed(l.toA, RequestIn(other, l.b), AnswerIn(mine, l.a, l.b, policyB))
  }

  /** Of either dialogue one packet is travelling or none, and the states follow from where they stand. */
  predicate Speaks(l: Link, a: Phase, b: Phase, policyA: Policy, policyB: Policy) {
    HalfTalks(l, a, b, policyA, policyB) && HalfTalks(Swap(l), b, a, policyB, policyA)
  }

  predicate Talks(l: Link, a: Phase, b: Phase, policyA: Policy, policyB: Policy) {
    Speaks(l, a, b, policyA, policyB) && Apart(FirstMagic(l.a.options), FirstMagic(l.b.options))
  }

  // ----- What is left to do -----

  function Rank(verdict: Evaluation): nat {
    match verdict
    case Rejected(_) => 2
    case Naked(_) => 1
    case Acked(_) => 0
  }

  function Left(phase: Phase, verdict: Evaluation): nat {
    match phase
    case Asking => 2 * Rank(verdict) + 2
    case Answered => 2 * Rank(verdict) + 1
    case Agreed => 0
  }

  function TotalLeft(l: Link, a: Phase, b: Phase, policyA: Policy, policyB: Policy): nat {
    Left(a, Verdict(l.a, l.b, policyB)) + Left(b, Verdict(l.b, l.a, policyA))
  }

  lemma TalksSwap(l: Link, a: Phase, b: Phase, policyA: Policy, policyB: Policy)
    ensures Talks(l, a, b, policyA, policyB) <==> Talks(Swap(l), b, a, policyB, policyA)
    ensures TotalLeft(l, a, b, policyA, policyB) == TotalLeft(Swap(l), b, a, policyB, policyA)
  {
    assert Swap(Swap(l)) == l;
  }

  // ----- What a machine does with the packet it is delivered -----

  lemma TakesRequest(m: Lcp, asker: Lcp, now: Millis, policy: Policy)
    requires Invariant(m) && (m.state == RequestSent || m.state == AckReceived) && |asker.options| <= 256
    ensures var s := Receive(m, Wire(Request(asker)), now, policy);
            var good := Verdict(asker, m, policy).Acked?;
            && Invariant(s.machine) && PacketsOf(s) == [Answer(asker, m, policy)]
            && s.machine.options == m.options && s.machine.requestIdentifier == m.requestIdentifier
            && s.machine.state == StateOf(m.state == AckReceived, good)
  {
    var p := Request(asker);
    RequestFits(asker);
    WireIsReceived(m, p, now, policy);
    EncodedOptionsParse(asker.options);
    ReceiveKeeps(m, p, now, policy);
    RequestAnswered(m, p, now, policy);
    AnswerPackets(Answer(asker, m, policy), Denote(asker.options));
  }

  lemma TakesAck(m: Lcp, judge: Lcp, now: Millis, policy: Policy, other: Policy)
    requires Invariant(m) && (m.state == RequestSent || m.state == AckSent) && Verdict(m, judge, policy).Acked?
    ensures var s := Receive(m, Wire(Answer(m, judge, policy)), now, other);
            && Invariant(s.machine) && PacketsOf(s) == []
            && s.machine.options == m.options && s.machine.requestIdentifier == m.requestIdentifier
            && s.machine.state == StateOf(true, m.state == AckSent)
  {
    var p := Answer(m, judge, policy);
    AnswerIsSent(m, judge, policy);
    WireIsReceived(m, p, now, other);
    ReceiveKeeps(m, p, now, other);
    PacketsOfOne(ThisLayerUp(PeerOrDefault(m)));
  }

  lemma AnswerIsSent(asker: Lcp, judge: Lcp, policy: Policy)
    requires |asker.options| <= 256
    ensures EncodePacket(Answer(asker, judge, policy)).Ok?
  {
    RequestFits(asker);
    EncodedOptionsParse(asker.options);
    AnswerFits(Request(asker), policy, FirstMagic(judge.options));
  }

  /** The options a Nak or Reject names are read back, and a Reject of present options is a valid one. */
  lemma CorrectionIsRead(m: Lcp, judge: Lcp, policy: Policy, now: Millis)
    requires NoRepeats(m.options) && Negotiating(m.state) && !Verdict(m, judge, policy).Acked?
    ensures var p := Answer(m, judge, policy);
            var next := Corrected(m.options, Verdict(m, judge, policy));
            && next.Some?
            && (if p.code == CONFIGURE_NAK then ReceiveConfigureNak(m, p, now) else ReceiveConfigureReject(m, p, now))
               == AfterNegativeResponse(m, next.value, now)
  {
    CorrectionMovesMagic(m.options, policy, FirstMagic(judge.options));
    match Verdict(m, judge, policy) {
      case Naked(suggestions) => EncodedOptionsParse(suggestions);
      case Rejected(refused) => EncodedOptionsParse(refused);
      case _ =>
    }
  }

  /** A corrected request goes out, with the state as it was. */
  lemma CorrectionRestarts(m: Lcp, options: seq<ConfigOption>, now: Millis)
    requires (m.state == RequestSent || m.state == AckSent) && |options| <= 256
    ensures var s := AfterNegativeResponse(m, options, now);
            s.machine.options == options && s.machine.state == m.state && PacketsOf(s) == [Request(s.machine)]
  {
    var s := AfterNegativeResponse(m, options, now);
    RequestFits(s.machine);
    SendingAnnounces(m, s, Request(s.machine));
  }

  lemma CorrectionArrives(m: Lcp, judge: Lcp, now: Millis, policy: Policy, other: Policy)
    requires NoRepeats(m.options) && |m.options| <= 256 && Negotiating(m.state) && !Verdict(m, judge, policy).Acked?
    ensures var next := Corrected(m.options, Verdict(m, judge, policy));
            && next.Some? && |next.value| <= |m.options|
            && Receive(m, Wire(Answer(m, judge, policy)), now, other) == AfterNegativeResponse(m, next.value, now)
  {
    AnswerIsSent(m, judge, policy);
    WireIsReceived(m, Answer(m, judge, policy), now, other);
    CorrectionIsRead(m, judge, policy, now);
    CorrectionMovesMagic(m.options, policy, FirstMagic(judge.options));
  }

  lemma TakesCorrection(m: Lcp, judge: Lcp, now: Millis, policy: Policy, other: Policy)
    requires Invariant(m) && NoRepeats(m.options) && (m.state == RequestSent || m.state == AckSent)
    requires !Verdict(m, judge, policy).Acked?
    ensures var s := Receive(m, Wire(Answer(m, judge, policy)), now, other);
            && Invariant(s.machine) && PacketsOf(s) == [Request(s.machine)] && s.machine.state == m.state
            && Corrected(m.options, Verdict(m, judge, policy)) == Some(s.machine.options)
  {
    CorrectionArrives(m, judge, now, policy, other);
    var next := Corrected(m.options, Verdict(m, judge, policy)).value;
    NegativeResponseKeeps(m, next, now);
    CorrectionRestarts(m, next, now);
  }

  // ----- One delivery -----

  /** A has read the head of its channel and is `m` now, after sending `sent`. */
  function Delivered(l: Link, m: Lcp, sent: seq<Packet>): Link
    requires l.toA != []
  {
    l.(a := m, toA := l.toA[1..], toB := l.toB + sent, sentByA := l.sentByA + sent)
  }

  lemma DeliverIs(l: Link, now: Millis, policy: Policy)
    requires l.toA != []
    ensures var s := Receive(l.a, Wire(l.toA[0]), now, policy);
            Deliver(l, now, policy) == Delivered(l, s.machine, PacketsOf(s))
  {
  }

  lemma RequestStep(l: Link, a: Phase, policyA: Policy, policyB: Policy, m: Lcp)
    requires Speaks(l, a, Asking, policyA, policyB)
    requires l.toA == [Request(l.b)] + AnswerIn(a, l.a, l.b, policyB)
    requires Invariant(m) && m.options == l.a.options && m.requestIdentifier == l.a.requestIdentifier
    requires m.state == StateOf(a == Agreed, Verdict(l.b, l.a, policyA).Acked?)
    ensures var l' := Delivered(l, m, [Answer(l.b, l.a, policyA)]);
            && Speaks(l', a, Answered, policyA, policyB)
            && l'.toB == RequestIn(a, l'.a) + AnswerIn(Answered, l.b, l'.a, policyA)
            && TotalLeft(l', a, Answered, policyA, policyB) < TotalLeft(l, a, Asking, policyA, policyB)
  {
    var l' := Delivered(l, m, [Answer(l.b, l.a, policyA)]);
    assert l'.toA == AnswerIn(a, m, l.b, policyB);
    assert l.toB == RequestIn(a, l.a) && l'.toB == RequestIn(a, m) + AnswerIn(Answered, l.b, m, policyA);
  }

  lemma AckStep(l: Link, b: Phase, policyA: Policy, policyB: Policy, m: Lcp)
    requires Speaks(l, Answered, b, policyA, policyB) && Verdict(l.a, l.b, policyB).Acked?
    requires l.toA == AnswerIn(Answered, l.a, l.b, policyB) + RequestIn(b, l.b)
    requires Invariant(m) && m.options == l.a.options && m.requestIdentifier == l.a.requestIdentifier
    requires m.state == StateOf(true, Given(b, l.b, l.a, policyA))
    ensures var l' := Delivered(l, m, []);
            && Speaks(l', Agreed, b, policyA, policyB)
            && TotalLeft(l', Agreed, b, policyA, policyB) < TotalLeft(l, Answered, b, policyA, policyB)
  {
    var l' := Delivered(l, m, []);
    assert l'.toA == RequestIn(b, l.b) + AnswerIn(Agreed, m, l.b, policyB);
    assert l'.toB == l.toB == RequestIn(Agreed, m) + AnswerIn(b, l.b, m, policyA);
  }

  /** That A has become `m` makes no difference to B's list, or none that matters before it is judged. */
  predicate SameForPeer(a: Lcp, b: Lcp, phase: Phase, policyA: Policy, m: Lcp) {
    || Verdict(b, m, policyA) == Verdict(b, a, policyA)
    || (phase == Asking && Rank(Verdict(b, m, policyA)) <= Rank(Verdict(b, a, policyA)))
  }

  lemma CorrectionStep(l: Link, b: Phase, policyA: Policy, policyB: Policy, m: Lcp)
    requires Speaks(l, Answered, b, policyA, policyB) && !Verdict(l.a, l.b, policyB).Acked?
    requires l.toA == AnswerIn(Answered, l.a, l.b, policyB) + RequestIn(b, l.b)
    requires Invariant(m) && m.state == l.a.state && NoRepeats(m.options)
    requires Rank(Verdict(m, l.b, policyB)) < Rank(Verdict(l.a, l.b, policyB)) && SameForPeer(l.a, l.b, b, policyA, m)
    ensures var l' := Delivered(l, m, [Request(m)]);
            && Speaks(l', Asking, b, policyA, policyB)
            && l'.toA == RequestIn(b, l.b) && l'.toB == AnswerIn(b, l.b, m, policyA) + [Request(m)]
            && TotalLeft(l', Asking, b, policyA, policyB) < TotalLeft(l, Answered, b, policyA, policyB)
  {
    var l' := Delivered(l, m, [Request(m)]);
    assert l'.toA == RequestIn(b, l.b) + AnswerIn(Asking, m, l.b, policyB);
    assert l.toB == AnswerIn(b, l.b, l.a, policyA) == AnswerIn(b, l.b, m, policyA);
    assert l'.toB == AnswerIn(b, l.b, m, policyA) + RequestIn(Asking, m);
  }

  /** After a correction the numbers are still apart, the list ranks lower, and B's list is judged as before. */
  lemma CorrectionRanks(a: Lcp, b: Lcp, policyA: Policy, policyB: Policy, m: Lcp)
    requires NoRepeats(a.options) && NoRepeats(b.options) && Apart(FirstMagic(a.options), FirstMagic(b.options))
    requires !Verdict(a, b, policyB).Acked? && Corrected(a.options, Verdict(a, b, policyB)) == Some(m.options)
    ensures NoRepeats(m.options) && Apart(FirstMagic(m.options), FirstMagic(b.options))
    ensures Rank(Verdict(m, b, policyB)) < Rank(Verdict(a, b, policyB))
    ensures Verdict(b, m, policyA) == Verdict(b, a, policyA)
  {
    var (number, judge) := (FirstMagic(a.options), FirstMagic(b.options));
    RanksLower(a, b, policyB, m);
    CorrectionMovesMagic(a.options, policyB, judge);
    CorrectionKeepsApart(number, judge);
    SameEvaluation(b.options, policyA, FirstMagic(m.options), number);
  }

  lemma RanksLower(a: Lcp, b: Lcp, policyB: Policy, m: Lcp)
    requires NoRepeats(a.options) && !Verdict(a, b, policyB).Acked?
    requires Corrected(a.options, Verdict(a, b, policyB)) == Some(m.options)
    ensures Rank(Verdict(m, b, policyB)) < Rank(Verdict(a, b, policyB))
  {
    if Verdict(a, b, policyB).Naked? {
      AfterNak(a.options, policyB, FirstMagic(b.options));
    } else {
      AfterReject(a.options, policyB, FirstMagic(b.options));
    }
  }

  /** What comes first is the peer's request or the answer to one's own. */
  lemma HeadOfChannel(l: Link, a: Phase, b: Phase, policyA: Policy, policyB: Policy)
    requires HalfTalks(l, a, b, policyA, policyB) && l.toA != []
    ensures || (b == Asking && l.toA == [Request(l.b)] + AnswerIn(a, l.a, l.b, policyB))
            || (a == Answered && l.toA == AnswerIn(a, l.a, l.b, policyB) + RequestIn(b, l.b))
  {
    var (x, y) := (RequestIn(b, l.b), AnswerIn(a, l.a, l.b, policyB));
    if x == [] { assert x + y == y + x; }
    if y == [] { assert x + y == y + x; }
  }

  lemma CorrectionDelivered(l: Link, b: Phase, policyA: Policy, policyB: Policy, now: Millis) returns (m: Lcp)
    requires Speaks(l, Answered, b, policyA, policyB) && !Verdict(l.a, l.b, policyB).Acked?
    requires l.toA == AnswerIn(Answered, l.a, l.b, policyB) + RequestIn(b, l.b)
    ensures Deliver(l, now, policyA) == Delivered(l, m, [Request(m)])
    ensures Invariant(m) && m.state == l.a.state
    ensures Corrected(l.a.options, Verdict(l.a, l.b, policyB)) == Some(m.options)
  {
    assert l.toA[0] == Answer(l.a, l.b, policyB);
    DeliverIs(l, now, policyA);
    TakesCorrection(l.a, l.b, now, policyB, policyA);
    m := Receive(l.a, Wire(l.toA[0]), now, policyA).machine;
  }

  lemma AckDelivered(l: Link, b: Phase, policyA: Policy, policyB: Policy, now: Millis)
    requires Speaks(l, Answered, b, policyA, policyB) && Verdict(l.a, l.b, policyB).Acked?
    requires l.toA == AnswerIn(Answered, l.a, l.b, policyB) + RequestIn(b, l.b)
    ensures var l' := Deliver(l, now, policyA);
            && Speaks(l', Agreed, b, policyA, policyB) && l'.a.options == l.a.options && l'.b == l.b
            && TotalLeft(l', Agreed, b, policyA, policyB) < TotalLeft(l, Answered, b, policyA, policyB)
  {
    assert l.toA[0] == Answer(l.a, l.b, policyB);
    DeliverIs(l, now, policyA);
    TakesAck(l.a, l.b, now, policyB, policyA);
    AckStep(l, b, policyA, policyB, Receive(l.a, Wire(l.toA[0]), now, policyA).machine);
  }

  lemma RequestDelivered(l: Link, a: Phase, policyA: Policy, policyB: Policy, now: Millis)
    requires Speaks(l, a, Asking, policyA, policyB)
    requires l.toA == [Request(l.b)] + AnswerIn(a, l.a, l.b, policyB)
    ensures var l' := Deliver(l, now, policyA);
            && Speaks(l', a, Answered, policyA, policyB) && l'.a.options == l.a.options && l'.b == l.b
            && l'.toB == RequestIn(a, l'.a) + AnswerIn(Answered, l.b, l'.a, policyA)
            && TotalLeft(l', a, Answered, policyA, policyB) < TotalLeft(l, a, Asking, policyA, policyB)
  {
    assert l.toA[0] == Request(l.b);
    DeliverIs(l, now, policyA);
    TakesRequest(l.a, l.b, now, policyA);
    RequestStep(l, a, policyA, policyB, Receive(l.a, Wire(l.toA[0]), now, policyA).machine);
  }

  lemma AnswerDelivered(l: Link, b: Phase, policyA: Policy, policyB: Policy, now: Millis) returns (a': Phase)
    requires Talks(l, Answered, b, policyA, policyB)
    requires l.toA == AnswerIn(Answered, l.a, l.b, policyB) + RequestIn(b, l.b)
    ensures var l' := Deliver(l, now, policyA);
            && Talks(l', a', b, policyA, policyB)
            && TotalLeft(l', a', b, policyA, policyB) < TotalLeft(l, Answered, b, policyA, policyB)
  {
    if Verdict(l.a, l.b, policyB).Acked? {
      AckDelivered(l, b, policyA, policyB, now);
      a' := Agreed;
    } else {
      var m := CorrectionDelivered(l, b, policyA, policyB, now);
      CorrectionRanks(l.a, l.b, policyA, policyB, m);
      CorrectionStep(l, b, policyA, policyB, m);
      a' := Asking;
    }
  }

  /** With numbers apart every delivery leaves less to do. */
  lemma DeliveryToA(l: Link, a: Phase, b: Phase, policyA: Policy, policyB: Policy, now: Millis)
    returns (a': Phase, b': Phase)
    requires Talks(l, a, b, policyA, policyB) && l.toA != []
    ensures var l' := Deliver(l, now, policyA);
            && Talks(l', a', b', policyA, policyB)
            && TotalLeft(l', a', b', policyA, policyB) < TotalLeft(l, a, b, policyA, policyB)
  {
    HeadOfChannel(l, a, b, policyA, policyB);
    a', b' := a, b;
    if b == Asking && l.toA == [Request(l.b)] + AnswerIn(a, l.a, l.b, policyB) {
      RequestDelivered(l, a, policyA, policyB, now);
      b' := Answered;
    } else {
      a' := AnswerDelivered(l, b, policyA, policyB, now);
    }
  }
}
