/** Two opened machines without lost packets and timeouts: whether they come to be Opened is decided by their
    option lists, whatever the order of deliveries, and if they do, at most twelve deliveries are enough. */
module LcpLiveness {
  import opened Octets
  import opened LcpCodec
  import opened LcpPolicy
  import opened LcpConvergence
  import opened Rfc1661
  import opened LcpSpec
  import opened LcpRuns
  import opened LcpLink
  import opened LcpMagic
  import opened LcpDialogue
  import opened LcpStandoff
  import opened LcpRepeats

  // ----- Deliveries -----

  predicate IsDelivery(e: LinkEvent, policyA: Policy, policyB: Policy) {
    match e
    case DeliverToA(_, policy) => policy == policyA
    case DeliverToB(_, policy) => policy == policyB
    case _ => false
  }

  predicate Deliveries(events: seq<LinkEvent>, policyA: Policy, policyB: Policy) {
    forall k | 0 <= k < |events| :: IsDelivery(events[k], policyA, policyB)
  }

  /** The delivery finds a packet. */
  predicate Finds(l: Link, e: LinkEvent) {
    match e
    case DeliverToA(_, _) => l.toA != []
    case DeliverToB(_, _) => l.toB != []
    case _ => false
  }

  /** How many deliveries of a run find a packet. */
  function Found(l: Link, events: seq<LinkEvent>): nat {
    if events == [] then 0
    else
      var front := events[..|events| - 1];
      Found(l, front) + if Finds(RunLink(l, front), events[|events| - 1]) then 1 else 0
  }

  /** How the machines stand: with numbers apart, or with the same number and one list rejected. */
  datatype Course = Free | UnevenA | UnevenB

  datatype Standing = Standing(course: Course, a: Phase, b: Phase)

  predicate Stands(l: Link, s: Standing, policyA: Policy, policyB: Policy) {
    match s.course
    case Free => Talks(l, s.a, s.b, policyA, policyB)
    case UnevenA => Uneven(l, s.a, s.b, policyA, policyB)
    case UnevenB => Uneven(Swap(l), s.b, s.a, policyB, policyA)
  }

  function ToDo(l: Link, s: Standing, policyA: Policy, policyB: Policy): nat {
    TotalLeft(l, s.a, s.b, policyA, policyB)
  }

  function Mirrored(s: Standing): Standing {
    Standing(match s.course case Free => Free case UnevenA => UnevenB case UnevenB => UnevenA, s.b, s.a)
  }

  lemma StandsSwap(l: Link, s: Standing, policyA: Policy, policyB: Policy)
    ensures Stands(l, s, policyA, policyB) <==> Stands(Swap(l), Mirrored(s), policyB, policyA)
    ensures ToDo(l, s, policyA, policyB) == ToDo(Swap(l), Mirrored(s), policyB, policyA)
  {
    assert Swap(Swap(l)) == l;
    TalksSwap(l, s.a, s.b, policyA, policyB);
  }

  lemma StandingToA(l: Link, s: Standing, policyA: Policy, policyB: Policy, now: Millis) returns (s': Standing)
    requires Stands(l, s, policyA, policyB) && l.toA != []
    ensures var l' := Deliver(l, now, policyA);
            Stands(l', s', policyA, policyB) && ToDo(l', s', policyA, policyB) < ToDo(l, s, policyA, policyB)
  {
    match s.course {
      case Free =>
        var a, b := DeliveryToA(l, s.a, s.b, policyA, policyB, now);
        s' := Standing(Free, a, b);
      case UnevenA =>
        var a, b := UnevenToA(l, s.a, s.b, policyA, policyB, now);
        s' := Standing(UnevenA, a, b);
      case UnevenB => s' := MirroredToA(l, s, policyA, policyB, now);
    }
  }

  /** B's list is the rejected one. */
  lemma MirroredToA(l: Link, s: Standing, policyA: Policy, policyB: Policy, now: Millis) returns (s': Standing)
    requires Uneven(Swap(l), s.b, s.a, policyB, policyA) && l.toA != []
    ensures var l' := Deliver(l, now, policyA);
            Stands(l', s', policyA, policyB) && ToDo(l', s', policyA, policyB) < ToDo(l, s, policyA, policyB)
  {
    assert Swap(Swap(l)) == l;
    var l' := Deliver(l, now, policyA);
    var b, a := UnevenToB(Swap(l), s.b, s.a, policyB, policyA, now);
    TalksSwap(l, s.a, s.b, policyA, policyB);
    TalksSwap(l', a, b, policyA, policyB);
    s' := Standing(if Talks(l', a, b, policyA, policyB) then Free else UnevenB, a, b);
  }

  lemma DeliveryStands(l: Link, e: LinkEvent, s: Standing, policyA: Policy, policyB: Policy)
    returns (s': Standing)
    requires Stands(l, s, policyA, policyB) && IsDelivery(e, policyA, policyB)
    ensures Stands(Happen(l, e), s', policyA, policyB)
    ensures ToDo(Happen(l, e), s', policyA, policyB) + (if Finds(l, e) then 1 else 0) <= ToDo(l, s, policyA, policyB)
  {
    assert Swap(Swap(l)) == l;
    s' := s;
    if Finds(l, e) {
      match e {
        case DeliverToA(now, _) => s' := StandingToA(l, s, policyA, policyB, now);
        case DeliverToB(now, _) =>
          StandsSwap(l, s, policyA, policyB);
          var mirrored := StandingToA(Swap(l), Mirrored(s), policyB, policyA, now);
          s' := Mirrored(mirrored);
          StandsSwap(Deliver(Swap(l), now, policyB), mirrored, policyB, policyA);
      }
    }
  }

  lemma {:induction false} RunStands(l: Link, events: seq<LinkEvent>, s: Standing, policyA: Policy, policyB: Policy)
    returns (s': Standing)
    requires Stands(l, s, policyA, policyB) && Deliveries(events, policyA, policyB)
    ensures Stands(RunLink(l, events), s', policyA, policyB)
    ensures ToDo(RunLink(l, events), s', policyA, policyB) + Found(l, events) <= ToDo(l, s, policyA, policyB)
  {
    s' := s;
    if events != [] {
      var (front, last) := (events[..|events| - 1], events[|events| - 1]);
      s' := RunStands(l, front, s, policyA, policyB);
      s' := DeliveryStands(RunLink(l, front), last, s', policyA, policyB);
    }
  }

  predicate Quiet(l: Link) { l.toA == [] && l.toB == [] }

  predicate BothOpened(l: Link) { l.a.state == Opened && l.b.state == Opened }

  lemma QuietTalk(l: Link, a: Phase, b: Phase, policyA: Policy, policyB: Policy)
    requires Speaks(l, a, b, policyA, policyB)
    ensures Quiet(l) <==> a == Agreed && b == Agreed
    ensures BothOpened(l) <==> a == Agreed && b == Agreed
    ensures TotalLeft(l, a, b, policyA, policyB) == 0 <==> a == Agreed && b == Agreed
  {
    assert Swap(l).toA == l.toB;
  }

  /** Nothing travels exactly when both are Opened and nothing is left to do. */
  lemma QuietIsOpened(l: Link, s: Standing, policyA: Policy, policyB: Policy)
    requires Stands(l, s, policyA, policyB)
    ensures Quiet(l) <==> BothOpened(l)
    ensures Quiet(l) <==> ToDo(l, s, policyA, policyB) == 0
  {
    if s.course == UnevenB {
      QuietTalk(Swap(l), s.b, s.a, policyB, policyA);
      TalksSwap(l, s.a, s.b, policyA, policyB);
    } else {
      QuietTalk(l, s.a, s.b, policyA, policyB);
    }
  }

  lemma {:induction false} RunLevels(l: Link, events: seq<LinkEvent>, stage: Stage, policyA: Policy, policyB: Policy)
    returns (stage': Stage)
    requires Level(l, stage, policyA, policyB) && Deliveries(events, policyA, policyB)
    ensures Level(RunLink(l, events), stage', policyA, policyB)
  {
    stage' := stage;
    if events != [] {
      var (front, last) := (events[..|events| - 1], events[|events| - 1]);
      assert IsDelivery(last, policyA, policyB);
      stage' := RunLevels(l, front, stage, policyA, policyB);
      if last.DeliverToA? {
        stage' := LevelToA(RunLink(l, front), stage', policyA, policyB, last.now);
      } else {
        stage' := LevelToB(RunLink(l, front), stage', policyA, policyB, last.now);
      }
    }
  }

  // ----- From the start -----

  lemma OpenAsks(options: seq<ConfigOption>, settings: Settings, now: Millis)
    requires |options| <= 256
    ensures var s := Open(New(options, settings), now);
            && Invariant(s.machine) && s.machine.options == options && s.machine.state == RequestSent
            && PacketsOf(s) == [Request(s.machine)]
  {
    var (m, s) := (New(options, settings), Open(New(options, settings), now));
    OpenKeeps(m, now);
    RequestFits(s.machine);
    SendingAnnounces(m, s, Request(s.machine));
  }

  /** What a machine is created with, when it is opened and how it judges. */
  datatype Party = Party(options: seq<ConfigOption>, settings: Settings, openedAt: Millis, policy: Policy) {
    function Machine(): Lcp { New(options, settings) }
  }

  /** Both machines created and opened. */
  function Start(x: Party, y: Party): Link {
    RunLink(Fresh(x.Machine(), y.Machine()), [CallA(OpenCall(x.openedAt)), CallB(OpenCall(y.openedAt))])
  }

  lemma StartIs(x: Party, y: Party)
    ensures var (s, t) := (Open(x.Machine(), x.openedAt), Open(y.Machine(), y.openedAt));
            Start(x, y) == Link(s.machine, PacketsOf(t), PacketsOf(s), t.machine, PacketsOf(s), PacketsOf(t))
  {
    var unopened := Fresh(x.Machine(), y.Machine());
    var events := [CallA(OpenCall(x.openedAt)), CallB(OpenCall(y.openedAt))];
    var first := Happen(unopened, events[0]);
    assert events[..1] == [events[0]] && [events[0]][..0] == [];
    assert RunLink(unopened, []) == unopened && RunLink(unopened, [events[0]]) == first;
    assert RunLink(unopened, events) == Happen(first, events[1]);
  }

  predicate Negotiable(x: Party) { |x.options| <= 256 }

  /** Some option of the first list is refused by the second machine. */
  predicate Rejects(x: Party, y: Party) { Evaluate(x.options, y.policy, FirstMagic(y.options)).Rejected? }

  /** Neither list repeats a type, and the magic numbers differ, or one is missing, or exactly one of the lists
      draws a Reject. */
  predicate Compatible(x: Party, y: Party) {
    && NoRepeats(x.options) && NoRepeats(y.options)
    && (Apart(FirstMagic(x.options), FirstMagic(y.options)) || (Rejects(x, y) != Rejects(y, x)))
  }

  lemma BothAsk(x: Party, y: Party)
    requires Negotiable(x) && Negotiable(y)
    ensures var l := Start(x, y);
            && Invariant(l.a) && l.a.options == x.options && l.a.state == RequestSent && l.toA == [Request(l.b)]
            && Invariant(l.b) && l.b.options == y.options && l.b.state == RequestSent && l.toB == [Request(l.a)]
  {
    OpenAsks(x.options, x.settings, x.openedAt);
    OpenAsks(y.options, y.settings, y.openedAt);
    StartIs(x, y);
  }

  lemma BothSpeak(x: Party, y: Party)
    requires Negotiable(x) && Negotiable(y) && NoRepeats(x.options) && NoRepeats(y.options)
    ensures Speaks(Start(x, y), Asking, Asking, x.policy, y.policy)
  {
    BothAsk(x, y);
    var l := Start(x, y);
    assert l.toA == RequestIn(Asking, l.b) + AnswerIn(Asking, l.a, l.b, y.policy);
    assert l.toB == RequestIn(Asking, l.a) + AnswerIn(Asking, l.b, l.a, x.policy);
  }

  lemma CompatibleStands(x: Party, y: Party) returns (s: Standing)
    requires Negotiable(x) && Negotiable(y) && Compatible(x, y)
    ensures Stands(Start(x, y), s, x.policy, y.policy) && ToDo(Start(x, y), s, x.policy, y.policy) <= 12
  {
    BothAsk(x, y);
    BothSpeak(x, y);
    var l := Start(x, y);
    if Apart(FirstMagic(x.options), FirstMagic(y.options)) {
      s := Standing(Free, Asking, Asking);
    } else {
      OwnNumberIsNotAcked(x.options, y.policy, FirstMagic(y.options));
      OwnNumberIsNotAcked(y.options, x.policy, FirstMagic(x.options));
      assert Swap(Swap(l)) == l;
      s := Standing(if Rejects(x, y) then UnevenA else UnevenB, Asking, Asking);
    }
  }

  lemma IncompatibleLevels(x: Party, y: Party)
    requires Negotiable(x) && Negotiable(y) && !Compatible(x, y) && NoRepeats(x.options) && NoRepeats(y.options)
    ensures Level(Start(x, y), NoneJudged, x.policy, y.policy)
  {
    BothAsk(x, y);
  }

  lemma {:induction false} RunOn(l: Link, before: seq<LinkEvent>, events: seq<LinkEvent>)
    ensures RunLink(l, before + events) == RunLink(RunLink(l, before), events)
    ensures Found(l, before + events) == Found(l, before) + Found(RunLink(l, before), events)
  {
    if events == [] {
      assert before + events == before;
    } else {
      RunOn(l, before, events[..|events| - 1]);
      assert (before + events)[..|before + events| - 1] == before + events[..|events| - 1];
    }
  }

  lemma BothKnow(x: Party, y: Party, events: seq<LinkEvent>)
    requires Negotiable(x) && Negotiable(y)
    ensures var l := RunLink(Start(x, y), events);
            Quiet(l) && BothOpened(l) ==>
              l.a.peer == Some(Denote(l.b.options)) && l.b.peer == Some(Denote(l.a.options))
  {
    var opens := [CallA(OpenCall(x.openedAt)), CallB(OpenCall(y.openedAt))];
    RunOn(Fresh(x.Machine(), y.Machine()), opens, events);
    OpenedMachinesAgree(x.options, x.settings, y.options, y.settings, opens + events);
  }

  /** Whatever the policies, settings, times and the order of deliveries: between compatible machines at most
      twelve deliveries find a packet, and when nothing travels any more, and only then, both are Opened. Each
      then knows what the options of the other denote. */
  lemma NegotiationOpens(x: Party, y: Party, events: seq<LinkEvent>)
    requires Negotiable(x) && Negotiable(y) && Compatible(x, y) && Deliveries(events, x.policy, y.policy)
    ensures var l := RunLink(Start(x, y), events);
            && Found(Start(x, y), events) <= 12
            && (Found(Start(x, y), events) == 12 ==> Quiet(l))
            && (Quiet(l) <==> BothOpened(l))
            && (BothOpened(l) ==> l.a.peer == Some(Denote(l.b.options)) && l.b.peer == Some(Denote(l.a.options)))
  {
    var s := CompatibleStands(x, y);
    s := RunStands(Start(x, y), events, s, x.policy, y.policy);
    QuietIsOpened(RunLink(Start(x, y), events), s, x.policy, y.policy);
    BothKnow(x, y, events);
  }

  lemma AskingIsSpurned(l: Link)
    requires Invariant(l.a) && l.a.state == RequestSent && HasRepeatedTypes(l.a.options) && Invariant(l.b)
    requires l.toA == [Request(l.b)] && l.toB == [Request(l.a)]
    ensures Spurned(l)
  {
    RequestFits(l.a);
    RequestFits(l.b);
  }

  lemma RepeatsAreSpurned(x: Party, y: Party)
    requires Negotiable(x) && Negotiable(y)
    ensures !NoRepeats(x.options) ==> Spurned(Start(x, y))
    ensures !NoRepeats(y.options) ==> Spurned(Swap(Start(x, y)))
  {
    BothAsk(x, y);
    NoRepeatsMeansNoneRepeated(x.options);
    NoRepeatsMeansNoneRepeated(y.options);
    if !NoRepeats(x.options) { AskingIsSpurned(Start(x, y)); }
    if !NoRepeats(y.options) { AskingIsSpurned(Swap(Start(x, y))); }
  }

  lemma DeliverySpurns(l: Link, e: LinkEvent, policyA: Policy, policyB: Policy)
    requires Spurned(l) && IsDelivery(e, policyA, policyB)
    ensures Spurned(Happen(l, e))
  {
    match e {
      case DeliverToA(now, _) => SpurnedToA(l, now, policyA);
      case DeliverToB(now, _) => SpurnedToB(l, now, policyB);
    }
  }

  function SwapEvent(e: LinkEvent): LinkEvent {
    match e
    case CallA(call) => CallB(call)
    case CallB(call) => CallA(call)
    case DeliverToA(now, policy) => DeliverToB(now, policy)
    case DeliverToB(now, policy) => DeliverToA(now, policy)
  }

  lemma SwapHappens(l: Link, e: LinkEvent)
    ensures Swap(Happen(l, e)) == Happen(Swap(l), SwapEvent(e))
  {
    assert Swap(Swap(l)) == l;
  }

  lemma {:induction false} RunSpurns(l: Link, events: seq<LinkEvent>, policyA: Policy, policyB: Policy)
    requires Deliveries(events, policyA, policyB)
    ensures Spurned(l) ==> Spurned(RunLink(l, events))
    ensures Spurned(Swap(l)) ==> Spurned(Swap(RunLink(l, events)))
  {
    if events != [] {
      var (front, last) := (events[..|events| - 1], events[|events| - 1]);
      var before := RunLink(l, front);
      assert IsDelivery(last, policyA, policyB);
      RunSpurns(l, front, policyA, policyB);
      SwapHappens(before, last);
      if Spurned(before) { DeliverySpurns(before, last, policyA, policyB); }
      if Spurned(Swap(before)) { DeliverySpurns(Swap(before), SwapEvent(last), policyB, policyA); }
    }
  }

  /** Between incompatible machines one at least is never acknowledged, whatever the order of deliveries; with
      lists that repeat no type both go on asking. */
  lemma StandoffNeverEnds(x: Party, y: Party, events: seq<LinkEvent>)
    requires Negotiable(x) && Negotiable(y) && !Compatible(x, y) && Deliveries(events, x.policy, y.policy)
    ensures var l := RunLink(Start(x, y), events);
            && !BothOpened(l)
            && (NoRepeats(x.options) && NoRepeats(y.options) ==>
                  l.a.state == RequestSent && l.b.state == RequestSent && !Quiet(l))
            && (!NoRepeats(x.options) ==> l.a.state == RequestSent || l.a.state == AckSent)
            && (!NoRepeats(y.options) ==> l.b.state == RequestSent || l.b.state == AckSent)
  {
    RepeatsAreSpurned(x, y);
    RunSpurns(Start(x, y), events, x.policy, y.policy);
    if NoRepeats(x.options) && NoRepeats(y.options) {
      IncompatibleLevels(x, y);
      var stage := RunLevels(Start(x, y), events, NoneJudged, x.policy, y.policy);
    }
  }

  // ----- Fair schedules -----

  /** One round delivers at least once in either direction. */
  predicate IsRound(round: seq<LinkEvent>, policyA: Policy, policyB: Policy) {
    && Deliveries(round, policyA, policyB)
    && (exists k | 0 <= k < |round| :: round[k].DeliverToA?)
    && (exists k | 0 <= k < |round| :: round[k].DeliverToB?)
  }

  function Flatten(rounds: seq<seq<LinkEvent>>): seq<LinkEvent> {
    if rounds == [] then [] else Flatten(rounds[..|rounds| - 1]) + rounds[|rounds| - 1]
  }

  /** Deliveries that find nothing change nothing. */
  lemma {:induction false} NothingFound(l: Link, events: seq<LinkEvent>, policyA: Policy, policyB: Policy)
    requires Deliveries(events, policyA, policyB) && Found(l, events) == 0
    ensures RunLink(l, events) == l && forall k | 0 <= k < |events| :: !Finds(l, events[k])
  {
    if events != [] {
      var (front, last) := (events[..|events| - 1], events[|events| - 1]);
      NothingFound(l, front, policyA, policyB);
      assert Swap(Swap(l)) == l && IsDelivery(last, policyA, policyB);
      forall k | 0 <= k < |events|
        ensures !Finds(l, events[k])
      {
        if k < |front| { assert events[k] == front[k]; }
      }
    }
  }

  lemma RoundFinds(l: Link, round: seq<LinkEvent>, policyA: Policy, policyB: Policy)
    requires IsRound(round, policyA, policyB) && !Quiet(l)
    ensures Found(l, round) > 0
  {
    if Found(l, round) == 0 { NothingFound(l, round, policyA, policyB); }
  }

  lemma {:induction false} RoundsStand(l: Link, rounds: seq<seq<LinkEvent>>, s: Standing,
                                       policyA: Policy, policyB: Policy) returns (s': Standing)
    requires Stands(l, s, policyA, policyB)
    requires forall k | 0 <= k < |rounds| :: IsRound(rounds[k], policyA, policyB)
    ensures var l' := RunLink(l, Flatten(rounds));
            && Stands(l', s', policyA, policyB)
            && (ToDo(l', s', policyA, policyB) == 0
                || ToDo(l', s', policyA, policyB) + |rounds| <= ToDo(l, s, policyA, policyB))
  {
    s' := s;
    if rounds != [] {
      var (front, last) := (rounds[..|rounds| - 1], rounds[|rounds| - 1]);
      s' := RoundsStand(l, front, s, policyA, policyB);
      var before := RunLink(l, Flatten(front));
      QuietIsOpened(before, s', policyA, policyB);
      RunOn(l, Flatten(front), last);
      if !Quiet(before) { RoundFinds(before, last, policyA, policyB); }
      s' := RunStands(before, last, s', policyA, policyB);
    }
  }

  lemma {:induction false} RoundsAreDeliveries(rounds: seq<seq<LinkEvent>>, policyA: Policy, policyB: Policy)
    requires forall k | 0 <= k < |rounds| :: IsRound(rounds[k], policyA, policyB)
    ensures Deliveries(Flatten(rounds), policyA, policyB)
  {
    if rounds != [] {
      var (front, last) := (Flatten(rounds[..|rounds| - 1]), rounds[|rounds| - 1]);
      RoundsAreDeliveries(rounds[..|rounds| - 1], policyA, policyB);
      forall k | 0 <= k < |front| + |last|
        ensures IsDelivery((front + last)[k], policyA, policyB)
      {
        assert (front + last)[k] == if k < |front| then front[k] else last[k - |front|];
      }
    }
  }

  /** Under a schedule of at least twelve rounds, each with a delivery in either direction, both machines are
      Opened in the end exactly if they are compatible. */
  lemma FairSchedulesDecide(x: Party, y: Party, rounds: seq<seq<LinkEvent>>)
    requires Negotiable(x) && Negotiable(y)
    requires |rounds| >= 12 && forall k | 0 <= k < |rounds| :: IsRound(rounds[k], x.policy, y.policy)
    ensures BothOpened(RunLink(Start(x, y), Flatten(rounds))) <==> Compatible(x, y)
  {
    if Compatible(x, y) {
      var s := CompatibleStands(x, y);
      s := RoundsStand(Start(x, y), rounds, s, x.policy, y.policy);
      QuietIsOpened(RunLink(Start(x, y), Flatten(rounds)), s, x.policy, y.policy);
    } else {
      RoundsAreDeliveries(rounds, x.policy, y.policy);
      StandoffNeverEnds(x, y, Flatten(rounds));
    }
  }
}
