/** The LCP machine is an instance of the automaton of RFC 1661, and its timer retransmits a
    bounded number of identical packets. */
module LcpAutomaton {
  import opened Octets
  import opened LcpCodec
  import opened LcpPolicy
  import opened LcpConvergence
  import opened Rfc1661
  import opened LcpSpec
  import opened LcpRuns
  import opened LcpCorrections

  function ViewOf(m: Lcp): View { View(m.state, m.restartRemaining, m.deadline.Some?) }

  /** The automaton's name for an action; only the six Configure and layer actions have one. */
  function ActOf(a: Action): Option<Act> {
    match a
    case ThisLayerUp(_) => Some(Tlu)
    case ThisLayerDown => Some(Tld)
    case ThisLayerFinished => Some(Tlf)
    case SendPacket(p) =>
      if p.code == CONFIGURE_REQUEST then Some(Scr)
      else if p.code == CONFIGURE_ACK then Some(Sca)
      else if p.code == CONFIGURE_NAK || p.code == CONFIGURE_REJECT then Some(Scn)
      else None
  }

  predicate ActsAre(actions: seq<Action>, acts: seq<Act>) {
    |actions| == |acts| && forall k | 0 <= k < |acts| :: ActOf(actions[k]) == Some(acts[k])
  }

  /** The step is one transition of the automaton, actions in the same order. */
  predicate IsTransition(m: Lcp, e: Event, s: Step) {
    && s.outcome.Done?
    && Negotiating(m.state) && (m.state == Opened ==> !Timed(e))
    && var acts := Table(m.state, e).acts;
       ActsAre(s.outcome.actions, acts) && Follows(ViewOf(m), e, ViewOf(s.machine), acts, m.settings.maxConfigure)
  }

  /** An answer's code says whether the request was good. */
  function RequestEvent(evaluation: Evaluation): Event { if evaluation.Acked? then RcrPlus else RcrMinus }

  lemma OpenedRequestFollows(m: Lcp, packet: Packet, now: Millis, policy: Policy)
    requires Invariant(m) && m.state == Opened && |packet.data| <= MAXIMUM_DATA && WellFormed(packet.data)
    ensures var evaluation := Evaluate(ParseOptions(packet.data).value, policy, FirstMagic(m.options));
            IsTransition(m, RequestEvent(evaluation), ReceiveConfigureRequest(m, packet, now, policy))
  {
    AnswerFits(packet, policy, FirstMagic(m.options));
    RequestFits(SendNewRequest(m, now, true));
  }

  lemma AckReceivedRequestFollows(m: Lcp, packet: Packet, now: Millis, policy: Policy)
    requires Invariant(m) && m.state == AckReceived && |packet.data| <= MAXIMUM_DATA && WellFormed(packet.data)
    ensures var evaluation := Evaluate(ParseOptions(packet.data).value, policy, FirstMagic(m.options));
            IsTransition(m, RequestEvent(evaluation), ReceiveConfigureRequest(m, packet, now, policy))
  {
    AnswerFits(packet, policy, FirstMagic(m.options));
  }

  lemma UnackedRequestFollows(m: Lcp, packet: Packet, now: Millis, policy: Policy)
    requires Invariant(m) && (m.state == RequestSent || m.state == AckSent)
    requires |packet.data| <= MAXIMUM_DATA && WellFormed(packet.data)
    ensures var evaluation := Evaluate(ParseOptions(packet.data).value, policy, FirstMagic(m.options));
            IsTransition(m, RequestEvent(evaluation), ReceiveConfigureRequest(m, packet, now, policy))
  {
    AnswerFits(packet, policy, FirstMagic(m.options));
  }

  lemma ConfigureRequestFollows(m: Lcp, packet: Packet, now: Millis, policy: Policy)
    requires Invariant(m) && Negotiating(m.state) && |packet.data| <= MAXIMUM_DATA && WellFormed(packet.data)
    ensures var evaluation := Evaluate(ParseOptions(packet.data).value, policy, FirstMagic(m.options));
            IsTransition(m, RequestEvent(evaluation), ReceiveConfigureRequest(m, packet, now, policy))
  {
    match m.state {
      case Opened => OpenedRequestFollows(m, packet, now, policy);
      case AckReceived => AckReceivedRequestFollows(m, packet, now, policy);
      case _ => UnackedRequestFollows(m, packet, now, policy);
    }
  }

  lemma ConfigureAckFollows(m: Lcp, packet: Packet, now: Millis)
    requires Invariant(m) && Negotiating(m.state) && Acknowledges(packet, m)
    ensures IsTransition(m, Rca, ReceiveConfigureAck(m, packet, now))
  {
    var next := ReceiveConfigureAck(m, packet, now).machine;
    RequestFits(next);
    SendingRestart(m, Request(next));
  }

  lemma NegativeResponseFollows(m: Lcp, options: seq<ConfigOption>, now: Millis)
    requires Invariant(m) && Negotiating(m.state) && |options| <= 256
    ensures IsTransition(m, Rcn, AfterNegativeResponse(m, options, now))
  {
    var next := AfterNegativeResponse(m, options, now).machine;
    RequestFits(next);
    SendingRestart(m, Request(next));
  }

  // ----- Whatever is received -----

  /** The event of the automaton a received packet is, if it is one. */
  function EventOf(m: Lcp, call: Call): Option<Event>
    requires call.ReceiveCall? && ParsePacket(call.input).Ok?
  {
    var packet := ParsePacket(call.input).value;
    if packet.code == CONFIGURE_REQUEST && WellFormed(packet.data) then
      Some(RequestEvent(Evaluate(ParseOptions(packet.data).value, call.policy, FirstMagic(m.options))))
    else if Acknowledges(packet, m) then Some(Rca)
    else if NakCorrects(m, call) || RejectCorrects(m, call) then Some(Rcn)
    else None
  }

  /** State, counter and timer stay as they are, and nothing is done that the automaton knows of. */
  predicate IsUnmoved(m: Lcp, s: Step) {
    && s.outcome.Done? && ViewOf(s.machine) == ViewOf(m)
    && forall k | 0 <= k < |s.outcome.actions| :: ActOf(s.outcome.actions[k]) == None
  }

  /** A Terminate-Request is acknowledged and ends the negotiation. */
  predicate IsTerminated(m: Lcp, packet: Packet, s: Step) {
    && s.machine.state == Stopped && s.machine.deadline == None && s.machine.restartRemaining == 0
    && s.outcome == Done([SendPacket(Packet(TERMINATE_ACK, packet.identifier, []))] + DownIfOpened(m), None)
  }

  lemma AnsweredWithout(m: Lcp, s: Step, packet: Packet)
    requires s.outcome == Sending([], packet, []) && EncodePacket(packet).Ok? && ViewOf(s.machine) == ViewOf(m)
    requires ActOf(SendPacket(packet)) == None
    ensures IsUnmoved(m, s)
  {
    SendingRestart(m, packet);
  }

  lemma EchoLeavesAlone(m: Lcp, packet: Packet)
    requires Invariant(m)
    ensures IsUnmoved(m, ReceiveEchoRequest(m, packet))
  {
    var s := ReceiveEchoRequest(m, packet);
    EchoKeeps(m, packet);
    if s.outcome.ignored.None? {
      var own := if m.acknowledgedMagic.Some? then m.acknowledgedMagic.value else 0;
      var data := BigEndian32(own) + Clip(packet.data[4..], Max(PeerOrDefault(m).transmitMru, 8) - 8);
      AnsweredWithout(m, s, Packet(ECHO_REPLY, packet.identifier, data));
    }
  }

  lemma UnknownCodeLeavesAlone(m: Lcp, packet: Packet)
    requires Invariant(m)
    ensures IsUnmoved(m, ReceiveUnknownCode(m, packet))
  {
    var limit := Max(PeerOrDefault(m).transmitMru, 8) - HEADER_LENGTH;
    var whole := [packet.code, packet.identifier] + BigEndian16((HEADER_LENGTH + |packet.data|) % 0x1_0000)
        + packet.data;
    UnknownCodeKeeps(m, packet);
    AnsweredWithout(m, ReceiveUnknownCode(m, packet), Packet(CODE_REJECT, FreshIdentifier(m), Clip(whole, limit)));
  }

  lemma OtherCodeLeavesAlone(m: Lcp, packet: Packet, now: Millis, policy: Policy)
    requires Invariant(m) && Negotiating(m.state)
    requires packet.code == 0 || packet.code >= TERMINATE_ACK
    ensures IsUnmoved(m, ReceivePacket(m, packet, now, policy))
  {
    EchoLeavesAlone(m, packet);
    UnknownCodeLeavesAlone(m, packet);
  }

  lemma ConfigureLeavesAlone(m: Lcp, call: Call)
    requires Negotiating(m.state) && call.ReceiveCall? && ParsePacket(call.input).Ok? && EventOf(m, call).None?
    requires CONFIGURE_REQUEST <= ParsePacket(call.input).value.code <= CONFIGURE_REJECT
    ensures IsUnmoved(m, Apply(m, call))
  {
    var packet := ParsePacket(call.input).value;
    if packet.code == CONFIGURE_REQUEST {
      assert ReceiveConfigureRequest(m, packet, call.now, call.policy).machine == m;
    } else if packet.code == CONFIGURE_ACK {
      assert ReceiveConfigureAck(m, packet, call.now).machine == m;
    } else if packet.code == CONFIGURE_NAK {
      assert ReceiveConfigureNak(m, packet, call.now).machine == m;
    } else {
      assert ReceiveConfigureReject(m, packet, call.now).machine == m;
    }
  }

  lemma NakFollows(m: Lcp, call: Call)
    requires Invariant(m) && NakCorrects(m, call)
    ensures IsTransition(m, Rcn, Apply(m, call))
  {
    var amended := ApplyNak(m.options, ListOf(call));
    NegativeResponseFollows(m, amended, call.now);
    assert Apply(m, call) == AfterNegativeResponse(m, amended, call.now);
  }

  lemma RejectFollows(m: Lcp, call: Call)
    requires Invariant(m) && RejectCorrects(m, call)
    ensures IsTransition(m, Rcn, Apply(m, call))
  {
    var kept := Without(m.options, ListOf(call));
    WithoutKeeps(m.options, ListOf(call));
    NegativeResponseFollows(m, kept, call.now);
    assert Apply(m, call) == AfterNegativeResponse(m, kept, call.now);
  }

  lemma EventFollows(m: Lcp, call: Call)
    requires Invariant(m) && Negotiating(m.state) && call.ReceiveCall? && ParsePacket(call.input).Ok?
    requires EventOf(m, call).Some?
    ensures IsTransition(m, EventOf(m, call).value, Apply(m, call))
  {
    var packet := ParsePacket(call.input).value;
    if packet.code == CONFIGURE_REQUEST {
      ConfigureRequestFollows(m, packet, call.now, call.policy);
    } else if Acknowledges(packet, m) {
      ConfigureAckFollows(m, packet, call.now);
    } else {
      if NakCorrects(m, call) { NakFollows(m, call); } else { RejectFollows(m, call); }
    }
  }

  /** Any octets received while negotiating: either they are one event and the step is that transition
      of the table, or they are a Terminate-Request and end the negotiation, or the automaton does not
      move. */
  lemma ReceiveFollows(m: Lcp, call: Call)
    requires Invariant(m) && Negotiating(m.state) && call.ReceiveCall?
    ensures var s := Apply(m, call);
            match ParsePacket(call.input)
            case Err(_) => IsUnmoved(m, s)
            case Ok(packet) =>
              if EventOf(m, call).Some? then IsTransition(m, EventOf(m, call).value, s)
              else if packet.code == TERMINATE_REQUEST then IsTerminated(m, packet, s)
              else IsUnmoved(m, s)
  {
    if ParsePacket(call.input).Ok? {
      var packet := ParsePacket(call.input).value;
      if EventOf(m, call).Some? {
        EventFollows(m, call);
      } else if packet.code == 0 || packet.code >= TERMINATE_ACK {
        OtherCodeLeavesAlone(m, packet, call.now, call.policy);
      } else if packet.code != TERMINATE_REQUEST {
        ConfigureLeavesAlone(m, call);
      }
    }
  }

  lemma FinalTimeoutFollows(m: Lcp, now: Millis)
    requires Invariant(m) && Negotiating(m.state) && m.state != Opened && Expired(m, now) && m.restartRemaining == 0
    ensures IsTransition(m, TimeoutMinus, PollTimeout(m, now))
  {
    assert PollTimeout(m, now).outcome == Done([ThisLayerFinished], None);
  }

  lemma RepeatingTimeoutFollows(m: Lcp, now: Millis)
    requires Invariant(m) && Negotiating(m.state) && m.state != Opened && Expired(m, now) && m.restartRemaining > 0
    ensures IsTransition(m, TimeoutPlus, PollTimeout(m, now))
  {
    OnePoll(m, now);
    assert PollTimeout(m, now).outcome.actions == [SendPacket(Request(m))];
  }

  lemma TimeoutFollows(m: Lcp, now: Millis)
    requires Invariant(m) && Negotiating(m.state) && m.state != Opened && now >= m.deadline.value
    ensures IsTransition(m, if m.restartRemaining == 0 then TimeoutMinus else TimeoutPlus, PollTimeout(m, now))
  {
    if m.restartRemaining == 0 { FinalTimeoutFollows(m, now); } else { RepeatingTimeoutFollows(m, now); }
  }

  // ----- Bounded retransmission -----

  /** The actions of successive polls. */
  function Polls(m: Lcp, times: seq<Millis>): (Lcp, seq<Action>) {
    if times == [] then (m, [])
    else
      var (before, actions) := Polls(m, times[..|times| - 1]);
      var s := PollTimeout(before, times[|times| - 1]);
      (s.machine, actions + if s.outcome.Done? then s.outcome.actions else [])
  }

  function Expired(m: Lcp, now: Millis): bool { m.deadline.Some? && now >= m.deadline.value }

  /** How many of the polls found the timer expired. */
  function Expiries(m: Lcp, times: seq<Millis>): nat {
    if times == [] then 0
    else
      var before := times[..|times| - 1];
      Expiries(m, before) + if Expired(Polls(m, before).0, times[|times| - 1]) then 1 else 0
  }

  function Copies(a: Action, n: nat): seq<Action> { seq(n, _ => a) }

  /** The packet a waiting machine repeats. */
  function Waiting(m: Lcp): Action { SendPacket(if m.state == Closing then TerminateRequest(m) else Request(m)) }

  /** What one poll of a machine does: nothing before the timer has expired, then one more packet or the end. */
  lemma OnePoll(m: Lcp, now: Millis)
    requires Invariant(m)
    ensures var s := PollTimeout(m, now);
            && Invariant(s.machine) && s.outcome.Done?
            && (!Expired(m, now) ==> s.outcome.actions == [] && s.machine == m)
            && (Expired(m, now) && m.restartRemaining == 0 ==>
                  && s.outcome.actions == [ThisLayerFinished] && s.machine.deadline.None?
                  && s.machine.state == if m.state == Closing then Closed else Stopped)
            && (Expired(m, now) && m.restartRemaining > 0 ==>
                  && s.outcome.actions == [Waiting(m)] && Waiting(s.machine) == Waiting(m)
                  && TimerRuns(s.machine.state) && (s.machine.state == Closing <==> m.state == Closing)
                  && Request(s.machine) == Request(m) && TerminateRequest(s.machine) == TerminateRequest(m)
                  && s.machine.restartRemaining == m.restartRemaining - 1)
  {
    PollKeeps(m, now);
    RequestFits(m);
    SendingRestart(m, Request(m));
    SendingRestart(m, TerminateRequest(m));
  }

  /** Waiting with a counter of `left`, the machine repeats one packet that often, byte for byte,
      and then finishes once; later polls find no timer. */
  lemma {:induction false} PollsRepeat(m: Lcp, times: seq<Millis>)
    requires Invariant(m) && TimerRuns(m.state)
    ensures var waiting := Waiting(m);
            var (after, actions) := Polls(m, times);
            var n := Expiries(m, times);
            && Invariant(after)
            && (if n <= m.restartRemaining then
                  && actions == Copies(waiting, n)
                  && TimerRuns(after.state) && after.restartRemaining == m.restartRemaining - n
                  && (after.state == Closing <==> m.state == Closing)
                  && Request(after) == Request(m) && TerminateRequest(after) == TerminateRequest(m)
                else
                  && n == m.restartRemaining + 1
                  && actions == Copies(waiting, m.restartRemaining) + [ThisLayerFinished]
                  && after.state == (if m.state == Closing then Closed else Stopped))
  {
    if times != [] {
      var (front, now) := (times[..|times| - 1], times[|times| - 1]);
      PollsRepeat(m, front);
      var (before, actions) := Polls(m, front);
      OnePoll(before, now);
      var waiting := Waiting(m);
      assert forall n: nat :: Copies(waiting, n) + [waiting] == Copies(waiting, n + 1);
      assert actions + [] == actions;
    }
  }

  lemma OneMore(a: Action, n: nat)
    ensures [a] + Copies(a, n) == Copies(a, 1 + n)
    ensures [a] + (Copies(a, n) + [ThisLayerFinished]) == Copies(a, 1 + n) + [ThisLayerFinished]
  {
  }

  /** A first transmission and the polls behind it, counted together. */
  lemma PollsCount(m: Lcp, times: seq<Millis>)
    requires Invariant(m) && TimerRuns(m.state)
    ensures var waiting := Waiting(m);
            var n := Expiries(m, times);
            var total := 1 + m.restartRemaining;
            [waiting] + Polls(m, times).1
            == if n < total then Copies(waiting, 1 + n) else Copies(waiting, total) + [ThisLayerFinished]
  {
    var waiting := Waiting(m);
    PollsRepeat(m, times);
    OneMore(waiting, Expiries(m, times));
    OneMore(waiting, m.restartRemaining);
  }

  lemma OpenStarts(m: Lcp, now: Millis)
    requires Invariant(m) && m.state != Opened && m.state != Closing
    ensures var s := Open(m, now);
            && s.outcome == Done([SendPacket(Request(s.machine))], None)
            && Invariant(s.machine) && s.machine.state == RequestSent
            && 1 + s.machine.restartRemaining == Max(1, m.settings.maxConfigure)
  {
    RequestFits(Open(m, now).machine);
    SendingRestart(m, Request(Open(m, now).machine));
  }

  /** After an open that starts negotiation, with nothing received, exactly max(1, max_configure)
      identical requests are sent before the machine finishes, however the polls are timed. */
  lemma OpenRetransmission(m: Lcp, now: Millis, times: seq<Millis>)
    requires Invariant(m) && m.state != Opened && m.state != Closing
    ensures var s := Open(m, now);
            var (after, actions) := Polls(s.machine, times);
            var request := SendPacket(Request(s.machine));
            var all := [request] + actions;
            var total := Max(1, m.settings.maxConfigure);
            && s.outcome == Done([request], None)
            && all == if Expiries(s.machine, times) < total then Copies(request, 1 + Expiries(s.machine, times))
                      else Copies(request, total) + [ThisLayerFinished]
  {
    OpenStarts(m, now);
    PollsCount(Open(m, now).machine, times);
  }

  /** The same for the Terminate-Requests of a close from an active state. */
  lemma CloseRetransmission(m: Lcp, now: Millis, times: seq<Millis>)
    requires Invariant(m) && Negotiating(m.state)
    ensures var s := Close(m, now);
            var (after, actions) := Polls(s.machine, times);
            var request := SendPacket(TerminateRequest(s.machine));
            var all := [request] + actions;
            var total := Max(1, m.settings.maxTerminate);
            && s.outcome == Done(DownIfOpened(m) + [request], None)
            && all == if Expiries(s.machine, times) < total then Copies(request, 1 + Expiries(s.machine, times))
                      else Copies(request, total) + [ThisLayerFinished]
  {
    var s := Close(m, now);
    SendingRestart(m, TerminateRequest(s.machine));
    PollsCount(s.machine, times);
  }
}
