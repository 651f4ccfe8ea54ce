/** When the restart timer of the LCP machine expires, which identifiers its requests bear, how a close ends and what a
    Nak makes of the magic number. */
module LcpTiming {
  import opened Octets
  import opened LcpCodec
  import opened LcpPolicy
  import opened LcpConvergence
  import opened Rfc1661
  import opened LcpSpec
  import opened LcpRuns
  import opened LcpReplies

  /** A Configure-Request or a Terminate-Request goes out. */
  predicate Asks(a: Action) { a.SendPacket? && (a.packet.code == 1 || a.packet.code == 5) }

  predicate AnyAsks(actions: seq<Action>) { exists k | 0 <= k < |actions| :: Asks(actions[k]) }

  /** The interval from now, as far as the clock counts. */
  function Deadline(m: Lcp, now: Millis): int { Min(now + m.settings.restartIntervalMs, 0xffff_ffff_ffff_ffff) }

  /** The timer starts with every request, goes on while one is waited for and is off otherwise. */
  predicate Timed(m: Lcp, now: Millis, s: Step)
    requires s.outcome.Done?
  {
    if AnyAsks(s.outcome.actions) then s.machine.deadline.Some? && s.machine.deadline.value == Deadline(m, now)
    else s.machine.deadline == if TimerRuns(s.machine.state) then m.deadline else None
  }

  /** Every request bears the identifier behind the last one given out; a Configure-Request bears it with the options
      the machine has then, a Terminate-Request with nothing. No number of one's own is acknowledged then. */
  predicate Numbered(m: Lcp, s: Step)
    requires s.outcome.Done?
  {
    var next := (m.nextIdentifier + 1) % 256;
    && (forall k | 0 <= k < |s.outcome.actions| && Asks(s.outcome.actions[k]) ::
          && s.machine.nextIdentifier == next
          && var p := s.outcome.actions[k].packet;
             if p.code == 1
             then p == Packet(1, next, EncodeOptions(s.machine.options)) && s.machine.requestIdentifier == next
             else p == Packet(5, next, []) && s.machine.terminateIdentifier == next)
    && (AnyAsks(s.outcome.actions) ==> s.machine.acknowledgedMagic.None?)
    && (!AnyAsks(s.outcome.actions) ==>
          && s.machine.requestIdentifier == m.requestIdentifier
          && s.machine.terminateIdentifier == m.terminateIdentifier)
  }

  lemma NoneAsks(actions: seq<Action>)
    requires forall k | 0 <= k < |actions| :: !Asks(actions[k])
    ensures !AnyAsks(actions)
  {
  }

  lemma OneAsks(actions: seq<Action>, k: nat)
    requires k < |actions| && Asks(actions[k])
    ensures AnyAsks(actions)
  {
  }

  /** A request behind Layer Down, if there was one to announce. */
  lemma RestartTimed(m: Lcp, now: Millis, s: Step, down: seq<Action>, p: Packet)
    requires s.outcome == Sending(down, p, []) && EncodePacket(p).Ok? && (down == [] || down == [ThisLayerDown])
    requires p.code == 1 || p.code == 5
    requires s.machine.deadline == Restarted(m, now)
    ensures s.outcome == Done(down + [SendPacket(p)], None) && Timed(m, now, s)
    ensures forall k | 0 <= k < |s.outcome.actions| && Asks(s.outcome.actions[k]) ::
              s.outcome.actions[k] == SendPacket(p)
  {
    assert down + [SendPacket(p)] + [] == down + [SendPacket(p)];
    OneAsks(down + [SendPacket(p)], |down|);
  }

  lemma NewRequestSent(m: Lcp, now: Millis, s: Step, down: seq<Action>)
    requires |s.machine.options| <= 256 && (down == [] || down == [ThisLayerDown])
    requires s.outcome == Sending(down, Request(s.machine), []) && s.machine.deadline == Restarted(m, now)
    requires s.machine.nextIdentifier == s.machine.requestIdentifier == (m.nextIdentifier + 1) % 256
    requires s.machine.acknowledgedMagic.None?
    ensures s.outcome.Done? && Timed(m, now, s) && Numbered(m, s)
  {
    RequestFits(s.machine);
    RestartTimed(m, now, s, down, Request(s.machine));
    OneAsks(s.outcome.actions, |down|);
  }

  lemma NothingAsked(m: Lcp, now: Millis, s: Step)
    requires s.outcome.Done? && forall k | 0 <= k < |s.outcome.actions| :: !Asks(s.outcome.actions[k])
    requires s.machine.deadline == if TimerRuns(s.machine.state) then m.deadline else None
    requires s.machine.requestIdentifier == m.requestIdentifier
    requires s.machine.terminateIdentifier == m.terminateIdentifier
    ensures Timed(m, now, s) && Numbered(m, s)
  {
    NoneAsks(s.outcome.actions);
  }

  /** The first request of a machine bears the identifier one. */
  lemma FirstRequest(options: seq<ConfigOption>, settings: Settings, now: Millis)
    requires |options| <= 256
    ensures Open(New(options, settings), now).outcome == Done([SendPacket(Packet(1, 1, EncodeOptions(options)))], None)
  {
    OpenedFirst(New(options, settings), now);
    FirstSent(Open(New(options, settings), now).machine, Open(New(options, settings), now).outcome);
  }

  lemma OpenedFirst(m: Lcp, now: Millis)
    requires m.state == Closed && m.nextIdentifier == 0
    ensures var s := Open(m, now);
            s.machine.requestIdentifier == 1 && s.machine.options == m.options
            && s.outcome == Sending([], Request(s.machine), [])
  {
  }

  lemma FirstSent(m: Lcp, o: Outcome)
    requires |m.options| <= 256 && m.requestIdentifier == 1 && o == Sending([], Request(m), [])
    ensures o == Done([SendPacket(Packet(1, 1, EncodeOptions(m.options)))], None)
  {
    RequestFits(m);
    SendingRestart(m, Request(m));
  }

  // ----- Call by call -----

  lemma OpenTimed(m: Lcp, now: Millis)
    requires Invariant(m)
    ensures Open(m, now).outcome.Done? && Timed(m, now, Open(m, now)) && Numbered(m, Open(m, now))
  {
    if m.state == Opened || m.state == Closing { NothingAsked(m, now, Open(m, now)); }
    else { NewRequestSent(m, now, Open(m, now), []); }
  }

  lemma CloseTimed(m: Lcp, now: Millis)
    requires Invariant(m)
    ensures Close(m, now).outcome.Done? && Timed(m, now, Close(m, now)) && Numbered(m, Close(m, now))
  {
    var s := Close(m, now);
    if m.state == Closing || m.state == Closed || m.state == Stopped {
      NothingAsked(m, now, s);
    } else {
      RestartTimed(m, now, s, DownIfOpened(m), TerminateRequest(s.machine));
      OneAsks(s.outcome.actions, |DownIfOpened(m)|);
    }
  }

  lemma LowerDownTimed(m: Lcp, now: Millis)
    ensures Timed(m, now, LowerDown(m)) && Numbered(m, LowerDown(m))
  {
    NothingAsked(m, now, LowerDown(m));
  }

  lemma SingleReply(m: Lcp, now: Millis, s: Step, p: Packet)
    requires Invariant(m) && s.outcome == Sending([], p, []) && EncodePacket(p).Ok? && p.code != 1 && p.code != 5
    requires s.machine == m || s.machine == m.(nextIdentifier := FreshIdentifier(m))
    ensures s.outcome.Done? && Timed(m, now, s) && Numbered(m, s)
  {
    SendingRestart(m, p);
    NothingAsked(m, now, s);
  }

  lemma RejectProtocolTimed(m: Lcp, now: Millis, protocol: Word16, information: Bytes)
    requires Invariant(m)
    ensures var s := RejectProtocol(m, protocol, information);
            s.outcome.Done? && Timed(m, now, s) && Numbered(m, s)
  {
    var s := RejectProtocol(m, protocol, information);
    if m.state == Opened {
      var data := BigEndian16(protocol) + Clip(information, Max(PeerOrDefault(m).transmitMru, 6) - 6);
      SingleReply(m, now, s, Packet(PROTOCOL_REJECT, FreshIdentifier(m), data));
    } else {
      NothingAsked(m, now, s);
    }
  }

  /** Nothing before the timer has expired; then the last request once more, under its own identifier. */
  lemma PollTimed(m: Lcp, now: Millis)
    requires Invariant(m)
    ensures var s := PollTimeout(m, now);
            && s.outcome.Done? && Timed(m, now, s)
            && (m.deadline.None? || now < m.deadline.value ==> s == Step(m, QUIET))
            && s.machine.nextIdentifier == m.nextIdentifier && s.machine.requestIdentifier == m.requestIdentifier
            && s.machine.terminateIdentifier == m.terminateIdentifier && s.machine.options == m.options
            && forall k | 0 <= k < |s.outcome.actions| && Asks(s.outcome.actions[k]) ::
                 s.outcome.actions[k].packet == if m.state == Closing then Packet(5, m.terminateIdentifier, [])
                                                else Packet(1, m.requestIdentifier, EncodeOptions(m.options))
  {
    var s := PollTimeout(m, now);
    if m.deadline.None? || now < m.deadline.value || m.restartRemaining == 0 {
      NothingAsked(m, now, s);
    } else if m.state == Closing {
      RestartTimed(m, now, s, [], TerminateRequest(s.machine));
    } else {
      RequestFits(s.machine);
      RestartTimed(m, now, s, [], Request(s.machine));
    }
  }

  lemma RenegotiationTimed(m: Lcp, packet: Packet, now: Millis, policy: Policy)
    requires Invariant(m) && m.state == Opened && |packet.data| <= MAXIMUM_DATA && WellFormed(packet.data)
    ensures var s := ReceiveConfigureRequest(m, packet, now, policy);
            s.outcome.Done? && Timed(m, now, s) && Numbered(m, s)
  {
    var s := ReceiveConfigureRequest(m, packet, now, policy);
    AnswerFits(packet, policy, FirstMagic(m.options));
    RequestFits(SendNewRequest(m, now, true));
    OneAsks(s.outcome.actions, 1);
    assert Request(s.machine) == s.outcome.actions[1].packet;
  }

  lemma RequestTimed(m: Lcp, packet: Packet, now: Millis, policy: Policy)
    requires Invariant(m) && Negotiating(m.state) && |packet.data| <= MAXIMUM_DATA
    ensures var s := ReceiveConfigureRequest(m, packet, now, policy);
            s.outcome.Done? && Timed(m, now, s) && Numbered(m, s)
  {
    var s := ReceiveConfigureRequest(m, packet, now, policy);
    if WellFormed(packet.data) && m.state == Opened {
      RenegotiationTimed(m, packet, now, policy);
    } else {
      if WellFormed(packet.data) { AnswerFits(packet, policy, FirstMagic(m.options)); }
      NothingAsked(m, now, s);
    }
  }

  lemma AckTimed(m: Lcp, packet: Packet, now: Millis)
    requires Invariant(m) && Negotiating(m.state)
    ensures var s := ReceiveConfigureAck(m, packet, now);
            s.outcome.Done? && Timed(m, now, s) && Numbered(m, s)
  {
    var s := ReceiveConfigureAck(m, packet, now);
    if Acknowledges(packet, m) && (m.state == AckReceived || m.state == Opened) {
      NewRequestSent(m, now, s, DownIfOpened(m));
    } else {
      NothingAsked(m, now, s);
    }
  }

  lemma CorrectionTimed(m: Lcp, options: seq<ConfigOption>, now: Millis)
    requires Invariant(m) && Negotiating(m.state) && |options| <= 256
    ensures var s := AfterNegativeResponse(m, options, now);
            s.outcome.Done? && Timed(m, now, s) && Numbered(m, s)
  {
    NewRequestSent(m, now, AfterNegativeResponse(m, options, now), DownIfOpened(m));
  }

  lemma NegativeTimed(m: Lcp, packet: Packet, now: Millis)
    requires Invariant(m) && Negotiating(m.state)
    ensures var s := ReceiveConfigureNak(m, packet, now); s.outcome.Done? && Timed(m, now, s) && Numbered(m, s)
    ensures var s := ReceiveConfigureReject(m, packet, now); s.outcome.Done? && Timed(m, now, s) && Numbered(m, s)
  {
    if WellFormed(packet.data) {
      var listed := ParseOptions(packet.data).value;
      CorrectionTimed(m, ApplyNak(m.options, listed), now);
      WithoutKeeps(m.options, listed);
      CorrectionTimed(m, Without(m.options, listed), now);
    }
    NothingAsked(m, now, Ignore(m, InvalidConfigureResponse));
    if !WellFormed(packet.data) {
      NothingAsked(m, now, Ignore(m, MalformedOptions(ParseOptions(packet.data).error)));
    }
  }

  lemma TerminateTimed(m: Lcp, packet: Packet, now: Millis)
    requires Invariant(m)
    ensures var s := ReceiveTerminateRequest(m, packet); s.outcome.Done? && Timed(m, now, s) && Numbered(m, s)
    ensures var s := ReceiveTerminateAck(m, packet); s.outcome.Done? && Timed(m, now, s) && Numbered(m, s)
  {
    NothingAsked(m, now, ReceiveTerminateRequest(m, packet));
    NothingAsked(m, now, ReceiveTerminateAck(m, packet));
  }

  lemma EchoTimed(m: Lcp, packet: Packet, now: Millis)
    requires Invariant(m)
    ensures var s := ReceiveEchoRequest(m, packet); s.outcome.Done? && Timed(m, now, s) && Numbered(m, s)
  {
    var s := ReceiveEchoRequest(m, packet);
    EchoKeeps(m, packet);
    if s.outcome.ignored.Some? {
      NothingAsked(m, now, s);
    } else {
      var own := if m.acknowledgedMagic.Some? then m.acknowledgedMagic.value else 0;
      var data := BigEndian32(own) + Clip(packet.data[4..], Max(PeerOrDefault(m).transmitMru, 8) - 8);
      SingleReply(m, now, s, Packet(ECHO_REPLY, packet.identifier, data));
    }
  }

  lemma UnknownCodeTimed(m: Lcp, packet: Packet, now: Millis)
    requires Invariant(m)
    ensures var s := ReceiveUnknownCode(m, packet); s.outcome.Done? && Timed(m, now, s) && Numbered(m, s)
  {
    var limit := Max(PeerOrDefault(m).transmitMru, 8) - HEADER_LENGTH;
    var whole := [packet.code, packet.identifier] + BigEndian16((HEADER_LENGTH + |packet.data|) % 0x1_0000)
        + packet.data;
    UnknownCodeKeeps(m, packet);
    SingleReply(m, now, ReceiveUnknownCode(m, packet), Packet(CODE_REJECT, FreshIdentifier(m), Clip(whole, limit)));
  }

  lemma ConfigureTimed(m: Lcp, packet: Packet, now: Millis, policy: Policy)
    requires Invariant(m) && Negotiating(m.state) && |packet.data| <= MAXIMUM_DATA && 1 <= packet.code <= 4
    ensures var s := ReceivePacket(m, packet, now, policy); s.outcome.Done? && Timed(m, now, s) && Numbered(m, s)
  {
    RequestTimed(m, packet, now, policy);
    AckTimed(m, packet, now);
    NegativeTimed(m, packet, now);
  }

  lemma IgnoredTimed(m: Lcp, now: Millis, s: Step)
    requires Invariant(m) && s.machine == m && s.outcome.Done? && s.outcome.actions == []
    ensures Timed(m, now, s) && Numbered(m, s)
  {
    NothingAsked(m, now, s);
  }

  lemma PacketTimed(m: Lcp, packet: Packet, now: Millis, policy: Policy)
    requires Invariant(m) && |packet.data| <= MAXIMUM_DATA
    ensures var s := ReceivePacket(m, packet, now, policy); s.outcome.Done? && Timed(m, now, s) && Numbered(m, s)
  {
    if Negotiating(m.state) && 1 <= packet.code <= 4 {
      ConfigureTimed(m, packet, now, policy);
    } else if m.state == Closed || m.state == Stopped || packet.code == 10 || packet.code == 11 || packet.code == 8
              || 1 <= packet.code <= 4 || packet.code == 7 {
      IgnoredTimed(m, now, ReceivePacket(m, packet, now, policy));
    } else {
      TerminateTimed(m, packet, now);
      EchoTimed(m, packet, now);
      UnknownCodeTimed(m, packet, now);
      IgnoredTimed(m, now, Ignore(m, NotConfiguring));
    }
  }

  /** The time of a call that is given one. */
  predicate At(call: Call, now: Millis) {
    match call
    case OpenCall(t) => t == now
    case CloseCall(t) => t == now
    case LowerDownCall => true
    case RejectProtocolCall(_, _) => true
    case PollCall(t) => t == now
    case ReceiveCall(_, t, _) => t == now
  }

  /** In every state and for every call: the timer starts with a request, expires the interval later and stops when
      nothing is waited for; every request but a repeated one bears a new identifier. */
  lemma RequestsAreTimed(m: Lcp, call: Call, now: Millis)
    requires Invariant(m) && At(call, now)
    ensures var s := Apply(m, call);
            s.outcome.Done? && Timed(m, now, s) && (!call.PollCall? ==> Numbered(m, s))
  {
    match call {
      case OpenCall(t) => OpenTimed(m, t);
      case CloseCall(t) => CloseTimed(m, t);
      case LowerDownCall => LowerDownTimed(m, now);
      case RejectProtocolCall(protocol, information) => RejectProtocolTimed(m, now, protocol, information);
      case PollCall(t) => PollTimed(m, t);
      case ReceiveCall(input, t, policy) =>
        if ParsePacket(input).Ok? { PacketTimed(m, ParsePacket(input).value, t, policy); }
        else { IgnoredTimed(m, t, Receive(m, input, t, policy)); }
    }
  }

  // ----- Closing -----

  /** What ends a close: the acknowledgment of the present Terminate-Request, the last timeout or the lower layer. */
  predicate EndsClose(m: Lcp, call: Call) {
    match call
    case LowerDownCall => true
    case PollCall(now) => m.deadline.Some? && now >= m.deadline.value && m.restartRemaining == 0
    case ReceiveCall(input, _, _) =>
      && ParsePacket(input).Ok? && ParsePacket(input).value.code == 6
      && ParsePacket(input).value.identifier == m.terminateIdentifier
    case _ => false
  }

  /** A machine that closes goes to Closed by exactly these and stays Closing whatever else happens; the layer below is
      told unless it was the one that ended it. */
  lemma CloseEnds(m: Lcp, call: Call)
    requires Invariant(m) && m.state == Closing
    ensures var s := Apply(m, call);
            && s.machine.state == (if EndsClose(m, call) then Closed else Closing)
            && s.outcome.Done?
            && (ThisLayerFinished in s.outcome.actions <==> EndsClose(m, call) && !call.LowerDownCall?)
  {
    CallKeeps(m, call);
    if call.ReceiveCall? && ParsePacket(call.input).Ok? {
      ClosingReceives(m, ParsePacket(call.input).value, call.now, call.policy);
    }
  }

  lemma ClosingReceives(m: Lcp, packet: Packet, now: Millis, policy: Policy)
    requires Invariant(m) && m.state == Closing && |packet.data| <= MAXIMUM_DATA
    ensures var (s, ends) := (ReceivePacket(m, packet, now, policy),
                              packet.code == 6 && packet.identifier == m.terminateIdentifier);
            && s.machine.state == (if ends then Closed else Closing)
            && s.outcome.Done? && (ThisLayerFinished in s.outcome.actions <==> ends)
  {
    ReceiveKeeps(m, packet, now, policy);
  }

  /** A Terminate-Request is acknowledged first and ends everything but a close of one's own. */
  lemma TerminationIsAcknowledged(m: Lcp, packet: Packet, now: Millis, policy: Policy)
    requires m.state != Closed && m.state != Stopped && packet.code == 5
    ensures var s := ReceivePacket(m, packet, now, policy);
            && s.outcome == Done([SendPacket(Packet(6, packet.identifier, []))]
                                 + (if m.state == Opened then [ThisLayerDown] else []), None)
            && (m.state == Closing ==> s.machine == m)
            && (m.state != Closing ==>
                  && s.machine.state == Stopped && s.machine.deadline.None? && s.machine.restartRemaining == 0
                  && s.machine.peer.None? && s.machine.acknowledgedMagic.None? && s.machine.options == m.options)
  {
    assert [SendPacket(Packet(6, packet.identifier, []))] + [] == [SendPacket(Packet(6, packet.identifier, []))];
  }

  /** A machine that is Closed or Stopped hears nothing; only an open starts it. */
  lemma OnlyOpenStarts(m: Lcp, call: Call)
    requires Invariant(m) && (m.state == Closed || m.state == Stopped)
    ensures var s := Apply(m, call);
            if call.OpenCall? then s.machine.state == RequestSent
            else
              && (s.machine.state == Closed || s.machine.state == Stopped) && s.machine.options == m.options
              && s.outcome.Done? && s.outcome.actions == []
  {
  }

  predicate TellsThePeer(s: Step) {
    s.outcome.Done? ==>
      forall k | 0 <= k < |s.outcome.actions| && s.outcome.actions[k].ThisLayerUp? ::
        s.machine.peer == Some(s.outcome.actions[k].configuration)
  }

  lemma RequestTells(m: Lcp, packet: Packet, now: Millis, policy: Policy)
    requires Negotiating(m.state)
    ensures TellsThePeer(ReceiveConfigureRequest(m, packet, now, policy))
  {
  }

  lemma PacketTells(m: Lcp, packet: Packet, now: Millis, policy: Policy)
    requires Invariant(m)
    ensures TellsThePeer(ReceivePacket(m, packet, now, policy))
  {
    if Negotiating(m.state) && packet.code == 1 { RequestTells(m, packet, now, policy); }
  }

  /** The layer above is told the configuration the machine keeps for the peer. */
  lemma UpTellsThePeer(m: Lcp, call: Call)
    requires Invariant(m)
    ensures TellsThePeer(Apply(m, call))
  {
    if call.ReceiveCall? && ParsePacket(call.input).Ok? {
      PacketTells(m, ParsePacket(call.input).value, call.now, call.policy);
    }
  }

  // ----- What is ignored -----

  /** The Ack of the present request, octet for octet; no other has any effect. */
  lemma OnlyOwnAckCounts(m: Lcp, packet: Packet, now: Millis, policy: Policy)
    requires Invariant(m) && Negotiating(m.state) && packet.code == 2
    ensures var s := ReceivePacket(m, packet, now, policy);
            if packet == Packet(2, m.requestIdentifier, EncodeOptions(m.options))
            then s.outcome.Done? && s.outcome.ignored.None?
            else Ignores(s, m, InvalidConfigureResponse)
  {
    ConfigureAckKeeps(m, packet, now);
    if Acknowledges(packet, m) {
      var s := ReceiveConfigureAck(m, packet, now);
      RequestFits(s.machine);
      SendingRestart(m, Request(s.machine));
    }
  }

  /** No response to the present request: another Ack; a Nak or a Reject under another identifier or with a type
      repeated; a Reject of nothing or of what was not asked for. */
  predicate IsInvalid(m: Lcp, p: Packet) {
    if p.code == 2 then p != Packet(2, m.requestIdentifier, EncodeOptions(m.options))
    else
      && (p.code == 3 || p.code == 4)
      && (|| p.identifier != m.requestIdentifier
          || (&& WellFormed(p.data)
              && var listed := ParseOptions(p.data).value;
                 || !NoRepeats(listed)
                 || (p.code == 4 && (listed == [] || exists o | o in listed :: o !in m.options))))
  }

  /** Why something received has no effect. */
  predicate Reason(m: Lcp, input: Bytes, reason: IgnoreReason) {
    if reason == NotConfiguring then
      || m.state == Closed || m.state == Stopped
      || (&& ParsePacket(input).Ok?
          && var code := ParsePacket(input).value.code;
             (9 <= code <= 11 && m.state != Opened) || (1 <= code <= 4 && m.state == Closing))
    else
      && m.state != Closed && m.state != Stopped
      && if ParsePacket(input).Err? then reason == MalformedPacket(ParsePacket(input).error)
         else
           var p := ParsePacket(input).value;
           match reason
           case MalformedPacket(_) => false
           case MalformedOptions(e) =>
             m.state != Closing && p.code in {1, 3, 4} && ParseOptions(p.data) == Err(e)
             && (p.code != 1 ==> p.identifier == m.requestIdentifier)
           case MalformedEchoRequest => m.state == Opened && p.code == 9 && |p.data| < 4
           case InvalidConfigureResponse => m.state != Closing && IsInvalid(m, p)
           case InvalidTerminateResponse => m.state == Closing && p.code == 6 && p.identifier != m.terminateIdentifier
           case UnexpectedMagicNumber(expected, actual) =>
             && m.state == Opened && p.code == 9 && |p.data| >= 4 && expected != actual
             && expected == PeerNumber(m) && BigEndian32(actual) == p.data[..4]
           case UnsupportedCode(code) => p.code == code && 7 <= code <= 8
           case NotConfiguring => false
  }

  lemma ConfigureReason(m: Lcp, input: Bytes, packet: Packet, now: Millis, policy: Policy)
    requires m.state != Closed && m.state != Stopped && ParsePacket(input) == Ok(packet) && 1 <= packet.code <= 4
    ensures var s := ReceivePacket(m, packet, now, policy);
            s.outcome.Done? && s.outcome.ignored.Some? ==>
              s.machine == m && s.outcome.actions == [] && Reason(m, input, s.outcome.ignored.value)
  {
    if WellFormed(packet.data) { NoRepeatsMeansNoneRepeated(ParseOptions(packet.data).value); }
  }

  lemma PacketReason(m: Lcp, input: Bytes, packet: Packet, now: Millis, policy: Policy)
    requires Invariant(m) && m.state != Closed && m.state != Stopped && ParsePacket(input) == Ok(packet)
    ensures var s := ReceivePacket(m, packet, now, policy);
            s.outcome.Done? && s.outcome.ignored.Some? ==>
              s.machine == m && s.outcome.actions == [] && Reason(m, input, s.outcome.ignored.value)
  {
    if 1 <= packet.code <= 4 {
      ConfigureReason(m, input, packet, now, policy);
    } else if packet.code == 9 && m.state == Opened {
      EchoIsAnswered(m, packet, now, policy);
      BigEndian32RoundTrip(PeerNumber(m));
    }
  }

  /** What is ignored has a reason that is true of it, changes nothing and is not answered. */
  lemma IgnoredForAReason(m: Lcp, input: Bytes, now: Millis, policy: Policy)
    requires Invariant(m)
    ensures var s := Receive(m, input, now, policy);
            s.outcome.Done? && s.outcome.ignored.Some? ==>
              s.machine == m && s.outcome.actions == [] && Reason(m, input, s.outcome.ignored.value)
  {
    if m.state != Closed && m.state != Stopped && ParsePacket(input).Ok? {
      PacketReason(m, input, ParsePacket(input).value, now, policy);
    }
  }

  lemma ConfigureWithReason(m: Lcp, input: Bytes, packet: Packet, now: Millis, policy: Policy, reason: IgnoreReason)
    requires m.state != Closed && m.state != Stopped && ParsePacket(input) == Ok(packet) && 1 <= packet.code <= 4
    requires Reason(m, input, reason)
    ensures Ignores(ReceivePacket(m, packet, now, policy), m, reason)
  {
    if WellFormed(packet.data) { NoRepeatsMeansNoneRepeated(ParseOptions(packet.data).value); }
  }

  lemma PacketWithReason(m: Lcp, input: Bytes, packet: Packet, now: Millis, policy: Policy, reason: IgnoreReason)
    requires m.state != Closed && m.state != Stopped && ParsePacket(input) == Ok(packet) && Reason(m, input, reason)
    ensures Ignores(ReceivePacket(m, packet, now, policy), m, reason)
  {
    if 1 <= packet.code <= 4 {
      ConfigureWithReason(m, input, packet, now, policy, reason);
    } else if packet.code == 9 && m.state == Opened {
      EchoIsAnswered(m, packet, now, policy);
      BigEndian32RoundTrip(PeerNumber(m));
      if reason.UnexpectedMagicNumber? { BigEndian32RoundTrip(reason.actual); }
    }
  }

  /** And everything of which such a reason is true is ignored for it. */
  lemma ReasonsAreIgnored(m: Lcp, input: Bytes, now: Millis, policy: Policy, reason: IgnoreReason)
    requires Reason(m, input, reason)
    ensures Ignores(Receive(m, input, now, policy), m, reason)
  {
    if m.state != Closed && m.state != Stopped && ParsePacket(input).Ok? {
      PacketWithReason(m, input, ParsePacket(input).value, now, policy, reason);
    }
  }

  /** An Echo-Reply or a Discard-Request is taken note of while Opened, and that is all. */
  lemma SomeAreSilent(m: Lcp, packet: Packet, now: Millis, policy: Policy)
    requires m.state == Opened && (packet.code == 10 || packet.code == 11)
    ensures ReceivePacket(m, packet, now, policy) == Step(m, Done([], None))
  {
  }

  /** The connection is over: nothing of the peer is kept. */
  predicate Forgets(m: Lcp) { m.peer.None? && m.acknowledgedMagic.None? }

  /** A call that ends a connection or starts a new one forgets the old one. */
  lemma ConnectionIsForgotten(m: Lcp, call: Call)
    requires Invariant(m)
    ensures var after := Apply(m, call).machine;
            && (call.OpenCall? && m.state != Opened && m.state != Closing ==> Forgets(after))
            && (call.CloseCall? && m.state != Closing ==> Forgets(after))
            && (call.LowerDownCall? ==> Forgets(after))
            && (call.ReceiveCall? && after.state != m.state && (after.state == Stopped || after.state == Closed) ==>
                  Forgets(after))
  {
    if call.ReceiveCall? && m.state != Closed && m.state != Stopped && ParsePacket(call.input).Ok? {
      ReceivingForgets(m, ParsePacket(call.input).value, call.now, call.policy);
    }
  }

  lemma ReceivingForgets(m: Lcp, packet: Packet, now: Millis, policy: Policy)
    requires Invariant(m) && m.state != Closed && m.state != Stopped
    ensures var after := ReceivePacket(m, packet, now, policy).machine;
            after.state == Stopped || after.state == Closed ==> Forgets(after)
  {
  }

  // ----- The magic number behind a Nak -----

  /** The number to try next. */
  function Retried(number: Word32): Word32 {
    var sum := (number + 0x9e37_79b9) % 0x1_0000_0000;
    if sum == 0 then 0x9e37_79b9 else sum
  }

  lemma FoundIsOnly(suggestions: seq<ConfigOption>, s: ConfigOption)
    requires NoRepeats(suggestions) && s in suggestions
    ensures FindType(suggestions, s.kind) == Some(s)
  {
    var k :| 0 <= k < |suggestions| && suggestions[k] == s;
    assert Mentions(suggestions, s.kind);
    var found := FindType(suggestions, s.kind).value;
    var j :| 0 <= j < |suggestions| && suggestions[j] == found;
    assert suggestions[j].kind == suggestions[k].kind;
  }

  lemma NumberIsData(s: ConfigOption)
    requires IsMagic(s)
    ensures MagicOption(MagicOf(s)) == s
    ensures MagicOf(s) == 0 <==> s.data == [0, 0, 0, 0]
  {
    NumberShown(s.data);
    assert s.data == [s.data[0], s.data[1], s.data[2], s.data[3]];
  }

  /** An option takes the suggestion for its type; where that is a magic number of zero or the one it has, the number
      to try next. */
  lemma SuggestionIsTaken(o: ConfigOption, suggestions: seq<ConfigOption>, s: ConfigOption)
    requires NoRepeats(suggestions) && s in suggestions && s.kind == o.kind
    ensures Amend(o, suggestions)
            == if o.kind == 5 && |o.data| == 4 && (s.data == [0, 0, 0, 0] || s.data == o.data)
               then RawOption(5, BigEndian32(Retried(ReadBigEndian32(o.data))))
               else s
  {
    FoundIsOnly(suggestions, s);
    if IsMagic(o) && IsMagic(s) {
      NumberIsData(s);
      NumberIsData(o);
    }
  }
}
