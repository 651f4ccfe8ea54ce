/** The LCP machine with the fields it updates in place. Every method is `LcpSpec` on the value
    of those fields, with packets as the octets that go out. */
module LcpMachine {
  import opened Octets
  import opened LcpCodec
  import opened LcpPolicy
  import opened Rfc1661
  import opened LcpSpec

  datatype WireAction =
    | SendOctets(octets: Bytes)
    | LayerUp(configuration: PeerConfiguration)
    | LayerDown
    | LayerFinished

  datatype Transition = Transition(actions: seq<WireAction>, ignored: Option<IgnoreReason>)

  type Reply = Result<Transition, EncodeError>

  function OnWire(a: Action): WireAction {
    match a
    case SendPacket(p) => SendOctets(if EncodePacket(p).Ok? then EncodePacket(p).value else [])
    case ThisLayerUp(configuration) => LayerUp(configuration)
    case ThisLayerDown => LayerDown
    case ThisLayerFinished => LayerFinished
  }

  function AllOnWire(actions: seq<Action>): seq<WireAction> {
    seq(|actions|, k requires 0 <= k < |actions| => OnWire(actions[k]))
  }

  function ReplyOf(outcome: Outcome): Reply {
    match outcome
    case Failed(e) => Err(e)
    case Done(actions, ignored) => Ok(Transition(AllOnWire(actions), ignored))
  }

  /** The wire form of the short lists the machine returns. */
  lemma WireLists()
    ensures AllOnWire([]) == []
    ensures forall a :: AllOnWire([a]) == [OnWire(a)]
    ensures forall a, b :: AllOnWire([a, b]) == [OnWire(a), OnWire(b)]
    ensures forall a, b, c :: AllOnWire([a, b, c]) == [OnWire(a), OnWire(b), OnWire(c)]
  {
  }

  lemma NothingOnWire()
    ensures AllOnWire([]) == []
  {
  }

  /** Layer Down if it was up, then a packet that may be too large. */
  lemma SendingOnWire(m: Lcp, packet: Packet)
    ensures ReplyOf(Sending([], packet, [])) == Sent([], EncodePacket(packet))
    ensures ReplyOf(Sending(DownIfOpened(m), packet, []))
            == Sent(if m.state == Opened then [LayerDown] else [], EncodePacket(packet))
  {
    assert [] + [SendPacket(packet)] + [] == [SendPacket(packet)];
    assert [ThisLayerDown] + [SendPacket(packet)] + [] == [ThisLayerDown, SendPacket(packet)];
    assert [LayerDown] + [OnWire(SendPacket(packet))] == [LayerDown, OnWire(SendPacket(packet))];
    assert [] + [OnWire(SendPacket(packet))] == [OnWire(SendPacket(packet))];
    WireLists();
  }

  function Sent(before: seq<WireAction>, packet: Result<Bytes, EncodeError>): Reply {
    match packet
    case Err(e) => Err(e)
    case Ok(octets) => Ok(Transition(before + [SendOctets(octets)], None))
  }

  function QuietReply(): Reply { Ok(Transition([], None)) }

  function Ignored(reason: IgnoreReason): Reply { Ok(Transition([], Some(reason))) }

  method Encode(packet: Packet) returns (r: Result<Bytes, EncodeError>)
    ensures r == EncodePacket(packet)
  {
    var output := new Octet[HEADER_LENGTH + |packet.data|](_ => 0);
    var written := EncodeInto(packet, output);
    match written {
      case Err(e) => r := Err(e);
      case Ok(length) =>
        assert EncodePacket(packet).value + [] == EncodePacket(packet).value;
        r := Ok(output[..]);
    }
  }

  class Machine {
    const settings: Settings
    var state: State
    var localOptions: Bytes
    var requestIdentifier: Octet
    var terminateIdentifier: Octet
    var nextIdentifier: Octet
    var restartRemaining: Octet
    var restartDeadlineMs: Option<Millis>
    var peerConfiguration: Option<PeerConfiguration>
    var acknowledgedLocalMagic: Option<Word32>

    /** The local options always parse, so that no correction of them can go wrong. */
    predicate Valid()
      reads this
    {
      WellFormed(localOptions)
    }

    function View(): Lcp
      requires Valid()
      reads this
    {
      Lcp(state, settings, ParseOptions(localOptions).value, requestIdentifier, terminateIdentifier,
          nextIdentifier, restartRemaining, restartDeadlineMs, peerConfiguration, acknowledgedLocalMagic)
    }

    constructor (localOptions: Bytes, settings: Settings)
      requires WellFormed(localOptions)
      ensures Valid() && View() == New(ParseOptions(localOptions).value, settings)
    {
      this.settings := settings;
      this.localOptions := localOptions;
      state := Closed;
      requestIdentifier, terminateIdentifier, nextIdentifier, restartRemaining := 0, 0, 0, 0;
      restartDeadlineMs, peerConfiguration, acknowledgedLocalMagic := None, None, None;
    }

    lemma LocalOptionsEncode()
      requires Valid()
      ensures EncodeOptions(View().options) == localOptions
    {
      ParsedOptionsEncode(localOptions);
    }

    method AllocateIdentifier() returns (identifier: Octet)
      requires Valid()
      modifies this
      ensures Valid() && identifier == FreshIdentifier(old(View()))
      ensures View() == old(View()).(nextIdentifier := identifier)
    {
      nextIdentifier := (nextIdentifier + 1) % 0x100;
      identifier := nextIdentifier;
    }

    method EncodeRequest() returns (r: Result<Bytes, EncodeError>)
      requires Valid()
      ensures r == EncodePacket(Request(View()))
    {
      LocalOptionsEncode();
      r := Encode(Packet(CONFIGURE_REQUEST, requestIdentifier, localOptions));
    }

    method EncodeTerminateRequest() returns (r: Result<Bytes, EncodeError>)
      requires Valid()
      ensures r == EncodePacket(TerminateRequest(View()))
    {
      r := Encode(Packet(TERMINATE_REQUEST, terminateIdentifier, []));
    }

    method SendNewRequest(now: Millis, reset: bool) returns (r: Result<Bytes, EncodeError>)
      requires Valid()
      modifies this
      ensures Valid() && View() == LcpSpec.SendNewRequest(old(View()), now, reset)
      ensures r == EncodePacket(Request(View()))
    {
      acknowledgedLocalMagic := None;
      requestIdentifier := AllocateIdentifier();
      restartRemaining := DecrementOrZero(if reset then settings.maxConfigure else restartRemaining);
      restartDeadlineMs := Some(After(now, settings.restartIntervalMs));
      r := EncodeRequest();
    }

    /** Everything that belongs to a connection is dropped. */
    method Clear(to: State)
      requires Valid()
      modifies this
      ensures Valid() && View() == Cleared(old(View()), to)
    {
      state := to;
      restartDeadlineMs := None;
      restartRemaining := 0;
      peerConfiguration := None;
      acknowledgedLocalMagic := None;
    }

    method Open(now: Millis) returns (r: Reply)
      requires Valid()
      modifies this
      ensures Valid()
      ensures var s := LcpSpec.Open(old(View()), now); View() == s.machine && r == ReplyOf(s.outcome)
    {
      NothingOnWire();
      if state == Opened || state == Closing {
        return QuietReply();
      }
      state := RequestSent;
      peerConfiguration := None;
      acknowledgedLocalMagic := None;
      var packet := SendNewRequest(now, true);
      SendingOnWire(old(View()), Request(View()));
      r := Sent([], packet);
    }

    /** The request of a close from an active state. */
    method SendTerminateRequest(now: Millis) returns (packet: Result<Bytes, EncodeError>)
      requires Valid()
      modifies this
      ensures Valid() && packet == EncodePacket(TerminateRequest(View()))
      ensures var m := old(View());
              View() == m.(state := Closing, peer := None, acknowledgedMagic := None,
                           nextIdentifier := FreshIdentifier(m), terminateIdentifier := FreshIdentifier(m),
                           restartRemaining := DecrementOrZero(m.settings.maxTerminate), deadline := Restarted(m, now))
    {
      state := Closing;
      peerConfiguration := None;
      acknowledgedLocalMagic := None;
      terminateIdentifier := AllocateIdentifier();
      restartRemaining := DecrementOrZero(settings.maxTerminate);
      restartDeadlineMs := Some(After(now, settings.restartIntervalMs));
      packet := EncodeTerminateRequest();
    }

    method Close(now: Millis) returns (r: Reply)
      requires Valid()
      modifies this
      ensures Valid()
      ensures var s := LcpSpec.Close(old(View()), now); View() == s.machine && r == ReplyOf(s.outcome)
    {
      NothingOnWire();
      if state == Closing {
        return QuietReply();
      }
      if state == Closed || state == Stopped {
        Clear(Closed);
        return QuietReply();
      }
      var actions := if state == Opened then [LayerDown] else [];
      var packet := SendTerminateRequest(now);
      SendingOnWire(old(View()), TerminateRequest(View()));
      r := Sent(actions, packet);
    }

    method LowerDown() returns (r: Transition)
      requires Valid()
      modifies this
      ensures Valid()
      ensures var s := LcpSpec.LowerDown(old(View())); View() == s.machine && Ok(r) == ReplyOf(s.outcome)
    {
      WireLists();
      var wasOpen := state == Opened;
      Clear(Closed);
      r := Transition(if wasOpen then [LayerDown] else [], None);
    }

    method RejectProtocol(protocol: Word16, information: Bytes) returns (r: Reply)
      requires Valid()
      modifies this
      ensures Valid()
      ensures var s := LcpSpec.RejectProtocol(old(View()), protocol, information);
              View() == s.machine && r == ReplyOf(s.outcome)
    {
      WireLists();
      if state != Opened {
        return Ignored(NotConfiguring);
      }
      var peer := if peerConfiguration.Some? then peerConfiguration.value else DEFAULT_PEER;
      var rejected := BigEndian16(protocol) + Clip(information, Max(peer.transmitMru, 6) - 6);
      var identifier := AllocateIdentifier();
      var packet := Encode(Packet(PROTOCOL_REJECT, identifier, rejected));
      SendingOnWire(old(View()), Packet(PROTOCOL_REJECT, identifier, rejected));
      r := Sent([], packet);
    }

    method PollTimeout(now: Millis) returns (r: Reply)
      requires Valid()
      modifies this
      ensures Valid()
      ensures var s := LcpSpec.PollTimeout(old(View()), now); View() == s.machine && r == ReplyOf(s.outcome)
    {
      WireLists();
      if restartDeadlineMs.None? || now < restartDeadlineMs.value {
        return QuietReply();
      }
      var packet;
      if state == Closing {
        if restartRemaining == 0 {
          state := Closed;
          restartDeadlineMs := None;
          peerConfiguration := None;
          return Ok(Transition([LayerFinished], None));
        }
        restartRemaining := restartRemaining - 1;
        restartDeadlineMs := Some(After(now, settings.restartIntervalMs));
        packet := EncodeTerminateRequest();
      } else if !Negotiating(state) || state == Opened {
        restartDeadlineMs := None;
        return QuietReply();
      } else {
        if restartRemaining == 0 {
          state := Stopped;
          restartDeadlineMs := None;
          return Ok(Transition([LayerFinished], None));
        }
        restartRemaining := restartRemaining - 1;
        if state == AckReceived {
          state := RequestSent;
        }
        restartDeadlineMs := Some(After(now, settings.restartIntervalMs));
        packet := EncodeRequest();
      }
      SendingOnWire(old(View()), Request(View()));
      SendingOnWire(old(View()), TerminateRequest(View()));
      r := Sent([], packet);
    }

    /** The answer is encoded before anything changes; what follows depends on the state. */
    method Answer(ghost packet: Packet, evaluation: Evaluation, response: Bytes, now: Millis, ghost policy: Policy)
    returns (r: Reply)
      requires Valid() && Negotiating(state) && WellFormed(packet.data)
      requires evaluation == Evaluate(ParseOptions(packet.data).value, policy, FirstMagic(View().options))
      requires EncodePacket(AnswerTo(packet, evaluation)) == Ok(response)
      modifies this
      ensures Valid()
      ensures var s := LcpSpec.ReceiveConfigureRequest(old(View()), packet, now, policy);
              View() == s.machine && r == ReplyOf(s.outcome)
    {
      WireLists();
      var acceptable := evaluation.Acked?;
      if acceptable {
        peerConfiguration := Some(evaluation.configuration);
      }
      var actions: seq<WireAction> := [];
      if state == Opened {
        var request := SendNewRequest(now, true);
        if request.Err? {
          return Err(request.error);
        }
        actions := [LayerDown, SendOctets(request.value)];
        state := if acceptable then AckSent else RequestSent;
      } else if state == AckReceived {
        if acceptable {
          state := Opened;
          restartDeadlineMs := None;
        }
      } else {
        state := if acceptable then AckSent else RequestSent;
      }
      actions := actions + [SendOctets(response)];
      if state == Opened {
        actions := actions + [LayerUp(evaluation.configuration)];
      }
      ghost var due := LcpSpec.ReceiveConfigureRequest(old(View()), packet, now, policy).outcome;
      assert actions == AllOnWire(due.actions);
      r := Ok(Transition(actions, None));
    }

    method ReceiveConfigureRequest(packet: Packet, now: Millis, policy: Policy) returns (r: Reply)
      requires Valid() && Negotiating(state)
      modifies this
      ensures Valid()
      ensures var s := LcpSpec.ReceiveConfigureRequest(old(View()), packet, now, policy);
              View() == s.machine && r == ReplyOf(s.outcome)
    {
      NothingOnWire();
      var collected := CollectOptions(packet.data);
      if collected.Err? {
        return Ignored(MalformedOptions(collected.error));
      }
      var evaluation := EvaluateRequest(collected.value, policy, FirstMagic(ParseOptions(localOptions).value));
      var response := Encode(AnswerTo(packet, evaluation));
      if response.Err? {
        return Err(response.error);
      }
      r := Answer(packet, evaluation, response.value, now, policy);
    }

    method ReceiveConfigureAck(packet: Packet, now: Millis) returns (r: Reply)
      requires Valid() && Negotiating(state)
      modifies this
      ensures Valid()
      ensures var s := LcpSpec.ReceiveConfigureAck(old(View()), packet, now);
              View() == s.machine && r == ReplyOf(s.outcome)
    {
      WireLists();
      LocalOptionsEncode();
      if packet.code != CONFIGURE_ACK || packet.identifier != requestIdentifier || packet.data != localOptions {
        return Ignored(InvalidConfigureResponse);
      }
      acknowledgedLocalMagic := FirstMagic(ParseOptions(localOptions).value);
      if state == RequestSent {
        state := AckReceived;
        restartRemaining := settings.maxConfigure;
        return QuietReply();
      }
      if state == AckSent {
        state := Opened;
        restartRemaining := settings.maxConfigure;
        restartDeadlineMs := None;
        var peer := if peerConfiguration.Some? then peerConfiguration.value else DEFAULT_PEER;
        return Ok(Transition([LayerUp(peer)], None));
      }
      var actions := if state == Opened then [LayerDown] else [];
      state := RequestSent;
      var request := SendNewRequest(now, false);
      SendingOnWire(old(View()), Request(View()));
      r := Sent(actions, request);
    }

    method AfterNegativeResponse(options: Bytes, now: Millis) returns (r: Reply)
      requires Valid() && Negotiating(state) && WellFormed(options)
      modifies this
      ensures Valid()
      ensures var s := LcpSpec.AfterNegativeResponse(old(View()), ParseOptions(options).value, now);
              View() == s.machine && r == ReplyOf(s.outcome)
    {
      localOptions := options;
      acknowledgedLocalMagic := None;
      var resetCounter := state == RequestSent || state == AckSent;
      var actions := if state == Opened then [LayerDown] else [];
      if state != AckSent {
        state := RequestSent;
      }
      var request := SendNewRequest(now, resetCounter);
      SendingOnWire(old(View()), Request(View()));
      r := Sent(actions, request);
    }

    method ReceiveConfigureNak(packet: Packet, now: Millis) returns (r: Reply)
      requires Valid() && Negotiating(state)
      modifies this
      ensures Valid()
      ensures var s := LcpSpec.ReceiveConfigureNak(old(View()), packet, now);
              View() == s.machine && r == ReplyOf(s.outcome)
    {
      WireLists();
      if packet.identifier != requestIdentifier {
        return Ignored(InvalidConfigureResponse);
      }
      var collected := CollectOptions(packet.data);
      if collected.Err? {
        return Ignored(MalformedOptions(collected.error));
      }
      if HasRepeatedTypes(collected.value) {
        return Ignored(InvalidConfigureResponse);
      }
      ghost var amended := ApplyNak(View().options, collected.value);
      var octets := BuildNak(ParseOptions(localOptions).value, collected.value);
      EncodedOptionsParse(amended);
      r := AfterNegativeResponse(octets, now);
    }

    method ReceiveConfigureReject(packet: Packet, now: Millis) returns (r: Reply)
      requires Valid() && Negotiating(state)
      modifies this
      ensures Valid()
      ensures var s := LcpSpec.ReceiveConfigureReject(old(View()), packet, now);
              View() == s.machine && r == ReplyOf(s.outcome)
    {
      WireLists();
      if packet.identifier != requestIdentifier {
        return Ignored(InvalidConfigureResponse);
      }
      var collected := CollectOptions(packet.data);
      if collected.Err? {
        return Ignored(MalformedOptions(collected.error));
      }
      var updated := BuildReject(ParseOptions(localOptions).value, collected.value);
      if updated.None? {
        return Ignored(InvalidConfigureResponse);
      }
      EncodedOptionsParse(ApplyReject(View().options, collected.value).value);
      r := AfterNegativeResponse(updated.value, now);
    }

    method ReceiveTerminateRequest(packet: Packet) returns (r: Reply)
      requires Valid()
      modifies this
      ensures Valid()
      ensures var s := LcpSpec.ReceiveTerminateRequest(old(View()), packet);
              View() == s.machine && r == ReplyOf(s.outcome)
    {
      WireLists();
      var response := Encode(Packet(TERMINATE_ACK, packet.identifier, []));
      if state == Closing {
        return Ok(Transition([SendOctets(response.value)], None));
      }
      var wasOpen := state == Opened;
      Clear(Stopped);
      ghost var acknowledgment := SendPacket(Packet(TERMINATE_ACK, packet.identifier, []));
      assert [acknowledgment] + DownIfOpened(old(View()))
             == if wasOpen then [acknowledgment, ThisLayerDown] else [acknowledgment];
      var actions := [SendOctets(response.value)];
      if wasOpen {
        actions := actions + [LayerDown];
        assert actions == AllOnWire([acknowledgment, ThisLayerDown]);
      }
      r := Ok(Transition(actions, None));
    }

    method ReceiveTerminateAck(packet: Packet) returns (r: Reply)
      requires Valid()
      modifies this
      ensures Valid()
      ensures var s := LcpSpec.ReceiveTerminateAck(old(View()), packet);
              View() == s.machine && r == ReplyOf(s.outcome)
    {
      WireLists();
      if state != Closing {
        return QuietReply();
      }
      if packet.identifier != terminateIdentifier {
        return Ignored(InvalidTerminateResponse);
      }
      Clear(Closed);
      r := Ok(Transition([LayerFinished], None));
    }

    method ReceiveEchoRequest(packet: Packet) returns (r: Reply)
      requires Valid()
      ensures var s := LcpSpec.ReceiveEchoRequest(View(), packet); View() == s.machine && r == ReplyOf(s.outcome)
    {
      WireLists();
      if state != Opened {
        return Ignored(NotConfiguring);
      }
      if |packet.data| < 4 {
        return Ignored(MalformedEchoRequest);
      }
      var actual := ReadBigEndian32(packet.data[..4]);
      var peer := if peerConfiguration.Some? then peerConfiguration.value else DEFAULT_PEER;
      var expected := if peer.magicNumber.Some? then peer.magicNumber.value else 0;
      if actual != expected {
        return Ignored(UnexpectedMagicNumber(expected, actual));
      }
      var own := if acknowledgedLocalMagic.Some? then acknowledgedLocalMagic.value else 0;
      var data := BigEndian32(own) + Clip(packet.data[4..], Max(peer.transmitMru, 8) - 8);
      var reply := Encode(Packet(ECHO_REPLY, packet.identifier, data));
      SendingOnWire(old(View()), Packet(ECHO_REPLY, packet.identifier, data));
      r := Sent([], reply);
    }

    method ReceiveUnknownCode(input: Bytes, packet: Packet) returns (r: Reply)
      requires Valid() && ParsePacket(input) == Ok(packet)
      modifies this
      ensures Valid()
      ensures var s := LcpSpec.ReceiveUnknownCode(old(View()), packet);
              View() == s.machine && r == ReplyOf(s.outcome)
    {
      var peer := if peerConfiguration.Some? then peerConfiguration.value else DEFAULT_PEER;
      var length := Min(HEADER_LENGTH + |packet.data|, |input|);
      var rejected := input[..Min(length, Max(peer.transmitMru, 8) - HEADER_LENGTH)];
      var identifier := AllocateIdentifier();
      RejectedOctets(input, packet);
      assert rejected == Clip(input[..length], Max(peer.transmitMru, 8) - HEADER_LENGTH);
      var reject := Encode(Packet(CODE_REJECT, identifier, rejected));
      SendingOnWire(old(View()), Packet(CODE_REJECT, identifier, rejected));
      r := Sent([], reject);
    }

    method Receive(input: Bytes, now: Millis, policy: Policy) returns (r: Reply)
      requires Valid()
      modifies this
      ensures Valid()
      ensures var s := LcpSpec.Receive(old(View()), input, now, policy); View() == s.machine && r == ReplyOf(s.outcome)
    {
      WireLists();
      if state == Closed || state == Stopped {
        return Ignored(NotConfiguring);
      }
      var parsed := ParsePacket(input);
      if parsed.Err? {
        return Ignored(MalformedPacket(parsed.error));
      }
      var packet := parsed.value;
      var code := packet.code;
      if state == Closing && KnownCode(code) && (code < TERMINATE_REQUEST || code > PROTOCOL_REJECT) {
        return Ignored(NotConfiguring);
      }
      if code == CONFIGURE_REQUEST {
        r := ReceiveConfigureRequest(packet, now, policy);
      } else if code == CONFIGURE_ACK {
        r := ReceiveConfigureAck(packet, now);
      } else if code == CONFIGURE_NAK {
        r := ReceiveConfigureNak(packet, now);
      } else if code == CONFIGURE_REJECT {
        r := ReceiveConfigureReject(packet, now);
      } else if code == TERMINATE_REQUEST {
        r := ReceiveTerminateRequest(packet);
      } else if code == TERMINATE_ACK {
        r := ReceiveTerminateAck(packet);
      } else if code == ECHO_REQUEST {
        r := ReceiveEchoRequest(packet);
      } else if code == ECHO_REPLY || code == DISCARD_REQUEST {
        r := if state == Opened then QuietReply() else Ignored(NotConfiguring);
      } else if !KnownCode(code) {
        r := ReceiveUnknownCode(input, packet);
      } else {
        r := Ignored(UnsupportedCode(code));
      }
    }
  }

  /** The octets up to the declared length are the packet as the peer encoded it. */
  lemma RejectedOctets(input: Bytes, packet: Packet)
    requires ParsePacket(input) == Ok(packet)
    ensures HEADER_LENGTH + |packet.data| <= |input|
    ensures input[..HEADER_LENGTH + |packet.data|]
            == [packet.code, packet.identifier] + BigEndian16((HEADER_LENGTH + |packet.data|) % 0x1_0000) + packet.data
  {
    var declared: int := ReadBigEndian16(input[2], input[3]);
    assert declared / 0x100 == input[2] && declared % 0x100 == input[3];
  }

  /** A machine for a well-formed option list, or the error of the first malformed option. */
  method NewMachine(localOptions: Bytes, settings: Settings) returns (r: Result<Machine, OptionParseError>)
    ensures match ParseOptions(localOptions)
            case Err(e) => r == Err(e)
            case Ok(options) => r.Ok? && fresh(r.value) && r.value.Valid() && r.value.View() == New(options, settings)
  {
    var collected := CollectOptions(localOptions);
    if collected.Err? {
      return Err(collected.error);
    }
    var machine := new Machine(localOptions, settings);
    return Ok(machine);
  }
}
