/** The LCP machine on values: the state after every call and what the call returns.
    `LcpMachine` is the machine with fields that refines it. */
module LcpSpec {
  import opened Octets
  import opened LcpCodec
  import opened LcpPolicy
  import opened Rfc1661

  type Millis = x: int | 0 <= x < 0x1_0000_0000_0000_0000

  datatype Settings = Settings(restartIntervalMs: Millis, maxConfigure: Octet, maxTerminate: Octet)

  datatype Lcp = Lcp(
    state: State,
    settings: Settings,
    options: seq<ConfigOption>,
    requestIdentifier: Octet,
    terminateIdentifier: Octet,
    nextIdentifier: Octet,
    restartRemaining: Octet,
    deadline: Option<Millis>,
    peer: Option<PeerConfiguration>,
    acknowledgedMagic: Option<Word32>)

  datatype Action =
    | SendPacket(packet: Packet)
    | ThisLayerUp(configuration: PeerConfiguration)
    | ThisLayerDown
    | ThisLayerFinished

  datatype IgnoreReason =
    | MalformedPacket(parseError: ParseError)
    | MalformedOptions(optionError: OptionParseError)
    | MalformedEchoRequest
    | InvalidConfigureResponse
    | InvalidTerminateResponse
    | UnexpectedMagicNumber(expected: Word32, actual: Word32)
    | UnsupportedCode(code: Octet)
    | NotConfiguring

  datatype Outcome =
    | Done(actions: seq<Action>, ignored: Option<IgnoreReason>)
    | Failed(error: EncodeError)

  datatype Step = Step(machine: Lcp, outcome: Outcome)

  const QUIET := Done([], None)

  function Ignore(m: Lcp, reason: IgnoreReason): Step { Step(m, Done([], Some(reason))) }

  function New(options: seq<ConfigOption>, settings: Settings): Lcp {
    Lcp(Closed, settings, options, 0, 0, 0, 0, None, None, None)
  }

  function DecrementOrZero(x: Octet): Octet { if x == 0 then 0 else x - 1 }

  function After(now: Millis, interval: Millis): Millis {
    if now + interval >= 0x1_0000_0000_0000_0000 then 0xffff_ffff_ffff_ffff else now + interval
  }

  /** Packets around one that may turn out too large to encode. */
  function Sending(before: seq<Action>, packet: Packet, behind: seq<Action>): Outcome {
    match EncodePacket(packet)
    case Err(e) => Failed(e)
    case Ok(_) => Done(before + [SendPacket(packet)] + behind, None)
  }

  function FreshIdentifier(m: Lcp): Octet { (m.nextIdentifier + 1) % 0x100 }

  function Request(m: Lcp): Packet {
    Packet(CONFIGURE_REQUEST, m.requestIdentifier, EncodeOptions(m.options))
  }

  function TerminateRequest(m: Lcp): Packet { Packet(TERMINATE_REQUEST, m.terminateIdentifier, []) }

  function Restarted(m: Lcp, now: Millis): Option<Millis> { Some(After(now, m.settings.restartIntervalMs)) }

  function SendNewRequest(m: Lcp, now: Millis, reset: bool): Lcp {
    m.(acknowledgedMagic := None,
       nextIdentifier := FreshIdentifier(m),
       requestIdentifier := FreshIdentifier(m),
       restartRemaining := DecrementOrZero(if reset then m.settings.maxConfigure else m.restartRemaining),
       deadline := Restarted(m, now))
  }

  /** Everything that belongs to a connection is dropped. */
  function Cleared(m: Lcp, state: State): Lcp {
    m.(state := state, deadline := None, restartRemaining := 0, peer := None, acknowledgedMagic := None)
  }

  function DownIfOpened(m: Lcp): seq<Action> { if m.state == Opened then [ThisLayerDown] else [] }

  function Open(m: Lcp, now: Millis): Step {
    if m.state == Opened || m.state == Closing then Step(m, QUIET)
    else
      var next := SendNewRequest(m.(state := RequestSent, peer := None, acknowledgedMagic := None), now, true);
      Step(next, Sending([], Request(next), []))
  }

  function Close(m: Lcp, now: Millis): Step {
    if m.state == Closing then Step(m, QUIET)
    else if m.state == Closed || m.state == Stopped then Step(Cleared(m, Closed), QUIET)
    else
      var next := m.(state := Closing, peer := None, acknowledgedMagic := None,
                     nextIdentifier := FreshIdentifier(m), terminateIdentifier := FreshIdentifier(m),
                     restartRemaining := DecrementOrZero(m.settings.maxTerminate), deadline := Restarted(m, now));
      Step(next, Sending(DownIfOpened(m), TerminateRequest(next), []))
  }

  function LowerDown(m: Lcp): Step { Step(Cleared(m, Closed), Done(DownIfOpened(m), None)) }

  function Clip(data: Bytes, limit: nat): Bytes { if |data| <= limit then data else data[..limit] }

  function PeerOrDefault(m: Lcp): PeerConfiguration { if m.peer.Some? then m.peer.value else DEFAULT_PEER }

  function RejectProtocol(m: Lcp, protocol: Word16, information: Bytes): Step {
    if m.state != Opened then Ignore(m, NotConfiguring)
    else
      var mru := Max(PeerOrDefault(m).transmitMru, 6);
      var data := BigEndian16(protocol) + Clip(information, mru - 6);
      Step(m.(nextIdentifier := FreshIdentifier(m)), Sending([], Packet(PROTOCOL_REJECT, FreshIdentifier(m), data), []))
  }

  function PollTimeout(m: Lcp, now: Millis): Step {
    if m.deadline.None? || now < m.deadline.value then Step(m, QUIET)
    else if m.state == Closing then
      if m.restartRemaining == 0 then
        Step(m.(state := Closed, deadline := None, peer := None), Done([ThisLayerFinished], None))
      else
        var next := m.(restartRemaining := m.restartRemaining - 1, deadline := Restarted(m, now));
        Step(next, Sending([], TerminateRequest(next), []))
    else if !Negotiating(m.state) || m.state == Opened then Step(m.(deadline := None), QUIET)
    else if m.restartRemaining == 0 then
      Step(m.(state := Stopped, deadline := None), Done([ThisLayerFinished], None))
    else
      var next := m.(restartRemaining := m.restartRemaining - 1,
                     state := if m.state == AckReceived then RequestSent else m.state,
                     deadline := Restarted(m, now));
      Step(next, Sending([], Request(next), []))
  }

  function AnswerTo(packet: Packet, evaluation: Evaluation): Packet {
    match evaluation
    case Acked(_) => Packet(CONFIGURE_ACK, packet.identifier, packet.data)
    case Naked(suggestions) => Packet(CONFIGURE_NAK, packet.identifier, EncodeOptions(suggestions))
    case Rejected(refused) => Packet(CONFIGURE_REJECT, packet.identifier, EncodeOptions(refused))
  }

  function ReceiveConfigureRequest(m: Lcp, packet: Packet, now: Millis, policy: Policy): Step
    requires Negotiating(m.state)
  {
    match ParseOptions(packet.data)
    case Err(e) => Ignore(m, MalformedOptions(e))
    case Ok(options) =>
      var evaluation := Evaluate(options, policy, FirstMagic(m.options));
      var answer := AnswerTo(packet, evaluation);
      if EncodePacket(answer).Err? then Step(m, Failed(EncodePacket(answer).error))
      else
        var good := evaluation.Acked?;
        var told := if good then m.(peer := Some(evaluation.configuration)) else m;
        match m.state
        case Opened =>
          var next := SendNewRequest(told, now, true);
          (match EncodePacket(Request(next))
           case Err(e) => Step(next, Failed(e))
           case Ok(_) =>
             Step(next.(state := if good then AckSent else RequestSent),
                  Done([ThisLayerDown, SendPacket(Request(next)), SendPacket(answer)], None)))
        case AckReceived =>
          if good then
            Step(told.(state := Opened, deadline := None),
                 Done([SendPacket(answer), ThisLayerUp(evaluation.configuration)], None))
          else Step(told, Done([SendPacket(answer)], None))
        case _ =>
          Step(told.(state := if good then AckSent else RequestSent), Done([SendPacket(answer)], None))
  }

  predicate Acknowledges(packet: Packet, m: Lcp) {
    && packet.code == CONFIGURE_ACK
    && packet.identifier == m.requestIdentifier
    && packet.data == EncodeOptions(m.options)
  }

  function ReceiveConfigureAck(m: Lcp, packet: Packet, now: Millis): Step
    requires Negotiating(m.state)
  {
    if !Acknowledges(packet, m) then Ignore(m, InvalidConfigureResponse)
    else
      var known := m.(acknowledgedMagic := FirstMagic(m.options));
      match m.state
      case RequestSent => Step(known.(state := AckReceived, restartRemaining := m.settings.maxConfigure), QUIET)
      case AckSent =>
        Step(known.(state := Opened, restartRemaining := m.settings.maxConfigure, deadline := None),
             Done([ThisLayerUp(PeerOrDefault(m))], None))
      case _ =>
        var next := SendNewRequest(known.(state := RequestSent), now, false);
        Step(next, Sending(DownIfOpened(m), Request(next), []))
  }

  function AfterNegativeResponse(m: Lcp, options: seq<ConfigOption>, now: Millis): Step
    requires Negotiating(m.state)
  {
    var next := SendNewRequest(
      m.(options := options, state := if m.state == AckSent then AckSent else RequestSent),
      now, m.state == RequestSent || m.state == AckSent);
    Step(next, Sending(DownIfOpened(m), Request(next), []))
  }

  function ReceiveConfigureNak(m: Lcp, packet: Packet, now: Millis): Step
    requires Negotiating(m.state)
  {
    if packet.identifier != m.requestIdentifier then Ignore(m, InvalidConfigureResponse)
    else
      match ParseOptions(packet.data)
      case Err(e) => Ignore(m, MalformedOptions(e))
      case Ok(suggestions) =>
        if HasRepeatedTypes(suggestions) then Ignore(m, InvalidConfigureResponse)
        else AfterNegativeResponse(m, ApplyNak(m.options, suggestions), now)
  }

  function ReceiveConfigureReject(m: Lcp, packet: Packet, now: Millis): Step
    requires Negotiating(m.state)
  {
    if packet.identifier != m.requestIdentifier then Ignore(m, InvalidConfigureResponse)
    else
      match ParseOptions(packet.data)
      case Err(e) => Ignore(m, MalformedOptions(e))
      case Ok(refused) =>
        match ApplyReject(m.options, refused)
        case None => Ignore(m, InvalidConfigureResponse)
        case Some(kept) => AfterNegativeResponse(m, kept, now)
  }

  function ReceiveTerminateRequest(m: Lcp, packet: Packet): Step {
    var acknowledgment := Packet(TERMINATE_ACK, packet.identifier, []);
    if m.state == Closing then Step(m, Done([SendPacket(acknowledgment)], None))
    else Step(Cleared(m, Stopped), Done([SendPacket(acknowledgment)] + DownIfOpened(m), None))
  }

  function ReceiveTerminateAck(m: Lcp, packet: Packet): Step {
    if m.state != Closing then Step(m, QUIET)
    else if packet.identifier != m.terminateIdentifier then Ignore(m, InvalidTerminateResponse)
    else Step(Cleared(m, Closed), Done([ThisLayerFinished], None))
  }

  function ReceiveEchoRequest(m: Lcp, packet: Packet): Step {
    if m.state != Opened then Ignore(m, NotConfiguring)
    else if |packet.data| < 4 then Ignore(m, MalformedEchoRequest)
    else
      var actual := ReadBigEndian32(packet.data[..4]);
      var peer := PeerOrDefault(m);
      var expected := if peer.magicNumber.Some? then peer.magicNumber.value else 0;
      if actual != expected then Ignore(m, UnexpectedMagicNumber(expected, actual))
      else
        var own := if m.acknowledgedMagic.Some? then m.acknowledgedMagic.value else 0;
        var data := BigEndian32(own) + Clip(packet.data[4..], Max(peer.transmitMru, 8) - 8);
        Step(m, Sending([], Packet(ECHO_REPLY, packet.identifier, data), []))
  }

  /** A Code-Reject carries the rejected packet, header included and clipped to the peer's MRU. */
  function ReceiveUnknownCode(m: Lcp, packet: Packet): Step {
    var limit := Max(PeerOrDefault(m).transmitMru, 8) - HEADER_LENGTH;
    var whole := [packet.code, packet.identifier] + BigEndian16((HEADER_LENGTH + |packet.data|) % 0x1_0000)
        + packet.data;
    Step(m.(nextIdentifier := FreshIdentifier(m)),
         Sending([], Packet(CODE_REJECT, FreshIdentifier(m), Clip(whole, limit)), []))
  }

  function ReceivePacket(m: Lcp, packet: Packet, now: Millis, policy: Policy): Step {
    var code := packet.code;
    if m.state == Closed || m.state == Stopped then Ignore(m, NotConfiguring)
    else if m.state == Closing && KnownCode(code)
            && (code < TERMINATE_REQUEST || code > PROTOCOL_REJECT)
    then Ignore(m, NotConfiguring)
    else if code == CONFIGURE_REQUEST then ReceiveConfigureRequest(m, packet, now, policy)
    else if code == CONFIGURE_ACK then ReceiveConfigureAck(m, packet, now)
    else if code == CONFIGURE_NAK then ReceiveConfigureNak(m, packet, now)
    else if code == CONFIGURE_REJECT then ReceiveConfigureReject(m, packet, now)
    else if code == TERMINATE_REQUEST then ReceiveTerminateRequest(m, packet)
    else if code == TERMINATE_ACK then ReceiveTerminateAck(m, packet)
    else if code == ECHO_REQUEST then ReceiveEchoRequest(m, packet)
    else if code == ECHO_REPLY || code == DISCARD_REQUEST then
      if m.state == Opened then Step(m, QUIET) else Ignore(m, NotConfiguring)
    else if !KnownCode(code) then ReceiveUnknownCode(m, packet)
    else Ignore(m, UnsupportedCode(code))
  }

  function Receive(m: Lcp, input: Bytes, now: Millis, policy: Policy): Step {
    if m.state == Closed || m.state == Stopped then Ignore(m, NotConfiguring)
    else
      match ParsePacket(input)
      case Err(e) => Ignore(m, MalformedPacket(e))
      case Ok(packet) => ReceivePacket(m, packet, now, policy)
  }
}
