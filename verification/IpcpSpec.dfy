/** The IPCP client on values: the state after every call and what the call returns. `IpcpClient` is the client with
    fields that refines it. */
module IpcpSpec {
  import opened Octets
  import opened LcpCodec
  import opened Rfc1661
  import opened LcpPolicy
  import opened IpcpPolicy
  import LcpSpec

  type Millis = LcpSpec.Millis

  /** The client has no Closing state. */
  type ClientState = s: State | s != Closing witness Closed

  datatype Settings = Settings(
    restartIntervalMs: Millis, maxConfigure: Octet, requestedLocal: Address, preferredPeer: Address)

  datatype Addresses = Addresses(local: Address, peer: Address, primary: Address, secondary: Address)

  datatype Action = Send(octets: Bytes) | LayerUp(addresses: Addresses) | LayerDown | LayerFinished

  datatype IgnoreReason =
    | NotConfiguring
    | MalformedPacket(parseError: ParseError)
    | MalformedOptions(optionError: OptionParseError)
    | InvalidConfigureResponse
    | UnsupportedCode(code: Octet)

  datatype Transition = Transition(actions: seq<Action>, ignored: Option<IgnoreReason>)

  const QUIET := Transition([], None)

  function Ignored(reason: IgnoreReason): Transition { Transition([], Some(reason)) }

  const INVALID := Ignored(InvalidConfigureResponse)

  function AddressesOf(c: Config): Addresses { Addresses(c.local, c.peer, c.primary, c.secondary) }

  function Wire(p: Packet): Bytes {
    if EncodePacket(p).Ok? then EncodePacket(p).value else []
  }

  function AnswerTo(packet: Packet, evaluation: PeerEvaluation): Packet {
    match evaluation
    case AckPeer(_) => Packet(CONFIGURE_ACK, packet.identifier, packet.data)
    case NakPeer(suggestions) => Packet(CONFIGURE_NAK, packet.identifier, EncodeOptions(suggestions))
    case RejectPeer(refused) => Packet(CONFIGURE_REJECT, packet.identifier, EncodeOptions(refused))
  }

  datatype Ipcp = Ipcp(
    settings: Settings,
    state: ClientState,
    config: Config,
    requestIdentifier: Octet,
    nextIdentifier: Octet,
    restartRemaining: Octet,
    deadline: Option<Millis>)

  datatype Step = Step(client: Ipcp, transition: Transition)

  function Ignore(c: Ipcp, reason: IgnoreReason): Step { Step(c, Ignored(reason)) }

  function Unnegotiated(s: Settings): Config { Fresh(s.requestedLocal, s.preferredPeer) }

  function Request(c: Ipcp): Packet {
    Packet(CONFIGURE_REQUEST, c.requestIdentifier, EncodeOptions(LocalOptions(c.config)))
  }

  function Restarted(c: Ipcp, now: Millis): Option<Millis> { Some(LcpSpec.After(now, c.settings.restartIntervalMs)) }

  function SendNewRequest(c: Ipcp, now: Millis, reset: bool): Ipcp {
    var identifier := (c.nextIdentifier + 1) % 0x100;
    c.(nextIdentifier := identifier,
       requestIdentifier := identifier,
       restartRemaining := LcpSpec.DecrementOrZero(if reset then c.settings.maxConfigure else c.restartRemaining),
       deadline := Restarted(c, now))
  }

  function DownIfOpened(c: Ipcp): seq<Action> { if c.state == Opened then [LayerDown] else [] }

  /** Another state, entered with a new request. */
  function Renegotiate(c: Ipcp, now: Millis, reset: bool, state: ClientState): Step {
    var next := SendNewRequest(c.(state := state), now, reset);
    Step(next, Transition(DownIfOpened(c) + [Send(Wire(Request(next)))], None))
  }

  function Open(c: Ipcp, now: Millis): Step {
    if c.state == Opened then Step(c, QUIET)
    else
      var next := SendNewRequest(c.(state := RequestSent, config := Unnegotiated(c.settings)), now, true);
      Step(next, Transition([Send(Wire(Request(next)))], None))
  }

  function LowerDown(c: Ipcp): Step {
    Step(c.(state := Closed, config := Unnegotiated(c.settings), deadline := None, restartRemaining := 0),
         Transition(DownIfOpened(c), None))
  }

  function PollTimeout(c: Ipcp, now: Millis): Step {
    if c.deadline.None? || now < c.deadline.value then Step(c, QUIET)
    else if !Negotiating(c.state) || c.state == Opened then Step(c.(deadline := None), QUIET)
    else if c.restartRemaining == 0 then
      Step(c.(state := Stopped, deadline := None), Transition([LayerFinished], None))
    else
      var next := c.(restartRemaining := c.restartRemaining - 1,
                     state := if c.state == AckReceived then RequestSent else c.state,
                     deadline := Restarted(c, now));
      Step(next, Transition([Send(Wire(Request(next)))], None))
  }

  /** A request that was judged, and the answer to it. */
  function Answer(c: Ipcp, good: bool, answer: Action, now: Millis): Step
    requires Negotiating(c.state)
  {
    if c.state == Opened then
      var s := Renegotiate(c, now, true, if good then AckSent else RequestSent);
      Step(s.client, Transition(s.transition.actions + [answer], None))
    else if c.state == AckReceived && good then
      Step(c.(state := Opened, deadline := None), Transition([answer, LayerUp(AddressesOf(c.config))], None))
    else if c.state == AckReceived then Step(c, Transition([answer], None))
    else Step(c.(state := if good then AckSent else RequestSent), Transition([answer], None))
  }

  /** The address of the peer is taken from a request that is acknowledged. */
  function Told(c: Ipcp, evaluation: PeerEvaluation): Ipcp {
    if evaluation.AckPeer? && evaluation.address.Some? then c.(config := c.config.(peer := evaluation.address.value))
    else c
  }

  function ReceiveConfigureRequest(c: Ipcp, packet: Packet, now: Millis): Step
    requires Negotiating(c.state)
  {
    match ParseOptions(packet.data)
    case Err(e) => Ignore(c, MalformedOptions(e))
    case Ok(options) =>
      var evaluation := EvaluatePeer(options, c.settings.preferredPeer);
      Answer(Told(c, evaluation), evaluation.AckPeer?, Send(Wire(AnswerTo(packet, evaluation))), now)
  }

  function Acknowledged(c: Ipcp, now: Millis): Step
    requires Negotiating(c.state)
  {
    if c.state == RequestSent then
      Step(c.(state := AckReceived, restartRemaining := c.settings.maxConfigure), QUIET)
    else if c.state == AckSent then
      Step(c.(state := Opened, restartRemaining := c.settings.maxConfigure, deadline := None),
           Transition([LayerUp(AddressesOf(c.config))], None))
    else Renegotiate(c, now, false, RequestSent)
  }

  function ReceiveConfigureAck(c: Ipcp, packet: Packet, now: Millis): Step
    requires Negotiating(c.state)
  {
    if packet != Request(c).(code := CONFIGURE_ACK) then Step(c, INVALID) else Acknowledged(c, now)
  }

  function AfterNegativeResponse(c: Ipcp, now: Millis): Step
    requires Negotiating(c.state)
  {
    Renegotiate(c, now, c.state == RequestSent || c.state == AckSent,
                if c.state == AckSent then AckSent else RequestSent)
  }

  /** The options of a Nak or a Reject, one by one; what was taken stays taken where one of them is not valid. */
  function ReceiveNegativeResponse(step: (Config, ConfigOption) -> Option<Config>, c: Ipcp, packet: Packet, now: Millis)
    : Step
    requires Negotiating(c.state)
  {
    if packet.identifier != c.requestIdentifier then Step(c, INVALID)
    else
      match ParseOptions(packet.data)
      case Err(e) => Ignore(c, MalformedOptions(e))
      case Ok(options) =>
        if options == [] || HasRepeatedTypes(options) then Step(c, INVALID)
        else
          var (config, valid) := Each(step, c.config, options);
          var next := c.(config := config);
          if valid then AfterNegativeResponse(next, now) else Step(next, INVALID)
  }

  function ReceivePacket(c: Ipcp, packet: Packet, now: Millis): Step
    requires Negotiating(c.state)
  {
    if packet.code == CONFIGURE_REQUEST then ReceiveConfigureRequest(c, packet, now)
    else if packet.code == CONFIGURE_ACK then ReceiveConfigureAck(c, packet, now)
    else if packet.code == CONFIGURE_NAK then ReceiveNegativeResponse(Take, c, packet, now)
    else if packet.code == CONFIGURE_REJECT then ReceiveNegativeResponse(Drop, c, packet, now)
    else Ignore(c, UnsupportedCode(packet.code))
  }

  function Receive(c: Ipcp, input: Bytes, now: Millis): Step {
    if !Negotiating(c.state) then Ignore(c, NotConfiguring)
    else
      match ParsePacket(input)
      case Err(e) => Ignore(c, MalformedPacket(e))
      case Ok(packet) => ReceivePacket(c, packet, now)
  }
}
