/** The IPCP client with the fields it updates in place, as an instance of the automaton of
    RFC 1661. */
module IpcpClient {
  import opened Octets
  import opened LcpCodec
  import opened LcpPolicy
  import opened Rfc1661
  import opened IpcpPolicy
  import opened IpcpSpec
  import LcpMachine
  import LcpRuns
  import LcpSpec

  /** The automaton's name for an action, by the code octet of what is sent. */
  function ActOf(a: Action): Act {
    match a
    case LayerUp(_) => Tlu
    case LayerDown => Tld
    case LayerFinished => Tlf
    case Send(octets) =>
      if octets != [] && octets[0] == CONFIGURE_REQUEST then Scr
      else if octets != [] && octets[0] == CONFIGURE_ACK then Sca
      else Scn
  }

  function ActsOf(actions: seq<Action>): seq<Act> {
    seq(|actions|, k requires 0 <= k < |actions| => ActOf(actions[k]))
  }

  lemma AnswerFits(packet: Packet, preferred: Address)
    requires |packet.data| <= 0xffff - HEADER_LENGTH && WellFormed(packet.data)
    ensures EncodePacket(AnswerTo(packet, EvaluatePeer(ParseOptions(packet.data).value, preferred))).Ok?
  {
    var options := ParseOptions(packet.data).value;
    ParsedOptionsEncode(packet.data);
    LcpRuns.RefusedLength(options, AddressVerdicts(options, preferred));
    EncodedOptionsLength([AddressOption(IP_ADDRESS, preferred)]);
  }

  lemma RequestFits(c: Config)
    ensures |EncodeOptions(LocalOptions(c))| <= 0xffff - HEADER_LENGTH
  {
    EncodedOptionsLength(LocalOptions(c));
  }

  /** The last Configure-Request among some actions. */
  function LastRequest(actions: seq<Action>): Option<Bytes> {
    if actions == [] then None
    else if ActOf(actions[|actions| - 1]) == Scr then Some(actions[|actions| - 1].octets)
    else LastRequest(actions[..|actions| - 1])
  }

  lemma {:induction false} LastRequestAppend(a: seq<Action>, b: seq<Action>)
    ensures LastRequest(a + b) == if LastRequest(b).Some? then LastRequest(b) else LastRequest(a)
  {
    if b == [] {
      assert a + b == a;
    } else if ActOf(b[|b| - 1]) != Scr {
      LastRequestAppend(a, b[..|b| - 1]);
      assert (a + b)[..|a + b| - 1] == a + b[..|b| - 1];
    }
  }

  lemma NoRequest(a: Action, b: Action)
    ensures LastRequest([]) == None
    ensures ActOf(a) != Scr ==> LastRequest([a]) == None
    ensures ActOf(a) != Scr && ActOf(b) != Scr ==> LastRequest([a, b]) == None
  {
    assert [a][..0] == [] && [a, b][..1] == [a];
  }

  lemma RequestLast(before: seq<Action>, octets: Bytes)
    requires ActOf(Send(octets)) == Scr
    ensures LastRequest(before + [Send(octets)]) == Some(octets)
  {
    assert (before + [Send(octets)])[|before|] == Send(octets);
  }

  lemma OneRequest(octets: Bytes)
    requires ActOf(Send(octets)) == Scr
    ensures LastRequest([Send(octets)]) == Some(octets) && ActsOf([Send(octets)]) == [Scr]
  {
  }

  lemma RequestBeforeAnswer(request: Bytes, response: Bytes)
    requires ActOf(Send(request)) == Scr && ActOf(Send(response)) != Scr
    ensures [LayerDown, Send(request)] + [Send(response)] == [LayerDown, Send(request), Send(response)]
    ensures LastRequest([LayerDown, Send(request), Send(response)]) == Some(request)
  {
    NoRequest(Send(response), LayerDown);
    RequestLast([LayerDown], request);
    assert [LayerDown] + [Send(request)] == [LayerDown, Send(request)];
    LastRequestAppend([LayerDown, Send(request)], [Send(response)]);
  }

  lemma EachNext(step: (Config, ConfigOption) -> Option<Config>, c: Config, options: seq<ConfigOption>, n: nat)
    requires n <= |options|
    ensures Each(step, c, options[n..]) == if n == |options| then (c, true)
                                           else match step(c, options[n])
                                                case None => (c, false)
                                                case Some(next) => Each(step, next, options[n + 1..])
  {
    if n < |options| {
      assert options[n..][1..] == options[n + 1..];
    }
  }

  class Client {
    const settings: Settings
    var state: ClientState
    var localAddress: Address
    var peerAddress: Address
    var primaryDns: Address
    var secondaryDns: Address
    var requestAddress: bool
    var requestPrimaryDns: bool
    var requestSecondaryDns: bool
    var requestIdentifier: Octet
    var nextIdentifier: Octet
    var restartRemaining: Octet
    var restartDeadlineMs: Option<Millis>

    /** The events of a run so far, and all the actions they caused, in order. */
    ghost var handled: seq<Event>
    ghost var history: seq<Action>

    function Negotiated(): Config
      reads this
    {
      Config(localAddress, peerAddress, primaryDns, secondaryDns,
             requestAddress, requestPrimaryDns, requestSecondaryDns)
    }

    function Automaton(): View
      reads this
    {
      View(state, restartRemaining, restartDeadlineMs.Some?)
    }

    function Request(): Packet
      reads this
    {
      Packet(CONFIGURE_REQUEST, requestIdentifier, EncodeOptions(LocalOptions(Negotiated())))
    }

    /** The client as a value. */
    function Now(): Ipcp
      reads this
    {
      Ipcp(settings, state, Negotiated(), requestIdentifier, nextIdentifier, restartRemaining, restartDeadlineMs)
    }

    /** A call sends its last request as the request stands behind it, or none and keeps the identifier. */
    ghost predicate TellsRequest(before: Octet, actions: seq<Action>)
      reads this
    {
      match LastRequest(actions)
      case Some(octets) => octets == Wire(Request())
      case None => requestIdentifier == before
    }

    constructor (settings: Settings)
      ensures this.settings == settings && Automaton() == View(Closed, 0, false)
      ensures Negotiated() == Fresh(settings.requestedLocal, settings.preferredPeer)
      ensures handled == [] && history == []
      ensures Now() == Ipcp(settings, Closed, Config(settings.requestedLocal, settings.preferredPeer, [0, 0, 0, 0],
                                                     [0, 0, 0, 0], true, true, true), 0, 0, 0, None)
    {
      this.settings := settings;
      state := Closed;
      localAddress, peerAddress := settings.requestedLocal, settings.preferredPeer;
      primaryDns, secondaryDns := UNSPECIFIED, UNSPECIFIED;
      requestAddress, requestPrimaryDns, requestSecondaryDns := true, true, true;
      requestIdentifier, nextIdentifier, restartRemaining, restartDeadlineMs := 0, 0, 0, None;
      handled, history := [], [];
    }

    method EncodeRequest() returns (octets: Bytes)
      ensures EncodePacket(Request()).Ok? && octets == Wire(Request()) && ActOf(Send(octets)) == Scr
    {
      RequestFits(Negotiated());
      var encoded := LcpMachine.Encode(Request());
      octets := encoded.value;
    }

    method SendNewRequest(now: Millis, reset: bool) returns (octets: Bytes)
      modifies this`requestIdentifier, this`nextIdentifier, this`restartRemaining, this`restartDeadlineMs
      ensures nextIdentifier == requestIdentifier == (old(nextIdentifier) + 1) % 0x100
      ensures restartRemaining
              == LcpSpec.DecrementOrZero(if reset then settings.maxConfigure else old(restartRemaining))
      ensures restartDeadlineMs == Some(LcpSpec.After(now, settings.restartIntervalMs))
      ensures EncodePacket(Request()).Ok? && octets == Wire(Request()) && ActOf(Send(octets)) == Scr
      ensures Now() == IpcpSpec.SendNewRequest(old(Now()), now, reset)
    {
      nextIdentifier := (nextIdentifier + 1) % 0x100;
      requestIdentifier := nextIdentifier;
      restartRemaining := LcpSpec.DecrementOrZero(if reset then settings.maxConfigure else restartRemaining);
      restartDeadlineMs := Some(LcpSpec.After(now, settings.restartIntervalMs));
      octets := EncodeRequest();
    }

    method ResetAddresses()
      modifies this`localAddress, this`peerAddress, this`primaryDns, this`secondaryDns,
               this`requestAddress, this`requestPrimaryDns, this`requestSecondaryDns
      ensures Negotiated() == Fresh(settings.requestedLocal, settings.preferredPeer)
    {
      localAddress, peerAddress := settings.requestedLocal, settings.preferredPeer;
      primaryDns, secondaryDns := UNSPECIFIED, UNSPECIFIED;
      requestAddress, requestPrimaryDns, requestSecondaryDns := true, true, true;
    }

    method Open(now: Millis) returns (r: Transition)
      modifies this
      ensures if old(state) == Opened then r == QUIET && unchanged(this)
              else
                && r == Transition([Send(Wire(Request()))], None)
                && Automaton() == View(RequestSent, LcpSpec.DecrementOrZero(settings.maxConfigure), true)
                && Negotiated() == Fresh(settings.requestedLocal, settings.preferredPeer)
      ensures TellsRequest(old(requestIdentifier), r.actions)
      ensures old(state) != Opened ==> LastRequest(r.actions).Some?
      ensures Step(Now(), r) == IpcpSpec.Open(old(Now()), now)
    {
      NoRequest(LayerDown, LayerDown);
      if state == Opened {
        return QUIET;
      }
      state := RequestSent;
      ResetAddresses();
      var packet := SendNewRequest(now, true);
      r := Transition([Send(packet)], None);
      OneRequest(packet);
    }

    method LowerDown() returns (r: Transition)
      modifies this
      ensures r == Transition(if old(state) == Opened then [LayerDown] else [], None)
      ensures Automaton() == View(Closed, 0, false)
      ensures Negotiated() == Fresh(settings.requestedLocal, settings.preferredPeer)
      ensures TellsRequest(old(requestIdentifier), r.actions)
      ensures Step(Now(), r) == IpcpSpec.LowerDown(old(Now()))
    {
      NoRequest(LayerDown, LayerDown);
      var wasOpen := state == Opened;
      state := Closed;
      ResetAddresses();
      restartDeadlineMs := None;
      restartRemaining := 0;
      r := Transition(if wasOpen then [LayerDown] else [], None);
    }

    /** An expired timer with the counter above zero: the request as it stands goes out again. */
    method Retransmit(now: Millis) returns (r: Transition)
      requires Negotiating(state) && state != Opened && restartRemaining > 0
      modifies this`state, this`restartRemaining, this`restartDeadlineMs
      ensures r == Transition([Send(Wire(Request()))], None)
      ensures Follows(old(Automaton()), TimeoutPlus, Automaton(), ActsOf(r.actions), settings.maxConfigure)
      ensures LastRequest(r.actions) == Some(Wire(Request()))
      ensures Now() == old(Now()).(restartRemaining := restartRemaining, state := state,
                                   deadline := IpcpSpec.Restarted(old(Now()), now))
      ensures state == (if old(state) == AckReceived then RequestSent else old(state))
      ensures restartRemaining == old(restartRemaining) - 1
    {
      restartRemaining := restartRemaining - 1;
      if state == AckReceived {
        state := RequestSent;
      }
      restartDeadlineMs := Some(LcpSpec.After(now, settings.restartIntervalMs));
      var packet := EncodeRequest();
      r := Transition([Send(packet)], None);
      OneRequest(packet);
    }

    method PollTimeout(now: Millis) returns (r: Transition)
      modifies this`state, this`restartRemaining, this`restartDeadlineMs
      ensures if old(restartDeadlineMs).None? || now < old(restartDeadlineMs).value then r == QUIET && unchanged(this)
              else if !Negotiating(old(state)) || old(state) == Opened then
                r == QUIET && Automaton() == old(Automaton()).(running := false)
              else
                && Follows(old(Automaton()), if old(restartRemaining) == 0 then TimeoutMinus else TimeoutPlus,
                           Automaton(), ActsOf(r.actions), settings.maxConfigure)
                && r == Transition([if old(restartRemaining) == 0 then LayerFinished else Send(Wire(Request()))], None)
      ensures TellsRequest(old(requestIdentifier), r.actions)
      ensures Step(Now(), r) == IpcpSpec.PollTimeout(old(Now()), now)
    {
      NoRequest(LayerFinished, LayerFinished);
      if restartDeadlineMs.None? || now < restartDeadlineMs.value {
        return QUIET;
      }
      if state != RequestSent && state != AckReceived && state != AckSent {
        restartDeadlineMs := None;
        return QUIET;
      }
      if restartRemaining == 0 {
        state := Stopped;
        restartDeadlineMs := None;
        r := Transition([LayerFinished], None);
        assert ActsOf(r.actions) == [Tlf];
        return;
      }
      r := Retransmit(now);
    }

    /** Leaving a negotiated state: the layer goes down if it was up, and a new request goes out. */
    method Renegotiate(now: Millis, reset: bool, next: ClientState) returns (actions: seq<Action>)
      modifies this`state, this`requestIdentifier, this`nextIdentifier, this`restartRemaining, this`restartDeadlineMs
      ensures actions == (if old(state) == Opened then [LayerDown] else []) + [Send(Wire(Request()))]
      ensures ActsOf(actions) == if old(state) == Opened then [Tld, Scr] else [Scr]
      ensures ActOf(Send(Wire(Request()))) == Scr && LastRequest(actions) == Some(Wire(Request()))
      ensures Automaton() == View(
                next, LcpSpec.DecrementOrZero(if reset then settings.maxConfigure else old(restartRemaining)), true)
      ensures Now() == IpcpSpec.SendNewRequest(old(Now()).(state := next), now, reset)
    {
      var down: seq<Action> := if state == Opened then [LayerDown] else [];
      state := next;
      var request := SendNewRequest(now, reset);
      actions := down + [Send(request)];
      RequestLast(down, request);
      assert ActsOf(actions) == if old(state) == Opened then [Tld, Scr] else [Scr];
    }

    method AnswerOpened(acceptable: bool, response: Bytes, now: Millis) returns (r: Transition)
      requires state == Opened && ActOf(Send(response)) == if acceptable then Sca else Scn
      modifies this`state, this`requestIdentifier, this`nextIdentifier, this`restartRemaining, this`restartDeadlineMs
      ensures state != Opened && r == Transition([LayerDown, Send(Wire(Request())), Send(response)], None)
      ensures Follows(old(Automaton()), if acceptable then RcrPlus else RcrMinus, Automaton(),
                      ActsOf(r.actions), settings.maxConfigure)
      ensures LastRequest(r.actions) == Some(Wire(Request()))
      ensures Step(Now(), r) == IpcpSpec.Answer(old(Now()), acceptable, Send(response), now)
    {
      var actions := Renegotiate(now, true, if acceptable then AckSent else RequestSent);
      RequestBeforeAnswer(Wire(Request()), response);
      r := Transition(actions + [Send(response)], None);
      assert ActsOf(r.actions) == ActsOf(actions) + [ActOf(Send(response))];
    }

    method AnswerWaiting(acceptable: bool, response: Bytes, ghost now: Millis) returns (r: Transition)
      requires Negotiating(state) && state != Opened && ActOf(Send(response)) == if acceptable then Sca else Scn
      modifies this`state, this`restartDeadlineMs
      ensures r == Transition(if state == Opened then [Send(response), LayerUp(AddressesOf(Negotiated()))]
                              else [Send(response)], None)
      ensures Follows(old(Automaton()), if acceptable then RcrPlus else RcrMinus, Automaton(),
                      ActsOf(r.actions), settings.maxConfigure)
      ensures LastRequest(r.actions) == None
      ensures Step(Now(), r) == IpcpSpec.Answer(old(Now()), acceptable, Send(response), now)
    {
      NoRequest(Send(response), LayerUp(AddressesOf(Negotiated())));
      if state == AckReceived && acceptable {
        state := Opened;
        restartDeadlineMs := None;
        r := Transition([Send(response), LayerUp(AddressesOf(Negotiated()))], None);
        assert ActsOf(r.actions) == [Sca, Tlu];
      } else {
        if state != AckReceived {
          state := if acceptable then AckSent else RequestSent;
        }
        r := Transition([Send(response)], None);
        assert ActsOf(r.actions) == [ActOf(Send(response))];
      }
    }

    /** The answer with what the state adds to it. */
    method Answer(acceptable: bool, response: Bytes, now: Millis) returns (r: Transition)
      requires Negotiating(state) && ActOf(Send(response)) == if acceptable then Sca else Scn
      modifies this`state, this`requestIdentifier, this`nextIdentifier, this`restartRemaining, this`restartDeadlineMs
      ensures r == Transition(if old(state) == Opened then [LayerDown, Send(Wire(Request())), Send(response)]
                              else if state == Opened then [Send(response), LayerUp(AddressesOf(Negotiated()))]
                              else [Send(response)], None)
      ensures Follows(old(Automaton()), if acceptable then RcrPlus else RcrMinus, Automaton(),
                      ActsOf(r.actions), settings.maxConfigure)
      ensures TellsRequest(old(requestIdentifier), r.actions)
      ensures Step(Now(), r) == IpcpSpec.Answer(old(Now()), acceptable, Send(response), now)
    {
      if state == Opened {
        r := AnswerOpened(acceptable, response, now);
      } else {
        r := AnswerWaiting(acceptable, response, now);
      }
    }

    /** The answer to a request, and the peer's address if the answer is an Ack that names one. */
    method JudgeRequest(packet: Packet) returns (verdict: Result<(bool, Bytes), OptionParseError>)
      requires |packet.data| <= 0xffff - HEADER_LENGTH
      modifies this`peerAddress
      ensures match ParseOptions(packet.data)
              case Err(e) => verdict == Err(e) && unchanged(this)
              case Ok(options) =>
                var evaluation := EvaluatePeer(options, settings.preferredPeer);
                && EncodePacket(AnswerTo(packet, evaluation)).Ok?
                && verdict == Ok((evaluation.AckPeer?, Wire(AnswerTo(packet, evaluation))))
                && ActOf(Send(verdict.value.1)) == (if evaluation.AckPeer? then Sca else Scn)
                && Negotiated() == (if evaluation.AckPeer? && evaluation.address.Some?
                                    then old(Negotiated()).(peer := evaluation.address.value) else old(Negotiated()))
                && Now() == IpcpSpec.Told(old(Now()), evaluation)
    {
      var collected := CollectOptions(packet.data);
      if collected.Err? {
        return Err(collected.error);
      }
      var evaluation := EvaluatePeerRequest(collected.value, settings.preferredPeer);
      AnswerFits(packet, settings.preferredPeer);
      var response := LcpMachine.Encode(AnswerTo(packet, evaluation));
      if evaluation.AckPeer? && evaluation.address.Some? {
        peerAddress := evaluation.address.value;
      }
      return Ok((evaluation.AckPeer?, response.value));
    }

    method ReceiveConfigureRequest(packet: Packet, now: Millis) returns (r: Transition)
      requires Negotiating(state) && |packet.data| <= 0xffff - HEADER_LENGTH
      modifies this`state, this`peerAddress, this`requestIdentifier, this`nextIdentifier, this`restartRemaining,
               this`restartDeadlineMs
      ensures match ParseOptions(packet.data)
              case Err(e) => r == Ignored(MalformedOptions(e)) && unchanged(this)
              case Ok(options) =>
                var evaluation := EvaluatePeer(options, settings.preferredPeer);
                var response := Send(Wire(AnswerTo(packet, evaluation)));
                && EncodePacket(AnswerTo(packet, evaluation)).Ok?
                && r == Transition(if old(state) == Opened then [LayerDown, Send(Wire(Request())), response]
                                   else if state == Opened then [response, LayerUp(AddressesOf(Negotiated()))]
                                   else [response], None)
                && Follows(old(Automaton()), if evaluation.AckPeer? then RcrPlus else RcrMinus, Automaton(),
                           ActsOf(r.actions), settings.maxConfigure)
                && Negotiated() == if evaluation.AckPeer? && evaluation.address.Some?
                                   then old(Negotiated()).(peer := evaluation.address.value) else old(Negotiated())
      ensures TellsRequest(old(requestIdentifier), r.actions)
      ensures Step(Now(), r) == IpcpSpec.ReceiveConfigureRequest(old(Now()), packet, now)
    {
      var verdict := JudgeRequest(packet);
      if verdict.Err? {
        NoRequest(LayerDown, LayerDown);
        return Ignored(MalformedOptions(verdict.error));
      }
      var (acceptable, response) := verdict.value;
      r := Answer(acceptable, response, now);
    }

    method ReceiveConfigureAck(packet: Packet, now: Millis) returns (r: Transition)
      requires Negotiating(state)
      modifies this`state, this`requestIdentifier, this`nextIdentifier, this`restartRemaining, this`restartDeadlineMs
      ensures if packet != old(Packet(CONFIGURE_ACK, requestIdentifier, EncodeOptions(LocalOptions(Negotiated()))))
              then r == INVALID && unchanged(this)
              else
                && Follows(old(Automaton()), Rca, Automaton(), ActsOf(r.actions), settings.maxConfigure)
                && r == Transition(
                     if old(state) == RequestSent then []
                     else if old(state) == AckSent then [LayerUp(AddressesOf(Negotiated()))]
                     else (if old(state) == Opened then [LayerDown] else []) + [Send(Wire(Request()))], None)
      ensures TellsRequest(old(requestIdentifier), r.actions)
      ensures Step(Now(), r) == IpcpSpec.ReceiveConfigureAck(old(Now()), packet, now)
    {
      if packet != Packet(CONFIGURE_ACK, requestIdentifier, EncodeOptions(LocalOptions(Negotiated()))) {
        NoRequest(LayerDown, LayerDown);
        return INVALID;
      }
      r := Acknowledged(now);
    }

    /** The Ack that was waited for. */
    method AckAwaited(ghost now: Millis) returns (r: Transition)
      requires state == RequestSent || state == AckSent
      modifies this`state, this`restartRemaining, this`restartDeadlineMs
      ensures Follows(old(Automaton()), Rca, Automaton(), ActsOf(r.actions), settings.maxConfigure)
      ensures r == Transition(if old(state) == RequestSent then [] else [LayerUp(AddressesOf(Negotiated()))], None)
      ensures LastRequest(r.actions) == None
      ensures Step(Now(), r) == IpcpSpec.Acknowledged(old(Now()), now)
    {
      NoRequest(LayerUp(AddressesOf(Negotiated())), LayerDown);
      restartRemaining := settings.maxConfigure;
      if state == RequestSent {
        state := AckReceived;
        r := QUIET;
        assert ActsOf(r.actions) == [];
      } else {
        state := Opened;
        restartDeadlineMs := None;
        r := Transition([LayerUp(AddressesOf(Negotiated()))], None);
        assert ActsOf(r.actions) == [Tlu];
      }
    }

    /** A second Ack starts over. */
    method AckRepeated(now: Millis) returns (r: Transition)
      requires state == AckReceived || state == Opened
      modifies this`state, this`requestIdentifier, this`nextIdentifier, this`restartRemaining, this`restartDeadlineMs
      ensures Follows(old(Automaton()), Rca, Automaton(), ActsOf(r.actions), settings.maxConfigure)
      ensures r == Transition((if old(state) == Opened then [LayerDown] else []) + [Send(Wire(Request()))], None)
      ensures LastRequest(r.actions) == Some(Wire(Request()))
      ensures Step(Now(), r) == IpcpSpec.Acknowledged(old(Now()), now)
    {
      var actions := Renegotiate(now, false, RequestSent);
      r := Transition(actions, None);
    }

    method Acknowledged(now: Millis) returns (r: Transition)
      requires Negotiating(state)
      modifies this`state, this`requestIdentifier, this`nextIdentifier, this`restartRemaining, this`restartDeadlineMs
      ensures Follows(old(Automaton()), Rca, Automaton(), ActsOf(r.actions), settings.maxConfigure)
      ensures r == Transition(
                if old(state) == RequestSent then []
                else if old(state) == AckSent then [LayerUp(AddressesOf(Negotiated()))]
                else (if old(state) == Opened then [LayerDown] else []) + [Send(Wire(Request()))], None)
      ensures TellsRequest(old(requestIdentifier), r.actions)
      ensures Step(Now(), r) == IpcpSpec.Acknowledged(old(Now()), now)
    {
      if state == RequestSent || state == AckSent {
        r := AckAwaited(now);
      } else {
        r := AckRepeated(now);
      }
    }

    method AfterNegativeResponse(now: Millis) returns (r: Transition)
      requires Negotiating(state)
      modifies this`state, this`requestIdentifier, this`nextIdentifier, this`restartRemaining, this`restartDeadlineMs
      ensures Follows(old(Automaton()), Rcn, Automaton(), ActsOf(r.actions), settings.maxConfigure)
      ensures r == Transition((if old(state) == Opened then [LayerDown] else []) + [Send(Wire(Request()))], None)
      ensures LastRequest(r.actions) == Some(Wire(Request()))
      ensures Step(Now(), r) == IpcpSpec.AfterNegativeResponse(old(Now()), now)
    {
      var resetCounter := state == RequestSent || state == AckSent;
      var actions := Renegotiate(now, resetCounter, if state == AckSent then AckSent else RequestSent);
      r := Transition(actions, None);
    }

    /** The loop of a Nak: fields are assigned as it goes, up to the first option that is not valid. */
    method TakeOptions(options: seq<ConfigOption>) returns (valid: bool)
      modifies this`localAddress, this`primaryDns, this`secondaryDns
      ensures (Negotiated(), valid) == Each(Take, old(Negotiated()), options)
    {
      assert options[0..] == options;
      for n := 0 to |options|
        invariant Each(Take, Negotiated(), options[n..]) == Each(Take, old(Negotiated()), options)
      {
        EachNext(Take, Negotiated(), options, n);
        var o := options[n];
        if !Usable(o) {
          return false;
        }
        if o.kind == IP_ADDRESS && requestAddress {
          localAddress := o.data;
        } else if o.kind == PRIMARY_DNS && requestPrimaryDns {
          primaryDns := o.data;
        } else if o.kind == SECONDARY_DNS && requestSecondaryDns {
          secondaryDns := o.data;
        } else {
          return false;
        }
      }
      return true;
    }

    method ReceiveConfigureNak(packet: Packet, now: Millis) returns (r: Transition)
      requires Negotiating(state)
      modifies this
      ensures if packet.identifier != old(requestIdentifier) then r == INVALID && unchanged(this)
              else
                match ParseOptions(packet.data)
                case Err(e) => r == Ignored(MalformedOptions(e)) && unchanged(this)
                case Ok(options) =>
                  if HasRepeatedTypes(options) then r == INVALID && unchanged(this)
                  else
                    var (after, valid) := Each(Take, old(Negotiated()), options);
                    && Negotiated() == after
                    && if valid && options != [] then
                         && Follows(old(Automaton()), Rcn, Automaton(), ActsOf(r.actions), settings.maxConfigure)
                         && r == Transition(
                              (if old(state) == Opened then [LayerDown] else []) + [Send(Wire(Request()))], None)
                       else
                         r == INVALID && Automaton() == old(Automaton()) && requestIdentifier == old(requestIdentifier)
      ensures TellsRequest(old(requestIdentifier), r.actions)
      ensures Step(Now(), r) == IpcpSpec.ReceiveNegativeResponse(Take, old(Now()), packet, now)
    {
      NoRequest(LayerDown, LayerDown);
      if packet.identifier != requestIdentifier {
        return INVALID;
      }
      var collected := CollectOptions(packet.data);
      if collected.Err? {
        return Ignored(MalformedOptions(collected.error));
      }
      if HasRepeatedTypes(collected.value) {
        return INVALID;
      }
      var valid := TakeOptions(collected.value);
      if !valid || collected.value == [] {
        return INVALID;
      }
      r := AfterNegativeResponse(now);
    }

    method DropOptions(options: seq<ConfigOption>) returns (valid: bool)
      modifies this`primaryDns, this`secondaryDns, this`requestAddress, this`requestPrimaryDns, this`requestSecondaryDns
      ensures (Negotiated(), valid) == Each(Drop, old(Negotiated()), options)
    {
      assert options[0..] == options;
      for n := 0 to |options|
        invariant Each(Drop, Negotiated(), options[n..]) == Each(Drop, old(Negotiated()), options)
      {
        EachNext(Drop, Negotiated(), options, n);
        var o := options[n];
        if o.kind == IP_ADDRESS && requestAddress && o == AddressOption(IP_ADDRESS, localAddress) {
          requestAddress := false;
        } else if o.kind == PRIMARY_DNS && requestPrimaryDns && o == AddressOption(PRIMARY_DNS, primaryDns) {
          requestPrimaryDns := false;
          primaryDns := UNSPECIFIED;
        } else if o.kind == SECONDARY_DNS && requestSecondaryDns && o == AddressOption(SECONDARY_DNS, secondaryDns) {
          requestSecondaryDns := false;
          secondaryDns := UNSPECIFIED;
        } else {
          return false;
        }
      }
      return true;
    }

    method ReceiveConfigureReject(packet: Packet, now: Millis) returns (r: Transition)
      requires Negotiating(state)
      modifies this
      ensures if packet.identifier != old(requestIdentifier) then r == INVALID && unchanged(this)
              else
                match ParseOptions(packet.data)
                case Err(e) => r == Ignored(MalformedOptions(e)) && unchanged(this)
                case Ok(options) =>
                  if options == [] || HasRepeatedTypes(options) then r == INVALID && unchanged(this)
                  else
                    var (after, valid) := Each(Drop, old(Negotiated()), options);
                    && Negotiated() == after
                    && if valid then
                         && Follows(old(Automaton()), Rcn, Automaton(), ActsOf(r.actions), settings.maxConfigure)
                         && r == Transition(
                              (if old(state) == Opened then [LayerDown] else []) + [Send(Wire(Request()))], None)
                       else
                         r == INVALID && Automaton() == old(Automaton()) && requestIdentifier == old(requestIdentifier)
      ensures TellsRequest(old(requestIdentifier), r.actions)
      ensures Step(Now(), r) == IpcpSpec.ReceiveNegativeResponse(Drop, old(Now()), packet, now)
    {
      NoRequest(LayerDown, LayerDown);
      if packet.identifier != requestIdentifier {
        return INVALID;
      }
      var collected := CollectOptions(packet.data);
      if collected.Err? {
        return Ignored(MalformedOptions(collected.error));
      }
      if collected.value == [] || HasRepeatedTypes(collected.value) {
        return INVALID;
      }
      var valid := DropOptions(collected.value);
      if !valid {
        return INVALID;
      }
      r := AfterNegativeResponse(now);
    }

    /** What one call did to the automaton: nothing while it ignored, otherwise one transition. */
    ghost predicate OneTransition(before: View, r: Transition)
      reads this
    {
      if r.ignored.Some? then r.actions == [] && Automaton() == before
      else exists e :: Follows(before, e, Automaton(), ActsOf(r.actions), settings.maxConfigure)
    }

    method Receive(input: Bytes, now: Millis) returns (r: Transition)
      modifies this
      ensures OneTransition(old(Automaton()), r)
      ensures old(state) == Closed || old(state) == Stopped ==> r == Ignored(NotConfiguring) && unchanged(this)
      ensures ParsePacket(input).Err? && Negotiating(old(state)) ==>
                r == Ignored(MalformedPacket(ParsePacket(input).error)) && unchanged(this)
      ensures TellsRequest(old(requestIdentifier), r.actions)
      ensures Step(Now(), r) == IpcpSpec.Receive(old(Now()), input, now)
    {
      NoRequest(LayerDown, LayerDown);
      if state == Closed || state == Stopped {
        return Ignored(NotConfiguring);
      }
      var parsed := ParsePacket(input);
      if parsed.Err? {
        return Ignored(MalformedPacket(parsed.error));
      }
      var packet := parsed.value;
      if packet.code == CONFIGURE_REQUEST {
        r := ReceiveConfigureRequest(packet, now);
      } else if packet.code == CONFIGURE_ACK {
        r := ReceiveConfigureAck(packet, now);
      } else if packet.code == CONFIGURE_NAK {
        r := ReceiveConfigureNak(packet, now);
      } else if packet.code == CONFIGURE_REJECT {
        r := ReceiveConfigureReject(packet, now);
      } else {
        return Ignored(UnsupportedCode(packet.code));
      }
    }
  }

  // ----- Runs -----

  datatype Event = OpenAt(now: Millis) | LowerDownNow | PollAt(now: Millis) | Input(octets: Bytes, now: Millis)

  method Dispatch(client: Client, event: Event) returns (r: Transition)
    requires TimerFits(client.Automaton())
    modifies client
    ensures TimerFits(client.Automaton())
    ensures client.TellsRequest(old(client.requestIdentifier), r.actions)
    ensures Negotiating(client.state) ==> Negotiating(old(client.state)) || LastRequest(r.actions).Some?
    ensures LayerAfter(old(client.state) == Opened, ActsOf(r.actions)) == Some(client.state == Opened)
  {
    ghost var before := client.Automaton();
    match event {
      case OpenAt(now) =>
        r := client.Open(now);
        OneAct(r.actions, before.state == Opened);
      case LowerDownNow =>
        r := client.LowerDown();
        OneAct(r.actions, before.state == Opened);
      case PollAt(now) =>
        r := client.PollTimeout(now);
        OneAct(r.actions, before.state == Opened);
      case Input(octets, now) =>
        r := client.Receive(octets, now);
        if r.ignored.None? {
          ghost var e :| Follows(before, e, client.Automaton(), ActsOf(r.actions), client.settings.maxConfigure);
          TransitionKeepsLayer(before, e, client.Automaton(), ActsOf(r.actions), client.settings.maxConfigure);
        } else {
          OneAct(r.actions, before.state == Opened);
        }
    }
  }

  lemma OneAct(actions: seq<Action>, up: bool)
    requires |actions| <= 1
    ensures actions == [] ==> LayerAfter(up, ActsOf(actions)) == Some(up)
    ensures |actions| == 1 ==> LayerAfter(up, ActsOf(actions)) == LayerAfter(up, [ActOf(actions[0])])
    ensures |actions| == 1 ==> LayerAfter(up, ActsOf(actions))
                               == (if actions[0].LayerUp? then (if up then None else Some(true))
                                   else if actions[0].LayerDown? then (if up then Some(false) else None) else Some(up))
  {
    if |actions| == 1 {
      assert ActsOf(actions) == [ActOf(actions[0])];
      LayerOfOne(up, ActOf(actions[0]));
    }
  }

  lemma ActsAppend(a: seq<Action>, b: seq<Action>)
    ensures ActsOf(a + b) == ActsOf(a) + ActsOf(b)
  {
  }

  // ----- Retransmissions -----

  function RequestOf(identifier: Octet, options: seq<ConfigOption>): Packet {
    Packet(CONFIGURE_REQUEST, identifier, EncodeOptions(options))
  }

  /** Requests of the same identifier are the same octets exactly for the same options. */
  lemma SameRequestExactly(identifier: Octet, a: seq<ConfigOption>, b: seq<ConfigOption>)
    requires EncodePacket(RequestOf(identifier, a)).Ok? && EncodePacket(RequestOf(identifier, b)).Ok?
    ensures Wire(RequestOf(identifier, a)) == Wire(RequestOf(identifier, b)) <==> a == b
  {
    PacketRoundTrip(RequestOf(identifier, a), []);
    PacketRoundTrip(RequestOf(identifier, b), []);
    assert Wire(RequestOf(identifier, a)) + [] == Wire(RequestOf(identifier, a));
    assert Wire(RequestOf(identifier, b)) + [] == Wire(RequestOf(identifier, b));
    EncodedOptionsParse(a);
    EncodedOptionsParse(b);
  }

  /** The request of one configuration against that of another. */
  lemma RequestsAgree(identifier: Octet, a: Config, b: Config)
    ensures Wire(RequestOf(identifier, LocalOptions(a))) == Wire(RequestOf(identifier, LocalOptions(b)))
            <==> LocalOptions(a) == LocalOptions(b)
  {
    PresentRequestFits(identifier, a);
    PresentRequestFits(identifier, b);
    SameRequestExactly(identifier, LocalOptions(a), LocalOptions(b));
  }

  lemma PresentRequestFits(identifier: Octet, c: Config)
    ensures EncodePacket(RequestOf(identifier, LocalOptions(c))).Ok?
  {
    RequestFits(c);
  }

  /** The last request sent bears the identifier and asked for `options`. */
  predicate Asked(last: Option<Bytes>, identifier: Octet, options: seq<ConfigOption>) {
    EncodePacket(RequestOf(identifier, options)).Ok? && last == Some(Wire(RequestOf(identifier, options)))
  }

  /** The layer above is up exactly in Opened and the timer runs exactly while the client waits; the last
      request sent bears the present identifier and asked for `asked`, and there is one while negotiating. */
  ghost predicate Consistent(client: Client, asked: seq<ConfigOption>)
    reads client
  {
    var last := LastRequest(client.history);
    && TimerFits(client.Automaton())
    && LayerAfter(false, ActsOf(client.history)) == Some(client.state == Opened)
    && (last.Some? ==> Asked(last, client.requestIdentifier, asked))
    && (Negotiating(client.state) ==> last.Some?)
  }

  /** One event of a run. */
  method Handle(client: Client, event: Event, ghost asked: seq<ConfigOption>)
    returns (r: Transition, ghost asking: seq<ConfigOption>)
    requires Consistent(client, asked)
    modifies client
    ensures client.handled == old(client.handled) + [event]
    ensures client.history == old(client.history) + r.actions
    ensures Consistent(client, asking)
    ensures asking == if LastRequest(r.actions).Some? then LocalOptions(client.Negotiated()) else asked
  {
    ghost var (handled, history) := (client.handled, client.history);
    r := Dispatch(client, event);
    client.handled, client.history := handled + [event], history + r.actions;
    asking := if LastRequest(r.actions).Some? then LocalOptions(client.Negotiated()) else asked;
    LayerAfterAppend(false, ActsOf(history), ActsOf(r.actions));
    ActsAppend(history, r.actions);
    LastRequestAppend(history, r.actions);
    PresentRequestFits(client.requestIdentifier, client.Negotiated());
  }

  /** Over any run the layer above goes up and down by turns and is up at the end exactly if the client is
      Opened, and the last request sent bears the present identifier. */
  method Run(client: Client, events: seq<Event>) returns (ghost asked: seq<ConfigOption>)
    requires client.Automaton() == View(Closed, 0, false) && client.handled == [] && client.history == []
    modifies client
    ensures client.handled == events && Consistent(client, asked)
  {
    asked := [];
    assert ActsOf(client.history) == [];
    for n := 0 to |events|
      invariant client.handled == events[..n] && Consistent(client, asked)
    {
      var r;
      r, asked := Handle(client, events[n], asked);
    }
  }

  /** Whatever happened before, a retransmission bears the identifier of the last request sent, and it is
      that request octet for octet exactly if the client asks for the same options as then. */
  method RunAndPoll(client: Client, events: seq<Event>, now: Millis)
    returns (r: Transition, ghost asked: seq<ConfigOption>)
    requires client.Automaton() == View(Closed, 0, false) && client.handled == [] && client.history == []
    modifies client
    ensures client.handled == events
    ensures r.actions != [] ==> r.actions == [LayerFinished] || r.actions == [Send(Wire(client.Request()))]
    ensures r.actions == [Send(Wire(client.Request()))] ==>
              var last := LastRequest(client.history);
              && Asked(last, client.requestIdentifier, asked)
              && (Some(Wire(client.Request())) == last <==> asked == LocalOptions(client.Negotiated()))
  {
    asked := Run(client, events);
    r := client.PollTimeout(now);
    if r.actions == [Send(Wire(client.Request()))] {
      PresentRequestFits(client.requestIdentifier, client.Negotiated());
      SameRequestExactly(client.requestIdentifier, asked, LocalOptions(client.Negotiated()));
    }
  }

  /** The Ack of a request of these options. */
  function AckOf(identifier: Octet, options: seq<ConfigOption>): Packet {
    Packet(CONFIGURE_ACK, identifier, EncodeOptions(options))
  }

  lemma SameAckExactly(identifier: Octet, a: seq<ConfigOption>, b: seq<ConfigOption>)
    ensures AckOf(identifier, a) == AckOf(identifier, b) <==> a == b
  {
    EncodedOptionsParse(a);
    EncodedOptionsParse(b);
  }

  /** Whatever happened before, a negotiating client takes the Ack of the last request it sent exactly if it
      still asks for the same options as then; if it does not, it takes the Ack of a request it never sent. */
  method RunThenAck(client: Client, events: seq<Event>, packet: Packet, now: Millis)
    returns (negotiating: bool, r: Transition, ghost identifier: Octet, ghost asked: seq<ConfigOption>)
    requires client.Automaton() == View(Closed, 0, false) && client.handled == [] && client.history == []
    modifies client
    ensures client.handled == events
    ensures negotiating ==>
              && Asked(LastRequest(client.history), identifier, asked)
              && (r != INVALID <==> packet == AckOf(identifier, LocalOptions(client.Negotiated())))
              && (packet == AckOf(identifier, asked) ==>
                    (r != INVALID <==> asked == LocalOptions(client.Negotiated())))
    ensures !negotiating ==> !Negotiating(client.state) && r == QUIET
  {
    asked := Run(client, events);
    negotiating, r, identifier := Negotiating(client.state), QUIET, client.requestIdentifier;
    if negotiating {
      SameAckExactly(identifier, asked, LocalOptions(client.Negotiated()));
      r := client.ReceiveConfigureAck(packet, now);
    }
  }

  /** A poll sends nothing, finishes, or repeats the request of the addresses as they are. */
  method PollAgain(client: Client, ghost before: Config, now: Millis) returns (r: Transition)
    modifies client`state, client`restartRemaining, client`restartDeadlineMs
    ensures r.actions != [] && r.actions != [LayerFinished] ==>
              (r.actions == [Send(Wire(RequestOf(client.requestIdentifier, LocalOptions(before))))]
               <==> LocalOptions(before) == LocalOptions(client.Negotiated()))
  {
    RequestsAgree(client.requestIdentifier, before, client.Negotiated());
    r := client.PollTimeout(now);
  }

  method TakeIgnoredNak(client: Client, packet: Packet, now: Millis)
    requires Negotiating(client.state) && packet.identifier == client.requestIdentifier
    requires WellFormed(packet.data) && !HasRepeatedTypes(ParseOptions(packet.data).value)
    requires exists o | o in ParseOptions(packet.data).value :: !Wanted(client.Negotiated(), o)
    modifies client
    ensures client.requestIdentifier == old(client.requestIdentifier)
    ensures client.Negotiated() == Each(Take, old(client.Negotiated()), ParseOptions(packet.data).value).0
  {
    TakesAreValid(client.Negotiated(), ParseOptions(packet.data).value);
    var ignored := client.ReceiveConfigureNak(packet, now);
  }

  method TakeIgnoredReject(client: Client, packet: Packet, now: Millis)
    requires Negotiating(client.state) && packet.identifier == client.requestIdentifier
    requires WellFormed(packet.data) && !HasRepeatedTypes(ParseOptions(packet.data).value)
    requires exists o | o in ParseOptions(packet.data).value :: o !in LocalOptions(client.Negotiated())
    modifies client
    ensures client.requestIdentifier == old(client.requestIdentifier)
    ensures client.Negotiated() == Each(Drop, old(client.Negotiated()), ParseOptions(packet.data).value).0
  {
    DropsAreValid(client.Negotiated(), ParseOptions(packet.data).value);
    var ignored := client.ReceiveConfigureReject(packet, now);
  }

  /** An ignored Nak of the present request, then an expired timer: the request is repeated as it was
      exactly if the client already had every address the Nak got to. */
  method IgnoredNakThenPoll(client: Client, packet: Packet, received: Millis, now: Millis) returns (r: Transition)
    requires Negotiating(client.state) && packet.identifier == client.requestIdentifier
    requires WellFormed(packet.data) && !HasRepeatedTypes(ParseOptions(packet.data).value)
    requires exists o | o in ParseOptions(packet.data).value :: !Wanted(client.Negotiated(), o)
    modifies client
    ensures r.actions != [] && r.actions != [LayerFinished] ==>
              var options := ParseOptions(packet.data).value;
              r.actions == [Send(old(Wire(client.Request())))]
              <==> forall k | 0 <= k < Taken(old(client.Negotiated()), options) ::
                     options[k] in LocalOptions(old(client.Negotiated()))
  {
    ghost var before := client.Negotiated();
    NakLeavesRequest(before, ParseOptions(packet.data).value);
    TakeIgnoredNak(client, packet, received);
    r := PollAgain(client, before, now);
  }

  /** The same for an ignored Reject: exactly if not even its first option is one of the client's. */
  method IgnoredRejectThenPoll(client: Client, packet: Packet, received: Millis, now: Millis) returns (r: Transition)
    requires Negotiating(client.state) && packet.identifier == client.requestIdentifier
    requires WellFormed(packet.data) && !HasRepeatedTypes(ParseOptions(packet.data).value)
    requires exists o | o in ParseOptions(packet.data).value :: o !in LocalOptions(client.Negotiated())
    modifies client
    ensures r.actions != [] && r.actions != [LayerFinished] ==>
              (r.actions == [Send(old(Wire(client.Request())))]
               <==> ParseOptions(packet.data).value[0] !in LocalOptions(old(client.Negotiated())))
  {
    ghost var before := client.Negotiated();
    RejectLeavesRequest(before, ParseOptions(packet.data).value);
    TakeIgnoredReject(client, packet, received);
    r := PollAgain(client, before, now);
  }
}
