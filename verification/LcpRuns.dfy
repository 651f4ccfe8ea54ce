/** What every call of the LCP machine keeps, and what therefore holds over every run. */
module LcpRuns {
  import opened Octets
  import opened LcpCodec
  import opened LcpPolicy
  import opened LcpConvergence
  import opened Rfc1661
  import opened LcpSpec

  datatype Call =
    | OpenCall(now: Millis)
    | CloseCall(now: Millis)
    | LowerDownCall
    | RejectProtocolCall(protocol: Word16, information: Bytes)
    | PollCall(now: Millis)
    | ReceiveCall(input: Bytes, now: Millis, policy: Policy)

  function Apply(m: Lcp, call: Call): Step {
    match call
    case OpenCall(now) => Open(m, now)
    case CloseCall(now) => Close(m, now)
    case LowerDownCall => LowerDown(m)
    case RejectProtocolCall(protocol, information) => RejectProtocol(m, protocol, information)
    case PollCall(now) => PollTimeout(m, now)
    case ReceiveCall(input, now, policy) => Receive(m, input, now, policy)
  }

  predicate Sent(a: Action, code: Octet) { a.SendPacket? && a.packet.code == code }

  // ----- Packets always fit -----

  const MAXIMUM_DATA := 0xffff - HEADER_LENGTH

  lemma RequestFits(m: Lcp)
    requires |m.options| <= 256
    ensures EncodePacket(Request(m)).Ok?
  {
    EncodedOptionsLength(m.options);
  }

  lemma {:induction false} RefusedLength(options: seq<ConfigOption>, verdicts: seq<Disposition>)
    requires |options| == |verdicts|
    ensures |EncodeOptions(Refused(options, verdicts))| <= |EncodeOptions(options)|
  {
    if options != [] {
      RefusedLength(options[1..], verdicts[1..]);
      if verdicts[0].Refuse? {
        var rest := Refused(options[1..], verdicts[1..]);
        assert ([options[0]] + rest)[1..] == rest;
      } else {
        assert [] + Refused(options[1..], verdicts[1..]) == Refused(options[1..], verdicts[1..]);
      }
    }
  }

  predicate Suggestible(o: ConfigOption) {
    (o.kind == MRU || o.kind == ACCM || o.kind == AUTHENTICATION || o.kind == MAGIC) && |o.data| <= 4
  }

  lemma {:induction false} SuggestionsAreSuggestible(verdicts: seq<Disposition>)
    requires forall k | 0 <= k < |verdicts| && verdicts[k].Suggest? :: Suggestible(verdicts[k].replacement)
    ensures forall k | 0 <= k < |Suggestions(verdicts)| :: Suggestible(Suggestions(verdicts)[k])
  {
    if verdicts != [] {
      SuggestionsAreSuggestible(verdicts[1..]);
    }
  }

  /** Four types can be suggested, and none twice. */
  lemma FewSuggestions(suggestions: seq<ConfigOption>)
    requires NoRepeats(suggestions) && forall k | 0 <= k < |suggestions| :: Suggestible(suggestions[k])
    ensures |suggestions| <= 4
  {
    if |suggestions| > 4 {
      var (a, b, c, d, e) :=
        (suggestions[0].kind, suggestions[1].kind, suggestions[2].kind, suggestions[3].kind, suggestions[4].kind);
      assert false;
    }
  }

  /** Only a list without repeated types is answered by a Nak. */
  lemma NakMeansNoRepeats(options: seq<ConfigOption>, policy: Policy, localMagic: Option<Word32>)
    requires Evaluate(options, policy, localMagic).Naked?
    ensures NoRepeats(options)
  {
    var verdicts := Verdicts(options, policy, localMagic);
    forall k | 0 <= k < |options|
      ensures !Repeated(options, options[k].kind)
    {
      assert verdicts[k] != Refuse;
    }
    NoRepeatsMeansNoneRepeated(options);
  }

  lemma SuggestedIsSuggestible(options: seq<ConfigOption>, policy: Policy, localMagic: Option<Word32>)
    ensures var verdicts := Verdicts(options, policy, localMagic);
            forall k | 0 <= k < |verdicts| && verdicts[k].Suggest? :: Suggestible(verdicts[k].replacement)
  {
  }

  /** A Nak has few options. */
  lemma NakIsShort(options: seq<ConfigOption>, policy: Policy, localMagic: Option<Word32>)
    requires Evaluate(options, policy, localMagic).Naked?
    ensures |Evaluate(options, policy, localMagic).suggestions| <= 4
  {
    var verdicts := Verdicts(options, policy, localMagic);
    NakMeansNoRepeats(options, policy, localMagic);
    NakByType(options, policy, localMagic);
    NoRepeatsMeansNoneRepeated(Suggestions(verdicts));
    SuggestedIsSuggestible(options, policy, localMagic);
    SuggestionsAreSuggestible(verdicts);
    FewSuggestions(Suggestions(verdicts));
  }

  lemma AnswerFits(packet: Packet, policy: Policy, localMagic: Option<Word32>)
    requires |packet.data| <= MAXIMUM_DATA && WellFormed(packet.data)
    ensures EncodePacket(AnswerTo(packet, Evaluate(ParseOptions(packet.data).value, policy, localMagic))).Ok?
  {
    var options := ParseOptions(packet.data).value;
    ParsedOptionsEncode(packet.data);
    match Evaluate(options, policy, localMagic) {
      case Acked(_) =>
      case Naked(suggestions) =>
        NakIsShort(options, policy, localMagic);
        EncodedOptionsLength(suggestions);
      case Rejected(_) => RefusedLength(options, Verdicts(options, policy, localMagic));
    }
  }

  // ----- The invariant -----

  predicate TimerRuns(s: State) { s == RequestSent || s == AckReceived || s == AckSent || s == Closing }

  predicate Invariant(m: Lcp) {
    && |m.options| <= 256
    && (m.deadline.Some? <==> TimerRuns(m.state))
    && (m.state == AckSent || m.state == Opened ==> m.peer.Some?)
    && (m.state == AckReceived || m.state == Opened ==> m.acknowledgedMagic == FirstMagic(m.options))
  }

  /** The layer above goes up only when it is down and down only when it is up. */
  function Layer(up: bool, actions: seq<Action>): Option<bool> {
    if actions == [] then Some(up)
    else
      match Layer(up, actions[..|actions| - 1])
      case None => None
      case Some(now) =>
        match actions[|actions| - 1]
        case ThisLayerUp(_) => if now then None else Some(true)
        case ThisLayerDown => if now then Some(false) else None
        case _ => Some(now)
  }

  predicate Encodable(a: Action) { a.SendPacket? ==> EncodePacket(a.packet).Ok? }

  /** One call that keeps the invariant, cannot fail and moves the layer above as the state says. */
  predicate Keeps(m: Lcp, s: Step) {
    && Invariant(s.machine)
    && s.outcome.Done?
    && (forall k | 0 <= k < |s.outcome.actions| :: Encodable(s.outcome.actions[k]))
    && Layer(m.state == Opened, s.outcome.actions) == Some(s.machine.state == Opened)
    && s.machine.settings == m.settings
  }

  lemma LayerOfOne(up: bool, a: Action)
    ensures a.SendPacket? || a.ThisLayerFinished? ==> Layer(up, [a]) == Some(up)
    ensures a.ThisLayerUp? && !up ==> Layer(up, [a]) == Some(true)
    ensures a.ThisLayerDown? && up ==> Layer(up, [a]) == Some(false)
  {
    assert [a][..0] == [];
    assert Layer(up, []) == Some(up);
  }

  lemma LayerOfTwo(up: bool, a: Action, b: Action)
    ensures Layer(up, [a, b]) == match Layer(up, [a]) case None => None case Some(now) => Layer(now, [b])
  {
    assert [a, b][..1] == [a] && [b][..0] == [];
  }

  lemma LayerOfThree(up: bool, a: Action, b: Action, c: Action)
    ensures Layer(up, [a, b, c]) == match Layer(up, [a, b]) case None => None case Some(now) => Layer(now, [c])
  {
    assert [a, b, c][..2] == [a, b] && [c][..0] == [];
  }

  /** Layer Down if it was up, then a packet: the shape of most answers. */
  lemma LayerOfRestart(m: Lcp, packet: Packet)
    ensures Layer(m.state == Opened, DownIfOpened(m) + [SendPacket(packet)]) == Some(false)
    ensures Layer(m.state == Opened, DownIfOpened(m)) == Some(false)
  {
    LayerOfOne(m.state == Opened, SendPacket(packet));
    if m.state == Opened {
      LayerOfOne(true, ThisLayerDown);
      LayerOfOne(false, SendPacket(packet));
      LayerOfTwo(true, ThisLayerDown, SendPacket(packet));
      assert DownIfOpened(m) + [SendPacket(packet)] == [ThisLayerDown, SendPacket(packet)];
    } else {
      assert DownIfOpened(m) + [SendPacket(packet)] == [SendPacket(packet)];
      assert Layer(false, []) == Some(false);
    }
  }

  lemma SendingRestart(m: Lcp, packet: Packet)
    requires EncodePacket(packet).Ok?
    ensures Sending(DownIfOpened(m), packet, []) == Done(DownIfOpened(m) + [SendPacket(packet)], None)
    ensures Sending([], packet, []) == Done([SendPacket(packet)], None)
    ensures var actions := DownIfOpened(m) + [SendPacket(packet)];
            forall k | 0 <= k < |actions| :: Encodable(actions[k])
  {
    assert DownIfOpened(m) + [SendPacket(packet)] + [] == DownIfOpened(m) + [SendPacket(packet)];
    assert [] + [SendPacket(packet)] + [] == [SendPacket(packet)];
  }

  /** Leaving the state with Layer Down, if it was Opened, and one packet. */
  lemma RestartKeeps(m: Lcp, s: Step, packet: Packet)
    requires s.outcome == Sending(DownIfOpened(m), packet, []) && EncodePacket(packet).Ok?
    requires Invariant(s.machine) && s.machine.state != Opened && s.machine.settings == m.settings
    ensures Keeps(m, s)
  {
    SendingRestart(m, packet);
    LayerOfRestart(m, packet);
  }

  /** One packet and no change of the layer above. */
  lemma PacketKeeps(m: Lcp, s: Step, packet: Packet)
    requires s.outcome == Sending([], packet, []) && EncodePacket(packet).Ok?
    requires Invariant(s.machine) && (s.machine.state == Opened <==> m.state == Opened)
             && s.machine.settings == m.settings
    ensures Keeps(m, s)
  {
    SendingRestart(m, packet);
    LayerOfOne(m.state == Opened, SendPacket(packet));
  }

  lemma QuietKeeps(m: Lcp, s: Step)
    requires s.outcome.Done? && (s.outcome.actions == [] || s.outcome.actions == [ThisLayerFinished])
    requires Invariant(s.machine) && (s.machine.state == Opened <==> m.state == Opened)
             && s.machine.settings == m.settings
    ensures Keeps(m, s)
  {
    LayerOfOne(m.state == Opened, ThisLayerFinished);
  }

  lemma OpenKeeps(m: Lcp, now: Millis)
    requires Invariant(m)
    ensures Keeps(m, Open(m, now))
  {
    var s := Open(m, now);
    if s.outcome == QUIET {
      QuietKeeps(m, s);
    } else {
      RequestFits(s.machine);
      PacketKeeps(m, s, Request(s.machine));
    }
  }

  lemma CloseKeeps(m: Lcp, now: Millis)
    requires Invariant(m)
    ensures Keeps(m, Close(m, now))
  {
    if m.state == Closing || m.state == Closed || m.state == Stopped {
      assert Layer(false, []) == Some(false);
    } else {
      RestartKeeps(m, Close(m, now), TerminateRequest(Close(m, now).machine));
    }
  }

  lemma LowerDownKeeps(m: Lcp)
    requires Invariant(m)
    ensures Keeps(m, LowerDown(m))
  {
    LayerOfRestart(m, Request(m));
  }

  lemma RejectProtocolKeeps(m: Lcp, protocol: Word16, information: Bytes)
    requires Invariant(m)
    ensures Keeps(m, RejectProtocol(m, protocol, information))
  {
    var s := RejectProtocol(m, protocol, information);
    if m.state == Opened {
      var data := BigEndian16(protocol) + Clip(information, Max(PeerOrDefault(m).transmitMru, 6) - 6);
      PacketKeeps(m, s, Packet(PROTOCOL_REJECT, FreshIdentifier(m), data));
    } else {
      QuietKeeps(m, s);
    }
  }

  lemma PollKeeps(m: Lcp, now: Millis)
    requires Invariant(m)
    ensures Keeps(m, PollTimeout(m, now))
  {
    var s := PollTimeout(m, now);
    if m.deadline.None? || now < m.deadline.value || m.restartRemaining == 0 {
      QuietKeeps(m, s);
    } else if m.state == Closing {
      PacketKeeps(m, s, TerminateRequest(s.machine));
    } else {
      RequestFits(s.machine);
      PacketKeeps(m, s, Request(s.machine));
    }
  }

  /** Leaving Opened, the layer goes down, a new request goes out and then the answer. */
  lemma RenegotiationKeeps(m: Lcp, packet: Packet, now: Millis, policy: Policy)
    requires Invariant(m) && m.state == Opened && |packet.data| <= MAXIMUM_DATA && WellFormed(packet.data)
    ensures Keeps(m, ReceiveConfigureRequest(m, packet, now, policy))
  {
    var evaluation := Evaluate(ParseOptions(packet.data).value, policy, FirstMagic(m.options));
    var told := if evaluation.Acked? then m.(peer := Some(evaluation.configuration)) else m;
    var request := SendPacket(Request(SendNewRequest(told, now, true)));
    var answer := SendPacket(AnswerTo(packet, evaluation));
    AnswerFits(packet, policy, FirstMagic(m.options));
    RequestFits(SendNewRequest(told, now, true));
    LayerOfOne(true, ThisLayerDown);
    LayerOfOne(false, request);
    LayerOfOne(false, answer);
    LayerOfTwo(true, ThisLayerDown, request);
    LayerOfThree(true, ThisLayerDown, request, answer);
  }

  lemma ConfigureRequestKeeps(m: Lcp, packet: Packet, now: Millis, policy: Policy)
    requires Invariant(m) && Negotiating(m.state) && |packet.data| <= MAXIMUM_DATA
    ensures Keeps(m, ReceiveConfigureRequest(m, packet, now, policy))
  {
    if WellFormed(packet.data) {
      if m.state == Opened {
        RenegotiationKeeps(m, packet, now, policy);
      } else {
        var evaluation := Evaluate(ParseOptions(packet.data).value, policy, FirstMagic(m.options));
        var answer := SendPacket(AnswerTo(packet, evaluation));
        AnswerFits(packet, policy, FirstMagic(m.options));
        LayerOfOne(false, answer);
        if m.state == AckReceived && evaluation.Acked? {
          LayerOfOne(false, ThisLayerUp(evaluation.configuration));
          LayerOfTwo(false, answer, ThisLayerUp(evaluation.configuration));
        }
      }
    }
  }

  lemma ConfigureAckKeeps(m: Lcp, packet: Packet, now: Millis)
    requires Invariant(m) && Negotiating(m.state)
    ensures Keeps(m, ReceiveConfigureAck(m, packet, now))
  {
    var s := ReceiveConfigureAck(m, packet, now);
    RequestFits(s.machine);
    LayerOfOne(false, ThisLayerUp(PeerOrDefault(m)));
    if Acknowledges(packet, m) && (m.state == AckReceived || m.state == Opened) {
      RestartKeeps(m, s, Request(s.machine));
    }
  }

  lemma NegativeResponseKeeps(m: Lcp, options: seq<ConfigOption>, now: Millis)
    requires Invariant(m) && Negotiating(m.state) && |options| <= 256
    ensures Keeps(m, AfterNegativeResponse(m, options, now))
  {
    var s := AfterNegativeResponse(m, options, now);
    RequestFits(s.machine);
    RestartKeeps(m, s, Request(s.machine));
  }

  lemma ConfigureNakKeeps(m: Lcp, packet: Packet, now: Millis)
    requires Invariant(m) && Negotiating(m.state)
    ensures Keeps(m, ReceiveConfigureNak(m, packet, now))
  {
    if WellFormed(packet.data) {
      NegativeResponseKeeps(m, ApplyNak(m.options, ParseOptions(packet.data).value), now);
    }
  }

  lemma ConfigureRejectKeeps(m: Lcp, packet: Packet, now: Millis)
    requires Invariant(m) && Negotiating(m.state)
    ensures Keeps(m, ReceiveConfigureReject(m, packet, now))
  {
    if WellFormed(packet.data) {
      var refused := ParseOptions(packet.data).value;
      WithoutKeeps(m.options, refused);
      NegativeResponseKeeps(m, Without(m.options, refused), now);
    }
  }

  lemma TerminateKeeps(m: Lcp, packet: Packet)
    requires Invariant(m) && m.state != Closed && m.state != Stopped
    ensures Keeps(m, ReceiveTerminateRequest(m, packet)) && Keeps(m, ReceiveTerminateAck(m, packet))
  {
    var acknowledgment := SendPacket(Packet(TERMINATE_ACK, packet.identifier, []));
    LayerOfOne(m.state == Opened, acknowledgment);
    LayerOfOne(m.state == Opened, ThisLayerFinished);
    if m.state == Opened {
      LayerOfOne(true, ThisLayerDown);
      LayerOfTwo(true, acknowledgment, ThisLayerDown);
      assert [acknowledgment] + DownIfOpened(m) == [acknowledgment, ThisLayerDown];
    } else {
      assert [acknowledgment] + DownIfOpened(m) == [acknowledgment];
    }
  }

  lemma EchoKeeps(m: Lcp, packet: Packet)
    requires Invariant(m)
    ensures Keeps(m, ReceiveEchoRequest(m, packet))
  {
    var s := ReceiveEchoRequest(m, packet);
    if s.outcome.Done? && s.outcome.ignored.Some? {
      QuietKeeps(m, s);
    } else {
      var own := if m.acknowledgedMagic.Some? then m.acknowledgedMagic.value else 0;
      var data := BigEndian32(own) + Clip(packet.data[4..], Max(PeerOrDefault(m).transmitMru, 8) - 8);
      PacketKeeps(m, s, Packet(ECHO_REPLY, packet.identifier, data));
    }
  }

  lemma UnknownCodeKeeps(m: Lcp, packet: Packet)
    requires Invariant(m)
    ensures Keeps(m, ReceiveUnknownCode(m, packet))
  {
    var limit := Max(PeerOrDefault(m).transmitMru, 8) - HEADER_LENGTH;
    var whole := [packet.code, packet.identifier] + BigEndian16((HEADER_LENGTH + |packet.data|) % 0x1_0000)
        + packet.data;
    PacketKeeps(m, ReceiveUnknownCode(m, packet), Packet(CODE_REJECT, FreshIdentifier(m), Clip(whole, limit)));
  }

  lemma ReceiveKeeps(m: Lcp, packet: Packet, now: Millis, policy: Policy)
    requires Invariant(m) && |packet.data| <= MAXIMUM_DATA
    ensures Keeps(m, ReceivePacket(m, packet, now, policy))
  {
    if Negotiating(m.state) {
      ConfigureRequestKeeps(m, packet, now, policy);
      ConfigureAckKeeps(m, packet, now);
      ConfigureNakKeeps(m, packet, now);
      ConfigureRejectKeeps(m, packet, now);
    }
    if m.state != Closed && m.state != Stopped {
      TerminateKeeps(m, packet);
      EchoKeeps(m, packet);
      UnknownCodeKeeps(m, packet);
    }
  }

  lemma CallKeeps(m: Lcp, call: Call)
    requires Invariant(m)
    ensures Keeps(m, Apply(m, call))
  {
    match call {
      case OpenCall(now) => OpenKeeps(m, now);
      case CloseCall(now) => CloseKeeps(m, now);
      case LowerDownCall => LowerDownKeeps(m);
      case RejectProtocolCall(protocol, information) => RejectProtocolKeeps(m, protocol, information);
      case PollCall(now) => PollKeeps(m, now);
      case ReceiveCall(input, now, policy) =>
        if ParsePacket(input).Ok? {
          ReceiveKeeps(m, ParsePacket(input).value, now, policy);
        }
    }
  }

  // ----- Runs -----

  /** The machine and all actions after a sequence of calls; None once a call failed. */
  function RunCalls(m: Lcp, calls: seq<Call>): Option<(Lcp, seq<Action>)> {
    if calls == [] then Some((m, []))
    else
      match RunCalls(m, calls[..|calls| - 1])
      case None => None
      case Some(before) =>
        var s := Apply(before.0, calls[|calls| - 1]);
        if s.outcome.Failed? then None else Some((s.machine, before.1 + s.outcome.actions))
  }

  lemma {:induction false} LayerAppend(up: bool, a: seq<Action>, b: seq<Action>)
    ensures Layer(up, a + b) == match Layer(up, a) case None => None case Some(now) => Layer(now, b)
  {
    if b == [] {
      assert a + b == a;
    } else {
      LayerAppend(up, a, b[..|b| - 1]);
      assert (a + b)[..|a + b| - 1] == a + b[..|b| - 1];
    }
  }

  /** From a fresh machine with at most 256 local options, no call of any run fails; timer, peer
      configuration and acknowledged magic go with the state, and the layer above is up exactly
      while the machine is Opened. */
  lemma {:induction false} EveryRunKeeps(options: seq<ConfigOption>, settings: Settings, calls: seq<Call>)
    requires |options| <= 256
    ensures var r := RunCalls(New(options, settings), calls);
            r.Some? && Invariant(r.value.0) && Layer(false, r.value.1) == Some(r.value.0.state == Opened)
  {
    var m := New(options, settings);
    if calls != [] {
      EveryRunKeeps(options, settings, calls[..|calls| - 1]);
      var before := RunCalls(m, calls[..|calls| - 1]).value;
      CallKeeps(before.0, calls[|calls| - 1]);
      LayerAppend(false, before.1, Apply(before.0, calls[|calls| - 1]).outcome.actions);
    }
  }
}
