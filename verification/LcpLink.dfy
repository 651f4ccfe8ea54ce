/** Two LCP machines joined by two lossless in-order channels, under any interleaving of calls
    and deliveries. */
module LcpLink {
  import opened Octets
  import opened LcpCodec
  import opened LcpPolicy
  import LcpConvergence
  import opened Rfc1661
  import opened LcpSpec
  import opened LcpRuns

  /** The packets on their way to either machine, and everything each has ever sent. */
  datatype Link = Link(
    a: Lcp, toA: seq<Packet>, sentByA: seq<Packet>,
    b: Lcp, toB: seq<Packet>, sentByB: seq<Packet>)

  datatype LinkEvent =
    | CallA(call: Call)
    | CallB(call: Call)
    | DeliverToA(now: Millis, policy: Policy)
    | DeliverToB(now: Millis, policy: Policy)

  function Swap(l: Link): Link { Link(l.b, l.toB, l.sentByB, l.a, l.toA, l.sentByA) }

  function Packets(actions: seq<Action>): seq<Packet> {
    if actions == [] then []
    else Packets(actions[..|actions| - 1])
         + (if actions[|actions| - 1].SendPacket? then [actions[|actions| - 1].packet] else [])
  }

  function PacketsOf(s: Step): seq<Packet> { if s.outcome.Done? then Packets(s.outcome.actions) else [] }

  function Emit(l: Link, s: Step): Link {
    l.(a := s.machine, toB := l.toB + PacketsOf(s), sentByA := l.sentByA + PacketsOf(s))
  }

  /** Packets travel as octets: the receiver parses what the sender encoded. */
  function Wire(p: Packet): Bytes { if EncodePacket(p).Ok? then EncodePacket(p).value else [] }

  function Deliver(l: Link, now: Millis, policy: Policy): Link {
    if l.toA == [] then l
    else Emit(l.(toA := l.toA[1..]), Receive(l.a, Wire(l.toA[0]), now, policy))
  }

  /** Calls of the environment do not inject packets. */
  function Happen(l: Link, e: LinkEvent): Link {
    match e
    case CallA(call) => if call.ReceiveCall? then l else Emit(l, Apply(l.a, call))
    case CallB(call) => if call.ReceiveCall? then l else Swap(Emit(Swap(l), Apply(l.b, call)))
    case DeliverToA(now, policy) => Deliver(l, now, policy)
    case DeliverToB(now, policy) => Swap(Deliver(Swap(l), now, policy))
  }

  function RunLink(l: Link, events: seq<LinkEvent>): Link {
    if events == [] then l else Happen(RunLink(l, events[..|events| - 1]), events[|events| - 1])
  }

  function Fresh(a: Lcp, b: Lcp): Link { Link(a, [], [], b, [], []) }

  // ----- The invariant of one direction, A receiving from B -----

  /** Options of the Configure-Request sent last among those still travelling. */
  function LastRequest(channel: seq<Packet>): Option<Bytes> {
    if channel == [] then None
    else if channel[|channel| - 1].code == CONFIGURE_REQUEST then Some(channel[|channel| - 1].data)
    else LastRequest(channel[..|channel| - 1])
  }

  predicate HasAgreed(m: Lcp) { m.state == AckSent || m.state == Opened }

  /** Once no request of the sender is travelling, a receiver that agreed knows the sender's options. */
  predicate Informed(receiver: Lcp, sender: Lcp, channel: seq<Packet>) {
    match LastRequest(channel)
    case Some(data) => data == EncodeOptions(sender.options)
    case None => HasAgreed(receiver) ==> receiver.peer == Some(Denote(sender.options))
  }

  predicate WasAcked(m: Lcp, sentByPeer: seq<Packet>) {
    exists k | 0 <= k < |sentByPeer| :: Acknowledges(sentByPeer[k], m)
  }

  predicate HalfInvariant(l: Link) {
    && Invariant(l.a)
    && Informed(l.a, l.b, l.toA)
    && (forall k | 0 <= k < |l.toA| :: EncodePacket(l.toA[k]).Ok? && l.toA[k] in l.sentByB)
    && (l.a.state == AckReceived || l.a.state == Opened ==> WasAcked(l.a, l.sentByB))
  }

  predicate LinkInvariant(l: Link) { HalfInvariant(l) && HalfInvariant(Swap(l)) }

  // ----- What one step sends -----

  lemma {:induction false} LastRequestAppend(channel: seq<Packet>, more: seq<Packet>)
    ensures LastRequest(channel + more) == if LastRequest(more).Some? then LastRequest(more) else LastRequest(channel)
  {
    if more == [] {
      assert channel + more == channel;
    } else {
      LastRequestAppend(channel, more[..|more| - 1]);
      assert (channel + more)[..|channel + more| - 1] == channel + more[..|more| - 1];
    }
  }

  lemma {:induction false} LastRequestFront(channel: seq<Packet>)
    requires channel != []
    ensures channel[0].code != CONFIGURE_REQUEST ==> LastRequest(channel) == LastRequest(channel[1..])
    ensures LastRequest(channel[1..]).Some? ==> LastRequest(channel) == LastRequest(channel[1..])
    ensures channel[0].code == CONFIGURE_REQUEST && LastRequest(channel[1..]).None?
            ==> LastRequest(channel) == Some(channel[0].data)
  {
    LastRequestAppend([channel[0]], channel[1..]);
    assert [channel[0]] + channel[1..] == channel;
    assert LastRequest([channel[0]][..0]) == None;
  }

  /** A step announces its sender's options: every request it sends carries them, and it sends one
      whenever they changed. */
  predicate Announces(m: Lcp, s: Step) {
    match LastRequest(PacketsOf(s))
    case Some(data) => data == EncodeOptions(s.machine.options)
    case None => s.machine.options == m.options
  }

  lemma PacketsOfOne(a: Action)
    ensures Packets([a]) == if a.SendPacket? then [a.packet] else []
  {
    assert Packets([a][..0]) == [];
  }

  lemma PacketsOfTwo(a: Action, b: Action)
    ensures Packets([a, b]) == Packets([a]) + Packets([b])
  {
    PacketsOfOne(b);
    assert [a, b][..1] == [a];
  }

  lemma PacketsOfThree(a: Action, b: Action, c: Action)
    ensures Packets([a, b, c]) == Packets([a]) + Packets([b]) + Packets([c])
  {
    PacketsOfOne(c);
    PacketsOfTwo(a, b);
    assert [a, b, c][..2] == [a, b];
  }

  lemma LastRequestOfOne(p: Packet)
    ensures LastRequest([p]) == if p.code == CONFIGURE_REQUEST then Some(p.data) else None
  {
    assert LastRequest([p][..0]) == None;
  }

  lemma PacketsBehindDown(m: Lcp, packet: Packet)
    ensures Packets(DownIfOpened(m) + [SendPacket(packet)]) == [packet]
  {
    PacketsOfOne(SendPacket(packet));
    if m.state == Opened {
      PacketsOfOne(ThisLayerDown);
      PacketsOfTwo(ThisLayerDown, SendPacket(packet));
      assert DownIfOpened(m) + [SendPacket(packet)] == [ThisLayerDown, SendPacket(packet)];
    } else {
      assert DownIfOpened(m) + [SendPacket(packet)] == [SendPacket(packet)];
    }
  }

  /** A step that sends one packet, after Layer Down or not. */
  lemma SendingAnnounces(m: Lcp, s: Step, packet: Packet)
    requires EncodePacket(packet).Ok?
    requires s.outcome == Sending(DownIfOpened(m), packet, []) || s.outcome == Sending([], packet, [])
    ensures PacketsOf(s) == [packet]
  {
    SendingRestart(m, packet);
    PacketsOfOne(SendPacket(packet));
    PacketsBehindDown(m, packet);
  }

  lemma NewRequestAnnounces(m: Lcp, s: Step)
    requires |s.machine.options| <= 256
    requires s.outcome == Sending(DownIfOpened(m), Request(s.machine), [])
             || s.outcome == Sending([], Request(s.machine), [])
    ensures Announces(m, s)
  {
    RequestFits(s.machine);
    SendingAnnounces(m, s, Request(s.machine));
    LastRequestOfOne(Request(s.machine));
  }

  lemma OtherPacketAnnounces(m: Lcp, s: Step, packet: Packet)
    requires EncodePacket(packet).Ok? && packet.code != CONFIGURE_REQUEST && s.machine.options == m.options
    requires s.outcome == Sending(DownIfOpened(m), packet, []) || s.outcome == Sending([], packet, [])
    ensures Announces(m, s)
  {
    SendingAnnounces(m, s, packet);
    LastRequestOfOne(packet);
  }

  lemma QuietAnnounces(m: Lcp, s: Step, a: Action)
    requires s.machine.options == m.options
    requires s.outcome.Done? && (s.outcome.actions == [] || (s.outcome.actions == [a] && !Sent(a, CONFIGURE_REQUEST)))
    ensures Announces(m, s)
  {
    PacketsOfOne(a);
    if a.SendPacket? {
      LastRequestOfOne(a.packet);
    }
    assert LastRequest([]) == None;
  }

  /** Calls of the environment never reach an agreement, and they announce. */
  lemma CallAnnounces(m: Lcp, call: Call)
    requires Invariant(m) && !call.ReceiveCall?
    ensures Announces(m, Apply(m, call))
    ensures var s := Apply(m, call).machine; HasAgreed(s) ==> HasAgreed(m) && s.peer == m.peer && s.options == m.options
    ensures var s := Apply(m, call).machine;
            s.state == AckReceived || s.state == Opened ==>
              s.state == m.state && s.options == m.options && s.requestIdentifier == m.requestIdentifier
  {
    var s := Apply(m, call);
    CallKeeps(m, call);
    match call {
      case OpenCall(_) =>
        if m.state == Opened || m.state == Closing { QuietAnnounces(m, s, ThisLayerDown); }
        else { NewRequestAnnounces(m, s); }
      case CloseCall(_) =>
        if m.state == Closing || m.state == Closed || m.state == Stopped { QuietAnnounces(m, s, ThisLayerDown); }
        else { OtherPacketAnnounces(m, s, TerminateRequest(s.machine)); }
      case LowerDownCall => QuietAnnounces(m, s, ThisLayerDown);
      case RejectProtocolCall(protocol, information) =>
        if m.state == Opened {
          var mru := Max(PeerOrDefault(m).transmitMru, 6);
          OtherPacketAnnounces(m, s, Packet(PROTOCOL_REJECT, FreshIdentifier(m),
              BigEndian16(protocol) + Clip(information, mru - 6)));
        } else { QuietAnnounces(m, s, ThisLayerDown); }
      case PollCall(now) =>
        if m.deadline.None? || now < m.deadline.value || m.restartRemaining == 0 {
          QuietAnnounces(m, s, ThisLayerFinished);
        } else if m.state == Closing { OtherPacketAnnounces(m, s, TerminateRequest(s.machine)); }
        else { NewRequestAnnounces(m, s); }
    }
  }

  // ----- What one delivery does -----

  /** A received packet other than a request makes no agreement and spoils none silently. */
  predicate KeepsAgreement(m: Lcp, s: Lcp) { HasAgreed(s) ==> HasAgreed(m) && s.peer == m.peer }

  /** Acknowledged states are entered only by the matching Ack. */
  predicate KeepsAck(m: Lcp, s: Lcp, p: Packet) {
    s.state == AckReceived || s.state == Opened ==>
      && s.options == m.options && s.requestIdentifier == m.requestIdentifier
      && (m.state == AckReceived || m.state == Opened || Acknowledges(p, m))
  }

  /** Leaving Opened, the machine sends a new request and then its answer. */
  lemma RenegotiationPackets(request: Packet, answer: Packet)
    requires request.code == CONFIGURE_REQUEST && answer.code != CONFIGURE_REQUEST
    ensures Packets([ThisLayerDown, SendPacket(request), SendPacket(answer)]) == [request, answer]
    ensures LastRequest([request, answer]) == Some(request.data)
  {
    PacketsOfOne(ThisLayerDown);
    PacketsOfOne(SendPacket(request));
    PacketsOfOne(SendPacket(answer));
    PacketsOfThree(ThisLayerDown, SendPacket(request), SendPacket(answer));
    LastRequestOfOne(request);
    LastRequestOfOne(answer);
    LastRequestAppend([request], [answer]);
    assert [request] + [answer] == [request, answer];
  }

  /** What a request leaves behind: the options, and after an agreement what they denote. */
  predicate Answers(m: Lcp, p: Packet, s: Step) {
    && Announces(m, s) && KeepsAck(m, s.machine, p) && s.machine.options == m.options
    && (WellFormed(p.data) && HasAgreed(s.machine) ==> s.machine.peer == Some(Denote(ParseOptions(p.data).value)))
    && (!WellFormed(p.data) ==> s.machine == m)
  }

  lemma RenegotiationReceived(m: Lcp, p: Packet, now: Millis, policy: Policy)
    requires Invariant(m) && m.state == Opened && |p.data| <= MAXIMUM_DATA && WellFormed(p.data)
    ensures Answers(m, p, ReceiveConfigureRequest(m, p, now, policy))
  {
    var evaluation := Evaluate(ParseOptions(p.data).value, policy, FirstMagic(m.options));
    var told := if evaluation.Acked? then m.(peer := Some(evaluation.configuration)) else m;
    var request := Request(SendNewRequest(told, now, true));
    AnswerFits(p, policy, FirstMagic(m.options));
    RequestFits(SendNewRequest(told, now, true));
    RenegotiationPackets(request, AnswerTo(p, evaluation));
  }

  /** Outside Opened a request is answered, and good it is remembered. */
  lemma RequestAnswered(m: Lcp, p: Packet, now: Millis, policy: Policy)
    requires Invariant(m) && Negotiating(m.state) && m.state != Opened
    requires |p.data| <= MAXIMUM_DATA && WellFormed(p.data)
    ensures var evaluation := Evaluate(ParseOptions(p.data).value, policy, FirstMagic(m.options));
            var (good, answer) := (evaluation.Acked?, SendPacket(AnswerTo(p, evaluation)));
            var s := ReceiveConfigureRequest(m, p, now, policy);
            && s.outcome == Done(if m.state == AckReceived && good then [answer, ThisLayerUp(evaluation.configuration)]
                                 else [answer], None)
            && s.machine.options == m.options && s.machine.requestIdentifier == m.requestIdentifier
            && (good ==> evaluation.configuration == Denote(ParseOptions(p.data).value))
            && s.machine.peer == (if good then Some(evaluation.configuration) else m.peer)
            && s.machine.state == (if m.state == AckReceived then (if good then Opened else AckReceived)
                                   else if good then AckSent else RequestSent)
  {
    AnswerFits(p, policy, FirstMagic(m.options));
  }

  lemma AnswerPackets(answer: Packet, peer: PeerConfiguration)
    requires answer.code != CONFIGURE_REQUEST
    ensures Packets([SendPacket(answer)]) == [answer] && LastRequest([answer]) == None
    ensures Packets([SendPacket(answer), ThisLayerUp(peer)]) == [answer]
  {
    PacketsOfOne(SendPacket(answer));
    PacketsOfOne(ThisLayerUp(peer));
    PacketsOfTwo(SendPacket(answer), ThisLayerUp(peer));
    LastRequestOfOne(answer);
  }

  /** A step that answers and remembers like this is all that the link asks for. */
  lemma AnsweredAnswers(m: Lcp, p: Packet, s: Step, answer: Packet, peer: PeerConfiguration, good: bool)
    requires WellFormed(p.data) && Negotiating(m.state) && m.state != Opened && answer.code != CONFIGURE_REQUEST
    requires s.outcome == Done([SendPacket(answer)], None)
             || s.outcome == Done([SendPacket(answer), ThisLayerUp(peer)], None)
    requires s.machine.options == m.options && s.machine.requestIdentifier == m.requestIdentifier
    requires s.machine.state == (if m.state == AckReceived then (if good then Opened else AckReceived)
                                 else if good then AckSent else RequestSent)
    requires good ==> s.machine.peer == Some(Denote(ParseOptions(p.data).value))
    ensures Answers(m, p, s)
  {
    AnswerPackets(answer, peer);
  }

  lemma WaitingRequestReceived(m: Lcp, p: Packet, now: Millis, policy: Policy)
    requires Invariant(m) && Negotiating(m.state) && m.state != Opened
    requires |p.data| <= MAXIMUM_DATA && WellFormed(p.data)
    ensures Answers(m, p, ReceiveConfigureRequest(m, p, now, policy))
  {
    var evaluation := Evaluate(ParseOptions(p.data).value, policy, FirstMagic(m.options));
    var peer := if evaluation.Acked? then evaluation.configuration else DEFAULT_PEER;
    RequestAnswered(m, p, now, policy);
    AnsweredAnswers(m, p, ReceiveConfigureRequest(m, p, now, policy), AnswerTo(p, evaluation), peer, evaluation.Acked?);
  }

  lemma ConfigureRequestReceived(m: Lcp, p: Packet, now: Millis, policy: Policy)
    requires Invariant(m) && Negotiating(m.state) && |p.data| <= MAXIMUM_DATA
    ensures Answers(m, p, ReceiveConfigureRequest(m, p, now, policy))
  {
    if !WellFormed(p.data) {
      QuietAnnounces(m, ReceiveConfigureRequest(m, p, now, policy), ThisLayerDown);
    } else if m.state == Opened {
      RenegotiationReceived(m, p, now, policy);
    } else {
      WaitingRequestReceived(m, p, now, policy);
    }
  }

  lemma ConfigureResponseReceived(m: Lcp, p: Packet, now: Millis)
    requires Invariant(m) && Negotiating(m.state)
    ensures var s := ReceiveConfigureAck(m, p, now);
            && Announces(m, s) && KeepsAck(m, s.machine, p) && KeepsAgreement(m, s.machine)
            && s.machine.options == m.options
  {
    var s := ReceiveConfigureAck(m, p, now);
    if Acknowledges(p, m) && (m.state == AckReceived || m.state == Opened) {
      NewRequestAnnounces(m, s);
    } else {
      QuietAnnounces(m, s, ThisLayerUp(PeerOrDefault(m)));
    }
  }

  lemma NegativeResponseReceived(m: Lcp, options: seq<ConfigOption>, now: Millis, p: Packet)
    requires Invariant(m) && Negotiating(m.state) && |options| <= 256
    ensures var s := AfterNegativeResponse(m, options, now);
            Announces(m, s) && KeepsAck(m, s.machine, p) && KeepsAgreement(m, s.machine)
  {
    NewRequestAnnounces(m, AfterNegativeResponse(m, options, now));
  }

  lemma CorrectionReceived(m: Lcp, p: Packet, now: Millis)
    requires Invariant(m) && Negotiating(m.state)
    ensures var s := ReceiveConfigureNak(m, p, now);
            Announces(m, s) && KeepsAck(m, s.machine, p) && KeepsAgreement(m, s.machine)
    ensures var s := ReceiveConfigureReject(m, p, now);
            Announces(m, s) && KeepsAck(m, s.machine, p) && KeepsAgreement(m, s.machine)
  {
    ConfigureNakKeeps(m, p, now);
    ConfigureRejectKeeps(m, p, now);
    var nak, reject := ReceiveConfigureNak(m, p, now), ReceiveConfigureReject(m, p, now);
    if WellFormed(p.data) && p.identifier == m.requestIdentifier {
      var list := ParseOptions(p.data).value;
      if HasRepeatedTypes(list) { QuietAnnounces(m, nak, ThisLayerDown); }
      else { NegativeResponseReceived(m, ApplyNak(m.options, list), now, p); }
      var kept := ApplyReject(m.options, list);
      if kept.None? { QuietAnnounces(m, reject, ThisLayerDown); }
      else {
        LcpConvergence.WithoutKeeps(m.options, list);
        NegativeResponseReceived(m, kept.value, now, p);
      }
    } else {
      QuietAnnounces(m, nak, ThisLayerDown);
      QuietAnnounces(m, reject, ThisLayerDown);
    }
  }

  lemma MaintenanceReceived(m: Lcp, p: Packet)
    requires Invariant(m) && m.state != Closed && m.state != Stopped
    ensures Announces(m, ReceiveTerminateRequest(m, p)) && Announces(m, ReceiveTerminateAck(m, p))
    ensures Announces(m, ReceiveEchoRequest(m, p)) && Announces(m, ReceiveUnknownCode(m, p))
  {
    var acknowledgment := Packet(TERMINATE_ACK, p.identifier, []);
    PacketsOfOne(SendPacket(acknowledgment));
    LastRequestOfOne(acknowledgment);
    if m.state == Opened {
      PacketsOfOne(ThisLayerDown);
      PacketsOfTwo(SendPacket(acknowledgment), ThisLayerDown);
      assert [SendPacket(acknowledgment)] + DownIfOpened(m) == [SendPacket(acknowledgment), ThisLayerDown];
    } else {
      assert [SendPacket(acknowledgment)] + DownIfOpened(m) == [SendPacket(acknowledgment)];
    }
    QuietAnnounces(m, ReceiveTerminateAck(m, p), ThisLayerFinished);
    EchoAnnounces(m, p);
    UnknownCodeAnnounces(m, p);
  }

  lemma EchoAnnounces(m: Lcp, p: Packet)
    requires Invariant(m)
    ensures Announces(m, ReceiveEchoRequest(m, p))
  {
    var s := ReceiveEchoRequest(m, p);
    if m.state == Opened && |p.data| >= 4 && !(s.outcome.Done? && s.outcome.ignored.Some?) {
      var own := if m.acknowledgedMagic.Some? then m.acknowledgedMagic.value else 0;
      var data := BigEndian32(own) + Clip(p.data[4..], Max(PeerOrDefault(m).transmitMru, 8) - 8);
      OtherPacketAnnounces(m, s, Packet(ECHO_REPLY, p.identifier, data));
    } else {
      QuietAnnounces(m, s, ThisLayerDown);
    }
  }

  lemma UnknownCodeAnnounces(m: Lcp, p: Packet)
    requires Invariant(m)
    ensures Announces(m, ReceiveUnknownCode(m, p))
  {
    var limit := Max(PeerOrDefault(m).transmitMru, 8) - HEADER_LENGTH;
    var whole := [p.code, p.identifier] + BigEndian16((HEADER_LENGTH + |p.data|) % 0x1_0000) + p.data;
    OtherPacketAnnounces(m, ReceiveUnknownCode(m, p), Packet(CODE_REJECT, FreshIdentifier(m), Clip(whole, limit)));
  }

  /** Outside the negotiation proper nothing happens, or one of the four maintenance answers. */
  lemma OtherwiseQuiet(m: Lcp, p: Packet, now: Millis, policy: Policy)
    requires !(Negotiating(m.state) && CONFIGURE_REQUEST <= p.code <= CONFIGURE_REJECT)
    ensures var s := ReceivePacket(m, p, now, policy);
            || (s.machine == m && s.outcome.Done? && s.outcome.actions == [])
            || (m.state != Closed && m.state != Stopped
                && (|| s == ReceiveTerminateRequest(m, p) || s == ReceiveTerminateAck(m, p)
                    || s == ReceiveEchoRequest(m, p) || s == ReceiveUnknownCode(m, p)))
  {
  }

  lemma OtherPacketAnnounced(m: Lcp, p: Packet, now: Millis, policy: Policy)
    requires Invariant(m)
    requires !(Negotiating(m.state) && CONFIGURE_REQUEST <= p.code <= CONFIGURE_REJECT)
    ensures Announces(m, ReceivePacket(m, p, now, policy))
  {
    var s := ReceivePacket(m, p, now, policy);
    OtherwiseQuiet(m, p, now, policy);
    if s.machine == m && s.outcome.Done? && s.outcome.actions == [] {
      QuietAnnounces(m, s, ThisLayerDown);
    } else {
      MaintenanceReceived(m, p);
    }
  }

  /** Packets that are ignored or answered without touching the negotiation. */
  lemma OtherPacketReceived(m: Lcp, p: Packet, now: Millis, policy: Policy)
    requires !(Negotiating(m.state) && CONFIGURE_REQUEST <= p.code <= CONFIGURE_REJECT)
    ensures var s := ReceivePacket(m, p, now, policy).machine;
            && s.options == m.options
            && (s.state == m.state || !Negotiating(s.state))
            && s.peer == (if s.state == m.state then m.peer else None)
            && (s.state == m.state ==> s.requestIdentifier == m.requestIdentifier)
            && (p.code == CONFIGURE_REQUEST ==> s == m && !Negotiating(m.state))
  {
  }

  lemma PacketReceived(m: Lcp, p: Packet, now: Millis, policy: Policy)
    requires Invariant(m) && |p.data| <= MAXIMUM_DATA
    ensures var s := ReceivePacket(m, p, now, policy);
            && Announces(m, s) && KeepsAck(m, s.machine, p)
            && (p.code != CONFIGURE_REQUEST ==> KeepsAgreement(m, s.machine))
            && (p.code == CONFIGURE_REQUEST && WellFormed(p.data) && HasAgreed(s.machine)
                ==> s.machine.peer == Some(Denote(ParseOptions(p.data).value)))
            && (p.code == CONFIGURE_REQUEST ==> s.machine.options == m.options)
  {
    if Negotiating(m.state) && p.code == CONFIGURE_REQUEST {
      ConfigureRequestReceived(m, p, now, policy);
    } else if Negotiating(m.state) && p.code == CONFIGURE_ACK {
      ConfigureResponseReceived(m, p, now);
    } else if Negotiating(m.state) && (p.code == CONFIGURE_NAK || p.code == CONFIGURE_REJECT) {
      CorrectionReceived(m, p, now);
    } else {
      OtherPacketAnnounced(m, p, now, policy);
      OtherPacketReceived(m, p, now, policy);
    }
  }

  // ----- The link -----

  lemma {:induction false} PacketsFrom(actions: seq<Action>)
    requires forall k | 0 <= k < |actions| :: Encodable(actions[k])
    ensures forall k | 0 <= k < |Packets(actions)| :: EncodePacket(Packets(actions)[k]).Ok?
  {
    if actions != [] {
      PacketsFrom(actions[..|actions| - 1]);
    }
  }

  /** A's step reaches B's half only through the packets it sends. */
  lemma EmitKeepsOtherHalf(l: Link, s: Step)
    requires LinkInvariant(l) && Announces(l.a, s) && Keeps(l.a, s)
    ensures HalfInvariant(Swap(Emit(l, s)))
  {
    var sent := PacketsOf(s);
    var l' := Emit(l, s);
    LastRequestAppend(l.toB, sent);
    PacketsFrom(s.outcome.actions);
    assert l'.toB == l.toB + sent && l'.sentByA == l.sentByA + sent;
    forall k | 0 <= k < |l'.toB|
      ensures EncodePacket(l'.toB[k]).Ok? && l'.toB[k] in l'.sentByA
    {
      if k < |l.toB| {
        assert Swap(l).toA[k] in l.sentByA;
      } else {
        assert l'.toB[k] == sent[k - |l.toB|];
      }
    }
    if l.b.state == AckReceived || l.b.state == Opened {
      var k :| 0 <= k < |l.sentByA| && Acknowledges(l.sentByA[k], l.b);
      assert l'.sentByA[k] == l.sentByA[k];
    }
  }

  lemma CallKeepsLink(l: Link, call: Call)
    requires LinkInvariant(l) && !call.ReceiveCall?
    ensures LinkInvariant(Emit(l, Apply(l.a, call)))
  {
    CallKeeps(l.a, call);
    CallAnnounces(l.a, call);
    EmitKeepsOtherHalf(l, Apply(l.a, call));
    var s := Apply(l.a, call).machine;
    if s.state == AckReceived || s.state == Opened {
      var k :| 0 <= k < |l.sentByB| && Acknowledges(l.sentByB[k], l.a);
      assert Acknowledges(l.sentByB[k], s);
    }
  }

  /** Taking the head off a channel leaves its reader informed about what it has just read. */
  lemma ReadKeepsInformed(l: Link, s: Step, now: Millis, policy: Policy)
    requires HalfInvariant(l) && l.toA != [] && |l.toA[0].data| <= MAXIMUM_DATA
    requires s == ReceivePacket(l.a, l.toA[0], now, policy)
    ensures Informed(s.machine, l.b, l.toA[1..])
  {
    var p := l.toA[0];
    PacketReceived(l.a, p, now, policy);
    LastRequestFront(l.toA);
    if p.code == CONFIGURE_REQUEST && LastRequest(l.toA[1..]).None? {
      EncodedOptionsParse(l.b.options);
    }
  }

  /** What was encoded is received as it was sent. */
  lemma WireIsReceived(m: Lcp, p: Packet, now: Millis, policy: Policy)
    requires EncodePacket(p).Ok?
    ensures var s := ReceivePacket(m, p, now, policy);
            Receive(m, Wire(p), now, policy) == s && |p.data| <= MAXIMUM_DATA
  {
    PacketRoundTrip(p, []);
    assert Wire(p) + [] == Wire(p);
  }

  lemma ReadKeepsAck(l: Link, s: Lcp)
    requires HalfInvariant(l) && l.toA != [] && KeepsAck(l.a, s, l.toA[0])
    ensures s.state == AckReceived || s.state == Opened ==> WasAcked(s, l.sentByB)
  {
    var p := l.toA[0];
    if s.state == AckReceived || s.state == Opened {
      if Acknowledges(p, l.a) {
        assert p in l.sentByB;
        var k :| 0 <= k < |l.sentByB| && l.sentByB[k] == p;
        assert Acknowledges(l.sentByB[k], s);
      } else {
        var k :| 0 <= k < |l.sentByB| && Acknowledges(l.sentByB[k], l.a);
        assert Acknowledges(l.sentByB[k], s);
      }
    }
  }

  /** A's own half after it has read the head of its channel. */
  lemma ReadKeepsHalf(l: Link, s: Step)
    requires HalfInvariant(l) && l.toA != []
    requires Invariant(s.machine) && Informed(s.machine, l.b, l.toA[1..])
    requires s.machine.state == AckReceived || s.machine.state == Opened ==> WasAcked(s.machine, l.sentByB)
    ensures HalfInvariant(Emit(l.(toA := l.toA[1..]), s))
  {
    var l' := Emit(l.(toA := l.toA[1..]), s);
    forall k | 0 <= k < |l'.toA|
      ensures EncodePacket(l'.toA[k]).Ok? && l'.toA[k] in l'.sentByB
    {
      assert l'.toA[k] == l.toA[k + 1];
    }
  }

  lemma DeliverKeepsLink(l: Link, now: Millis, policy: Policy)
    requires LinkInvariant(l)
    ensures LinkInvariant(Deliver(l, now, policy))
  {
    if l.toA != [] {
      var p := l.toA[0];
      var s := ReceivePacket(l.a, p, now, policy);
      WireIsReceived(l.a, p, now, policy);
      ReceiveKeeps(l.a, p, now, policy);
      PacketReceived(l.a, p, now, policy);
      ReadKeepsInformed(l, s, now, policy);
      ReadKeepsAck(l, s.machine);
      ReadKeepsHalf(l, s);
      EmitOther(l, l.(toA := l.toA[1..]), s);
    }
  }

  lemma ShorterOtherHalf(l: Link)
    requires HalfInvariant(Swap(l)) && l.toA != []
    ensures HalfInvariant(Swap(l.(toA := l.toA[1..])))
  {
  }

  lemma EmitOther(l: Link, shorter: Link, s: Step)
    requires LinkInvariant(l) && l.toA != [] && shorter == l.(toA := l.toA[1..])
    requires Announces(l.a, s) && Keeps(l.a, s)
    ensures HalfInvariant(Swap(Emit(shorter, s)))
  {
    EmitKeepsOtherHalf(l, s);
    ShorterOtherHalf(Emit(l, s));
    assert Emit(l, s).(toA := l.toA[1..]) == Emit(shorter, s);
  }

  lemma EventKeepsLink(l: Link, e: LinkEvent)
    requires LinkInvariant(l)
    ensures LinkInvariant(Happen(l, e))
  {
    assert Swap(Swap(l)) == l;
    match e {
      case CallA(call) => if !call.ReceiveCall? { CallKeepsLink(l, call); }
      case CallB(call) =>
        if !call.ReceiveCall? {
          CallKeepsLink(Swap(l), call);
          assert Swap(Swap(Emit(Swap(l), Apply(l.b, call)))) == Emit(Swap(l), Apply(l.b, call));
        }
      case DeliverToA(now, policy) => DeliverKeepsLink(l, now, policy);
      case DeliverToB(now, policy) =>
        DeliverKeepsLink(Swap(l), now, policy);
        assert Swap(Swap(Deliver(Swap(l), now, policy))) == Deliver(Swap(l), now, policy);
    }
  }

  lemma {:induction false} RunKeepsLink(a: Lcp, b: Lcp, events: seq<LinkEvent>)
    requires Invariant(a) && Invariant(b) && a.state == Closed && b.state == Closed
    ensures LinkInvariant(RunLink(Fresh(a, b), events))
  {
    if events != [] {
      RunKeepsLink(a, b, events[..|events| - 1]);
      EventKeepsLink(RunLink(Fresh(a, b), events[..|events| - 1]), events[|events| - 1]);
    }
  }

  /** Whatever happened before: an Opened machine with no request of its peer on the way knows
      exactly what the peer's present options denote, and the peer did acknowledge its own options
      under its own identifier. */
  lemma OpenedMachinesAgree(optionsA: seq<ConfigOption>, settingsA: Settings,
                            optionsB: seq<ConfigOption>, settingsB: Settings, events: seq<LinkEvent>)
    requires |optionsA| <= 256 && |optionsB| <= 256
    ensures var l := RunLink(Fresh(New(optionsA, settingsA), New(optionsB, settingsB)), events);
            && (l.a.state == Opened && LastRequest(l.toA).None? ==> l.a.peer == Some(Denote(l.b.options)))
            && (l.a.state == Opened ==> WasAcked(l.a, l.sentByB))
            && (l.b.state == Opened && LastRequest(l.toB).None? ==> l.b.peer == Some(Denote(l.a.options)))
            && (l.b.state == Opened ==> WasAcked(l.b, l.sentByA))
  {
    RunKeepsLink(New(optionsA, settingsA), New(optionsB, settingsB), events);
  }
}
