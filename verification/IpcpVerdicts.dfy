/** Which requests of the peer the IPCP client acknowledges and what its own requests say, on octets; when they go out
    and under which identifiers; which transition of the table any input is, or why it is ignored. */
module IpcpVerdicts {
  import opened Octets
  import opened LcpCodec
  import opened LcpPolicy
  import opened LcpConvergence
  import opened Rfc1661
  import opened IpcpPolicy
  import opened IpcpSpec
  import opened IpcpClient

  // ----- The peer's request -----

  /** Four octets that are not all zero. */
  predicate IsAddress(b: Bytes) { |b| == 4 && b != [0, 0, 0, 0] }

  /** Another type than IP-Address, a second option of its type, or no address where none can be suggested. */
  predicate Objectionable(options: seq<ConfigOption>, k: nat, preferred: Address)
    requires k < |options|
  {
    || options[k].kind != 3
    || (exists j | 0 <= j < |options| && j != k :: options[j].kind == options[k].kind)
    || (!IsAddress(options[k].data) && preferred == [0, 0, 0, 0])
  }

  /** The objectionable options at the first `n` places, in order. */
  function ObjectedUpTo(options: seq<ConfigOption>, n: nat, preferred: Address): seq<ConfigOption>
    requires n <= |options|
  {
    if n == 0 then []
    else
      ObjectedUpTo(options, n - 1, preferred)
      + if Objectionable(options, n - 1, preferred) then [options[n - 1]] else []
  }

  lemma RepeatedElsewhere(options: seq<ConfigOption>, k: nat)
    requires k < |options|
    ensures Repeated(options, options[k].kind)
            <==> exists j | 0 <= j < |options| && j != k :: options[j].kind == options[k].kind
  {
    if j :| 0 <= j < |options| && j != k && options[j].kind == options[k].kind {
      if j < k { assert options[j].kind == options[k].kind; } else { assert options[k].kind == options[j].kind; }
    }
  }

  lemma JudgedBy(options: seq<ConfigOption>, k: nat, preferred: Address)
    requires k < |options|
    ensures AddressVerdicts(options, preferred)[k] == Refuse <==> Objectionable(options, k, preferred)
  {
    RepeatedElsewhere(options, k);
  }

  lemma {:induction false} RefusedNext(options: seq<ConfigOption>, verdicts: seq<Disposition>, n: nat)
    requires |options| == |verdicts| && n < |options|
    ensures Refused(options[..n + 1], verdicts[..n + 1])
            == Refused(options[..n], verdicts[..n]) + if verdicts[n].Refuse? then [options[n]] else []
  {
    if n == 0 {
      assert options[..1][1..] == [] && verdicts[..1][1..] == [];
    } else {
      RefusedNext(options[1..], verdicts[1..], n - 1);
      assert options[..n + 1][1..] == options[1..][..n] && options[..n][1..] == options[1..][..n - 1];
      assert verdicts[..n + 1][1..] == verdicts[1..][..n] && verdicts[..n][1..] == verdicts[1..][..n - 1];
    }
  }

  lemma {:induction false} RefusedAre(options: seq<ConfigOption>, n: nat, preferred: Address)
    requires n <= |options|
    ensures Refused(options[..n], AddressVerdicts(options, preferred)[..n]) == ObjectedUpTo(options, n, preferred)
  {
    if n > 0 {
      RefusedAre(options, n - 1, preferred);
      RefusedNext(options, AddressVerdicts(options, preferred), n - 1);
      JudgedBy(options, n - 1, preferred);
    }
  }

  /** An empty request is acknowledged, and one IP-Address option that is an address; one that is none is answered with
      the preferred address if there is one; whatever else is asked is rejected, by its objectionable options. */
  lemma PeerIsJudged(options: seq<ConfigOption>, preferred: Address)
    ensures EvaluatePeer(options, preferred)
            == if options == [] then AckPeer(None)
               else if |options| == 1 && options[0].kind == 3 && IsAddress(options[0].data)
               then AckPeer(Some(options[0].data))
               else if |options| == 1 && options[0].kind == 3 && preferred != [0, 0, 0, 0]
               then NakPeer([RawOption(3, preferred)])
               else RejectPeer(ObjectedUpTo(options, |options|, preferred))
  {
    RefusedAre(options, |options|, preferred);
    assert options[..|options|] == options;
    assert AddressVerdicts(options, preferred)[..|options|] == AddressVerdicts(options, preferred);
    if |options| == 1 && options[0].kind == 3 && !IsAddress(options[0].data) && preferred == [0, 0, 0, 0] {
      assert Objectionable(options, 0, preferred);
      assert ObjectedUpTo(options, 1, preferred) == ObjectedUpTo(options, 0, preferred) + [options[0]];
      assert ObjectedUpTo(options, 0, preferred) == [];
    }
  }

  // ----- The client's own request -----

  /** The options still asked for, as octets: IP-Address, Primary-DNS-Address and Secondary-DNS-Address. */
  function Asked(c: Config): Bytes {
    (if c.askLocal then [3, 6] + c.local else [])
    + (if c.askPrimary then [129, 6] + c.primary else [])
    + (if c.askSecondary then [131, 6] + c.secondary else [])
  }

  lemma OneOption(kind: Octet, address: Address)
    ensures EncodeOptions([AddressOption(kind, address)]) == [kind, 6] + address
  {
    assert EncodeOptions([]) == [];
  }

  lemma RequestAsks(c: Config)
    ensures EncodeOptions(LocalOptions(c)) == Asked(c)
  {
    var first := if c.askLocal then [AddressOption(3, c.local)] else [];
    var second := if c.askPrimary then [AddressOption(129, c.primary)] else [];
    var third := if c.askSecondary then [AddressOption(131, c.secondary)] else [];
    assert EncodeOptions([]) == [];
    OneOption(3, c.local);
    OneOption(129, c.primary);
    OneOption(131, c.secondary);
    EncodeOptionsAppend(first + second, third);
    EncodeOptionsAppend(first, second);
  }

  /** A rejected option is not asked for again: a name server's address is forgotten, the own one kept. */
  predicate Forgotten(c: Config, d: Config) {
    && d.local == c.local && d.peer == c.peer
    && (d.askLocal ==> c.askLocal) && (d.askPrimary ==> c.askPrimary) && (d.askSecondary ==> c.askSecondary)
    && d.primary == (if c.askPrimary && !d.askPrimary then [0, 0, 0, 0] else c.primary)
    && d.secondary == (if c.askSecondary && !d.askSecondary then [0, 0, 0, 0] else c.secondary)
  }

  lemma {:induction false} RejectForgets(c: Config, options: seq<ConfigOption>)
    ensures Forgotten(c, Each(Drop, c, options).0)
    decreases |options|
  {
    if options != [] && Drop(c, options[0]).Some? {
      RejectForgets(Drop(c, options[0]).value, options[1..]);
    }
  }

  // ----- When requests go out, and under which identifiers -----

  datatype Call = OpenCall | LowerDownCall | PollCall | ReceiveCall(input: Bytes)

  function Apply(c: Ipcp, call: Call, now: Millis): Step {
    match call
    case OpenCall => Open(c, now)
    case LowerDownCall => LowerDown(c)
    case PollCall => PollTimeout(c, now)
    case ReceiveCall(input) => Receive(c, input, now)
  }

  predicate Waits(s: State) { s == RequestSent || s == AckReceived || s == AckSent }

  predicate Runs(c: Ipcp) { c.deadline.Some? <==> Waits(c.state) }

  predicate Asks(a: Action) { a.Send? && a.octets != [] && a.octets[0] == 1 }

  predicate AnyAsks(actions: seq<Action>) { exists k | 0 <= k < |actions| :: Asks(actions[k]) }

  /** The present request: code, identifier, length, options. */
  function RequestOctets(c: Ipcp): Bytes {
    [1, c.requestIdentifier] + BigEndian16((4 + |Asked(c.config)|) % 0x1_0000) + Asked(c.config)
  }

  lemma RequestIs(c: Ipcp)
    ensures Wire(Request(c)) == RequestOctets(c) && Asks(Send(Wire(Request(c))))
  {
    RequestAsks(c.config);
  }

  /** The timer starts with every request, goes on while an answer is waited for and is off otherwise. */
  predicate Timed(c: Ipcp, now: Millis, s: Step) {
    if AnyAsks(s.transition.actions)
    then
      s.client.deadline.Some?
      && s.client.deadline.value == Min(now + c.settings.restartIntervalMs, 0xffff_ffff_ffff_ffff)
    else s.client.deadline == if Waits(s.client.state) then c.deadline else None
  }

  /** A request is the present one, under a new identifier unless it is repeated; without one the identifier stays. */
  predicate Numbered(c: Ipcp, s: Step, repeated: bool) {
    var asked := AnyAsks(s.transition.actions);
    && (forall k | 0 <= k < |s.transition.actions| && Asks(s.transition.actions[k]) ::
          s.transition.actions[k] == Send(RequestOctets(s.client)))
    && s.client.requestIdentifier == (if asked && !repeated then (c.nextIdentifier + 1) % 256 else c.requestIdentifier)
    && s.client.nextIdentifier == (if asked && !repeated then (c.nextIdentifier + 1) % 256 else c.nextIdentifier)
  }

  lemma AskedAt(actions: seq<Action>, k: nat)
    requires k < |actions| && Asks(actions[k])
    ensures AnyAsks(actions)
  {
  }

  lemma Quiet(c: Ipcp, now: Millis, s: Step, repeated: bool)
    requires forall k | 0 <= k < |s.transition.actions| :: !Asks(s.transition.actions[k])
    requires s.client.deadline == if Waits(s.client.state) then c.deadline else None
    requires s.client.requestIdentifier == c.requestIdentifier && s.client.nextIdentifier == c.nextIdentifier
    ensures Timed(c, now, s) && Numbered(c, s, repeated)
  {
  }

  lemma RenegotiationTimed(c: Ipcp, now: Millis, reset: bool, state: ClientState)
    ensures var s := Renegotiate(c, now, reset, state); Timed(c, now, s) && Numbered(c, s, false)
  {
    var s := Renegotiate(c, now, reset, state);
    RequestIs(s.client);
    AskedAt(s.transition.actions, |DownIfOpened(c)|);
  }

  lemma OpenTimed(c: Ipcp, now: Millis)
    requires Runs(c)
    ensures Timed(c, now, Open(c, now)) && Numbered(c, Open(c, now), false)
  {
    var s := Open(c, now);
    if c.state == Opened {
      Quiet(c, now, s, false);
    } else {
      RequestIs(s.client);
      AskedAt(s.transition.actions, 0);
    }
  }

  lemma PollTimed(c: Ipcp, now: Millis)
    requires Runs(c)
    ensures var s := PollTimeout(c, now); Timed(c, now, s) && Numbered(c, s, true)
  {
    var s := PollTimeout(c, now);
    if c.deadline.None? || now < c.deadline.value || c.restartRemaining == 0 {
      Quiet(c, now, s, true);
    } else {
      RequestIs(s.client);
      AskedAt(s.transition.actions, 0);
    }
  }

  lemma AnswerIsNoRequest(packet: Packet, evaluation: PeerEvaluation)
    ensures !Asks(Send(Wire(AnswerTo(packet, evaluation))))
  {
  }

  lemma RestartBeforeAnswer(c: Ipcp, now: Millis, s: Step, answer: Action)
    requires s.transition.actions == [LayerDown, Send(Wire(Request(s.client)))] && !Asks(answer)
    requires s.client.deadline == Restarted(c, now)
    requires s.client.requestIdentifier == s.client.nextIdentifier == (c.nextIdentifier + 1) % 256
    ensures var t := Step(s.client, Transition(s.transition.actions + [answer], None));
            Timed(c, now, t) && Numbered(c, t, false)
  {
    RequestIs(s.client);
    AskedAt(s.transition.actions + [answer], 1);
  }

  lemma AnswerTimed(c: Ipcp, good: bool, answer: Action, now: Millis)
    requires Runs(c) && Negotiating(c.state) && !Asks(answer)
    ensures var s := Answer(c, good, answer, now); Timed(c, now, s) && Numbered(c, s, false)
  {
    if c.state == Opened {
      RestartBeforeAnswer(c, now, Renegotiate(c, now, true, if good then AckSent else RequestSent), answer);
    } else {
      Quiet(c, now, Answer(c, good, answer, now), false);
    }
  }

  lemma RequestTimed(c: Ipcp, packet: Packet, now: Millis)
    requires Runs(c) && Negotiating(c.state)
    ensures var s := ReceiveConfigureRequest(c, packet, now); Timed(c, now, s) && Numbered(c, s, false)
  {
    match ParseOptions(packet.data) {
      case Err(_) => Quiet(c, now, ReceiveConfigureRequest(c, packet, now), false);
      case Ok(options) =>
        var evaluation := EvaluatePeer(options, c.settings.preferredPeer);
        AnswerIsNoRequest(packet, evaluation);
        AnswerTimed(Told(c, evaluation), evaluation.AckPeer?, Send(Wire(AnswerTo(packet, evaluation))), now);
    }
  }

  lemma AckTimed(c: Ipcp, packet: Packet, now: Millis)
    requires Runs(c) && Negotiating(c.state)
    ensures var s := ReceiveConfigureAck(c, packet, now); Timed(c, now, s) && Numbered(c, s, false)
  {
    var s := ReceiveConfigureAck(c, packet, now);
    if s.transition.ignored.None? && (c.state == AckReceived || c.state == Opened) {
      RenegotiationTimed(c, now, false, RequestSent);
    } else {
      Quiet(c, now, s, false);
    }
  }

  lemma CorrectionTimed(c: Ipcp, next: Ipcp, now: Millis)
    requires Runs(c) && Negotiating(c.state) && next == c.(config := next.config)
    ensures var s := AfterNegativeResponse(next, now); Timed(c, now, s) && Numbered(c, s, false)
  {
    RenegotiationTimed(next, now, c.state == RequestSent || c.state == AckSent,
                       if c.state == AckSent then AckSent else RequestSent);
  }

  lemma NegativeTimed(step: (Config, ConfigOption) -> Option<Config>, c: Ipcp, packet: Packet, now: Millis)
    requires Runs(c) && Negotiating(c.state)
    ensures var s := ReceiveNegativeResponse(step, c, packet, now); Timed(c, now, s) && Numbered(c, s, false)
  {
    var s := ReceiveNegativeResponse(step, c, packet, now);
    if s.transition.ignored.Some? {
      Quiet(c, now, s, false);
    } else {
      CorrectionTimed(c, c.(config := Each(step, c.config, ParseOptions(packet.data).value).0), now);
    }
  }

  lemma PacketTimed(c: Ipcp, packet: Packet, now: Millis)
    requires Runs(c) && Negotiating(c.state)
    ensures var s := ReceivePacket(c, packet, now); Timed(c, now, s) && Numbered(c, s, false)
  {
    match packet.code {
      case 1 => RequestTimed(c, packet, now);
      case 2 => AckTimed(c, packet, now);
      case 3 => NegativeTimed(Take, c, packet, now);
      case 4 => NegativeTimed(Drop, c, packet, now);
      case _ => Quiet(c, now, ReceivePacket(c, packet, now), false);
    }
  }

  /** In every state and for every call: the timer starts with a request, expires the interval later and stops when
      nothing is waited for; every request is the present one and bears a new identifier unless it is repeated. */
  lemma RequestsAreTimed(c: Ipcp, call: Call, now: Millis)
    requires Runs(c)
    ensures var s := Apply(c, call, now); Runs(s.client) && Timed(c, now, s) && Numbered(c, s, call.PollCall?)
  {
    match call {
      case OpenCall => OpenTimed(c, now);
      case LowerDownCall => Quiet(c, now, LowerDown(c), false);
      case PollCall => PollTimed(c, now);
      case ReceiveCall(input) =>
        if Negotiating(c.state) && ParsePacket(input).Ok? { PacketTimed(c, ParsePacket(input).value, now); }
        else { Quiet(c, now, Receive(c, input, now), false); }
    }
    RunsOn(c, call, now);
  }

  lemma ReceivingRunsOn(c: Ipcp, packet: Packet, now: Millis)
    requires Runs(c) && Negotiating(c.state)
    ensures Runs(ReceivePacket(c, packet, now).client)
  {
  }

  lemma RunsOn(c: Ipcp, call: Call, now: Millis)
    requires Runs(c)
    ensures Runs(Apply(c, call, now).client)
  {
    if call.ReceiveCall? && Negotiating(c.state) && ParsePacket(call.input).Ok? {
      ReceivingRunsOn(c, ParsePacket(call.input).value, now);
    }
  }

  /** The configured addresses of both ends, and everything still to be asked for. */
  function Nothing(s: Settings): Config {
    Config(s.requestedLocal, s.preferredPeer, [0, 0, 0, 0], [0, 0, 0, 0], true, true, true)
  }

  /** The first request of a connection: the configured address and two name servers not known yet. */
  lemma OpenAsks(c: Ipcp, now: Millis)
    requires c.state != Opened
    ensures var (s, identifier) := (Open(c, now), (c.nextIdentifier + 1) % 256);
            && s.transition == Transition([Send([1, identifier, 0, 22, 3, 6] + c.settings.requestedLocal
                                                + [129, 6, 0, 0, 0, 0, 131, 6, 0, 0, 0, 0])], None)
            && s.client.config == Nothing(c.settings) && LowerDown(c).client.config == Nothing(c.settings)
  {
    var s := Open(c, now);
    RequestIs(s.client);
    FirstOctets((c.nextIdentifier + 1) % 256, c.settings.requestedLocal);
  }

  lemma FirstOctets(identifier: Octet, local: Address)
    ensures [1, identifier] + BigEndian16(22) + ([3, 6] + local + ([129, 6] + UNSPECIFIED) + ([131, 6] + UNSPECIFIED))
            == [1, identifier, 0, 22, 3, 6] + local + [129, 6, 0, 0, 0, 0, 131, 6, 0, 0, 0, 0]
  {
  }

  // ----- What any input is -----

  function ViewOf(c: Ipcp): View { View(c.state, c.restartRemaining, c.deadline.Some?) }

  /** The step is this transition of the table, and the layer above is told the addresses as they are behind it. */
  predicate IsTransition(c: Ipcp, e: Rfc1661.Event, s: Step) {
    && s.transition.ignored.None?
    && Follows(ViewOf(c), e, ViewOf(s.client), ActsOf(s.transition.actions), c.settings.maxConfigure)
    && forall k | 0 <= k < |s.transition.actions| && s.transition.actions[k].LayerUp? ::
         var d := s.client.config;
         s.transition.actions[k].addresses == Addresses(d.local, d.peer, d.primary, d.secondary)
  }

  predicate GoodRequest(options: seq<ConfigOption>) {
    options == [] || (|options| == 1 && options[0].kind == 3 && IsAddress(options[0].data))
  }

  /** A non-empty list without repeated types under the identifier of the present request. */
  predicate Responds(c: Ipcp, packet: Packet) {
    && packet.identifier == c.requestIdentifier && packet.data != [] && WellFormed(packet.data)
    && NoRepeats(ParseOptions(packet.data).value)
  }

  /** The event of the automaton a packet is, if it is one. */
  function EventOf(c: Ipcp, packet: Packet): Option<Rfc1661.Event> {
    if packet.code == 1 && WellFormed(packet.data) then
      Some(if GoodRequest(ParseOptions(packet.data).value) then RcrPlus else RcrMinus)
    else if packet.code == 2 && packet.identifier == c.requestIdentifier && packet.data == Asked(c.config) then
      Some(Rca)
    else if packet.code == 3 && Responds(c, packet)
            && forall o | o in ParseOptions(packet.data).value :: Wanted(c.config, o) then Some(Rcn)
    else if packet.code == 4 && Responds(c, packet)
            && forall o | o in ParseOptions(packet.data).value :: o in LocalOptions(c.config) then Some(Rcn)
    else None
  }

  lemma AnswerFollows(c: Ipcp, good: bool, answer: Action, now: Millis)
    requires Runs(c) && Negotiating(c.state) && ActOf(answer) == if good then Sca else Scn
    ensures IsTransition(c, if good then RcrPlus else RcrMinus, Answer(c, good, answer, now))
  {
    var s := Answer(c, good, answer, now);
    RequestIs(s.client);
    if c.state == Opened {
      assert ActsOf(s.transition.actions) == [Tld, Scr, if good then Sca else Scn];
    } else if s.client.state == Opened {
      assert ActsOf(s.transition.actions) == [Sca, Tlu];
    } else {
      assert ActsOf(s.transition.actions) == [if good then Sca else Scn];
    }
  }

  lemma RequestFollows(c: Ipcp, packet: Packet, now: Millis)
    requires Runs(c) && Negotiating(c.state) && |packet.data| <= 0xffff - HEADER_LENGTH && WellFormed(packet.data)
    ensures var good := GoodRequest(ParseOptions(packet.data).value);
            IsTransition(c, if good then RcrPlus else RcrMinus, ReceiveConfigureRequest(c, packet, now))
  {
    var options := ParseOptions(packet.data).value;
    var evaluation := EvaluatePeer(options, c.settings.preferredPeer);
    var answer := Send(Wire(AnswerTo(packet, evaluation)));
    PeerIsJudged(options, c.settings.preferredPeer);
    AnswerFits(packet, c.settings.preferredPeer);
    assert evaluation.AckPeer? <==> GoodRequest(options);
    AnswerFollows(Told(c, evaluation), evaluation.AckPeer?, answer, now);
  }

  /** The reply to a request, under its identifier: its own options, the preferred address or what is objected to. */
  function Reply(packet: Packet, options: seq<ConfigOption>, preferred: Address): Packet {
    if GoodRequest(options) then Packet(2, packet.identifier, packet.data)
    else if |options| == 1 && options[0].kind == 3 && preferred != [0, 0, 0, 0] then
      Packet(3, packet.identifier, [3, 6] + preferred)
    else Packet(4, packet.identifier, EncodeOptions(ObjectedUpTo(options, |options|, preferred)))
  }

  /** Every well-formed request of the peer is answered so, and its address is the one last acknowledged. */
  lemma RequestIsAnswered(c: Ipcp, packet: Packet, now: Millis)
    requires Negotiating(c.state) && packet.code == 1 && WellFormed(packet.data)
    ensures var (s, options) := (ReceivePacket(c, packet, now), ParseOptions(packet.data).value);
            && Send(Wire(Reply(packet, options, c.settings.preferredPeer))) in s.transition.actions
            && s.client.config == if GoodRequest(options) && options != [] then c.config.(peer := options[0].data)
                                  else c.config
  {
    var (options, preferred) := (ParseOptions(packet.data).value, c.settings.preferredPeer);
    PeerIsJudged(options, preferred);
    OneOption(3, preferred);
    assert AnswerTo(packet, EvaluatePeer(options, preferred)) == Reply(packet, options, preferred);
  }

  lemma AckFollows(c: Ipcp, now: Millis)
    requires Runs(c) && Negotiating(c.state)
    ensures IsTransition(c, Rca, Acknowledged(c, now))
  {
    var s := Acknowledged(c, now);
    RequestIs(s.client);
    if c.state == RequestSent {
      assert ActsOf(s.transition.actions) == [];
    } else if c.state == AckSent {
      assert ActsOf(s.transition.actions) == [Tlu];
    } else {
      assert ActsOf(s.transition.actions) == if c.state == Opened then [Tld, Scr] else [Scr];
    }
  }

  lemma CorrectionFollows(c: Ipcp, now: Millis)
    requires Runs(c) && Negotiating(c.state)
    ensures IsTransition(c, Rcn, AfterNegativeResponse(c, now))
  {
    var s := AfterNegativeResponse(c, now);
    RequestIs(s.client);
    assert ActsOf(s.transition.actions) == if c.state == Opened then [Tld, Scr] else [Scr];
  }

  lemma EmptyList(data: Bytes)
    requires WellFormed(data)
    ensures ParseOptions(data).value == [] <==> data == []
  {
  }

  /** A Nak or a Reject is a transition exactly if it responds and every option of it is a valid one. */
  lemma NegativeFollows(step: (Config, ConfigOption) -> Option<Config>, c: Ipcp, packet: Packet, now: Millis)
    requires Runs(c) && Negotiating(c.state)
    ensures var s := ReceiveNegativeResponse(step, c, packet, now);
            if Responds(c, packet) && Each(step, c.config, ParseOptions(packet.data).value).1
            then IsTransition(c, Rcn, s)
            else s.transition.ignored.Some? && s.transition.actions == [] && s.client == c.(config := s.client.config)
  {
    if WellFormed(packet.data) {
      var options := ParseOptions(packet.data).value;
      EmptyList(packet.data);
      NoRepeatsMeansNoneRepeated(options);
      CorrectionFollows(c.(config := Each(step, c.config, options).0), now);
    }
  }

  lemma NakFollows(c: Ipcp, packet: Packet, now: Millis)
    requires Runs(c) && Negotiating(c.state) && packet.code == 3
    ensures Behaves(c, packet, ReceivePacket(c, packet, now))
  {
    if WellFormed(packet.data) { TakesAreValid(c.config, ParseOptions(packet.data).value); }
    NegativeFollows(Take, c, packet, now);
  }

  lemma RejectFollows(c: Ipcp, packet: Packet, now: Millis)
    requires Runs(c) && Negotiating(c.state) && packet.code == 4
    ensures Behaves(c, packet, ReceivePacket(c, packet, now))
  {
    if Responds(c, packet) {
      NoRepeatsMeansNoneRepeated(ParseOptions(packet.data).value);
      DropsAreValid(c.config, ParseOptions(packet.data).value);
    }
    NegativeFollows(Drop, c, packet, now);
  }

  /** What a packet does: the transition it is, or nothing but, under a Nak or a Reject, to the addresses. */
  predicate Behaves(c: Ipcp, packet: Packet, s: Step) {
    match EventOf(c, packet)
    case Some(e) => IsTransition(c, e, s)
    case None =>
      && s.transition.ignored.Some? && s.transition.actions == [] && s.client == c.(config := s.client.config)
      && (packet.code != 3 && packet.code != 4 ==> s.client == c)
  }

  lemma OwnAckFollows(c: Ipcp, packet: Packet, now: Millis)
    requires Runs(c) && Negotiating(c.state) && packet.code == 2
    ensures Behaves(c, packet, ReceivePacket(c, packet, now))
  {
    RequestAsks(c.config);
    AckFollows(c, now);
  }

  /** Any octets while negotiating: the one transition they are, or ignored for a reason that is true of them. */
  lemma ReceiveFollows(c: Ipcp, input: Bytes, now: Millis)
    requires Runs(c)
    ensures var s := Receive(c, input, now);
            if !Negotiating(c.state) then s == Step(c, Ignored(NotConfiguring))
            else
              match ParsePacket(input)
              case Err(e) => s == Step(c, Ignored(MalformedPacket(e)))
              case Ok(packet) =>
                && Behaves(c, packet, s)
                && (s.transition.ignored.Some? ==> Reason(c, packet, s.transition.ignored.value))
  {
    if Negotiating(c.state) && ParsePacket(input).Ok? {
      var packet := ParsePacket(input).value;
      match packet.code {
        case 1 => if WellFormed(packet.data) { RequestFollows(c, packet, now); }
        case 2 => OwnAckFollows(c, packet, now);
        case 3 => NakFollows(c, packet, now);
        case 4 => RejectFollows(c, packet, now);
        case _ =>
      }
    }
  }

  predicate Reason(c: Ipcp, packet: Packet, reason: IgnoreReason) {
    match reason
    case NotConfiguring => false
    case MalformedPacket(_) => false
    case MalformedOptions(e) =>
      packet.code in {1, 3, 4} && ParseOptions(packet.data) == Err(e)
      && (packet.code != 1 ==> packet.identifier == c.requestIdentifier)
    case InvalidConfigureResponse =>
      packet.code == 2
      || (3 <= packet.code <= 4 && (packet.identifier != c.requestIdentifier || WellFormed(packet.data)))
    case UnsupportedCode(code) => packet.code == code && !(1 <= code <= 4)
  }
}
