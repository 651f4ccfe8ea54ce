/** A looped-back line (section 6.4 of RFC 1661): a machine that hears only itself and has
    proposed a magic number does not open. */
module LcpLoopback {
  import opened Octets
  import opened LcpCodec
  import opened LcpPolicy
  import LcpConvergence
  import opened Rfc1661
  import opened LcpSpec
  import opened LcpRuns
  import opened LcpLink

  datatype Loop = Loop(m: Lcp, line: seq<Packet>)

  datatype LoopEvent = Environment(call: Call) | Echo(now: Millis, policy: Policy)

  /** The step an event makes; a packet at the head of the line is received by its own sender. */
  function StepOf(l: Loop, e: LoopEvent): Step {
    match e
    case Environment(call) => if call.ReceiveCall? then Step(l.m, QUIET) else Apply(l.m, call)
    case Echo(now, policy) => if l.line == [] then Step(l.m, QUIET) else Receive(l.m, Wire(l.line[0]), now, policy)
  }

  /** What is still travelling while the event is handled. */
  function Remaining(l: Loop, e: LoopEvent): seq<Packet> {
    if e.Echo? && l.line != [] then l.line[1..] else l.line
  }

  function Happens(l: Loop, e: LoopEvent): Loop {
    Loop(StepOf(l, e).machine, Remaining(l, e) + PacketsOf(StepOf(l, e)))
  }

  predicate Bears(line: seq<Packet>, identifier: Octet) {
    exists k | 0 <= k < |line| :: line[k].identifier == identifier
  }

  /** No identifier is allocated again while a packet bearing it is travelling. */
  predicate NoReuse(l: Loop, e: LoopEvent) {
    var next := StepOf(l, e).machine.nextIdentifier;
    next != l.m.nextIdentifier ==> !Bears(Remaining(l, e), next)
  }

  function RunLoop(l: Loop, events: seq<LoopEvent>): Loop {
    if events == [] then l else Happens(RunLoop(l, events[..|events| - 1]), events[|events| - 1])
  }

  predicate NeverReuses(l: Loop, events: seq<LoopEvent>) {
    forall k | 0 <= k < |events| :: NoReuse(RunLoop(l, events[..k]), events[k])
  }

  /** Exactly one Magic-Number option, and it has four octets. */
  predicate OneMagic(options: seq<ConfigOption>) {
    FirstMagic(options).Some? && !Repeated(options, MAGIC)
  }

  // ----- What may travel on the line -----

  predicate Harmless(m: Lcp, p: Packet) {
    var list := ParseOptions(p.data);
    && EncodePacket(p).Ok?
    && (p.code == CONFIGURE_REQUEST ==>
          && list.Ok? && OneMagic(list.value)
          && (p.identifier == m.requestIdentifier ==> list.value == m.options))
    && (p.code == CONFIGURE_ACK ==> p.identifier != m.requestIdentifier)
    && (p.code == CONFIGURE_NAK ==>
          list.Ok? && forall k | 0 <= k < |list.value| && list.value[k].kind == MAGIC :: IsMagic(list.value[k]))
    && (p.code == CONFIGURE_REJECT ==> list.Ok? && !Mentions(list.value, MAGIC))
  }

  predicate AllHarmless(m: Lcp, line: seq<Packet>) {
    forall k | 0 <= k < |line| :: Harmless(m, line[k])
  }

  predicate Unacknowledged(m: Lcp) {
    Invariant(m) && OneMagic(m.options) && m.state != AckReceived && m.state != Opened
  }

  /** The step leaves request identifier and options alone, or allocates a fresh identifier for them. */
  predicate SameRequest(m: Lcp, next: Lcp) {
    || (next.requestIdentifier == m.requestIdentifier && next.options == m.options)
    || (next.requestIdentifier == next.nextIdentifier && next.nextIdentifier != m.nextIdentifier)
  }

  predicate KeepsLoop(m: Lcp, s: Step) {
    Unacknowledged(s.machine) && SameRequest(m, s.machine) && AllHarmless(s.machine, PacketsOf(s))
  }

  // ----- The magic option through evaluation and correction -----

  lemma {:induction false} FirstMagicIsMember(options: seq<ConfigOption>)
    ensures FirstMagic(options).Some? ==>
              exists k | 0 <= k < |options| :: IsMagic(options[k]) && FirstMagic(options) == Some(MagicOf(options[k]))
    ensures (exists k | 0 <= k < |options| :: IsMagic(options[k])) ==> FirstMagic(options).Some?
  {
    if options != [] {
      FirstMagicIsMember(options[1..]);
      if !IsMagic(options[0]) {
        if k :| 0 <= k < |options| && IsMagic(options[k]) {
          assert IsMagic(options[1..][k - 1]);
        }
        if FirstMagic(options).Some? {
          var k :| 0 <= k < |options[1..]| && IsMagic(options[1..][k])
              && FirstMagic(options[1..]) == Some(MagicOf(options[1..][k]));
          assert options[k + 1] == options[1..][k];
        }
      }
    }
  }

  /** Its own proposal, heard back, is never acknowledged. */
  lemma OwnRequestIsNotAcked(options: seq<ConfigOption>, policy: Policy)
    requires OneMagic(options)
    ensures !Evaluate(options, policy, FirstMagic(options)).Acked?
  {
    FirstMagicIsMember(options);
    var k :| 0 <= k < |options| && IsMagic(options[k]) && FirstMagic(options) == Some(MagicOf(options[k]));
    assert Verdicts(options, policy, FirstMagic(options))[k].Suggest?;
  }

  lemma {:induction false} RefusedTypes(options: seq<ConfigOption>, verdicts: seq<Disposition>, t: Octet)
    requires |options| == |verdicts|
    requires forall k | 0 <= k < |options| && options[k].kind == t :: !verdicts[k].Refuse?
    ensures !Mentions(Refused(options, verdicts), t)
  {
    if options != [] {
      RefusedTypes(options[1..], verdicts[1..], t);
      var rest := Refused(options[1..], verdicts[1..]);
      if verdicts[0].Refuse? {
        assert options[0].kind != t;
        assert forall k | 0 < k <= |rest| :: ([options[0]] + rest)[k] == rest[k - 1];
      } else {
        assert [] + rest == rest;
      }
    }
  }

  /** A list with one magic option keeps it out of any Reject. */
  lemma MagicIsNotRefused(options: seq<ConfigOption>, policy: Policy, localMagic: Option<Word32>)
    requires OneMagic(options)
    ensures !Mentions(Refused(options, Verdicts(options, policy, localMagic)), MAGIC)
  {
    FirstMagicIsMember(options);
    var m :| 0 <= m < |options| && IsMagic(options[m]);
    forall k | 0 <= k < |options| && options[k].kind == MAGIC
      ensures k == m
    {
      assert k != m ==> Repeated(options, MAGIC);
    }
    RefusedTypes(options, Verdicts(options, policy, localMagic), MAGIC);
  }

  lemma {:induction false} SuggestedMagic(verdicts: seq<Disposition>)
    requires forall k | 0 <= k < |verdicts| && verdicts[k].Suggest? && verdicts[k].replacement.kind == MAGIC ::
               IsMagic(verdicts[k].replacement)
    ensures forall k | 0 <= k < |Suggestions(verdicts)| && Suggestions(verdicts)[k].kind == MAGIC ::
              IsMagic(Suggestions(verdicts)[k])
  {
    if verdicts != [] {
      SuggestedMagic(verdicts[1..]);
    }
  }

  lemma NakKeepsOneMagic(local: seq<ConfigOption>, suggestions: seq<ConfigOption>)
    requires OneMagic(local)
    requires forall k | 0 <= k < |suggestions| && suggestions[k].kind == MAGIC :: IsMagic(suggestions[k])
    ensures OneMagic(ApplyNak(local, suggestions))
  {
    FirstMagicIsMember(local);
    var amended := ApplyNak(local, suggestions);
    var k :| 0 <= k < |local| && IsMagic(local[k]);
    assert IsMagic(amended[k]);
    FirstMagicIsMember(amended);
  }

  /** A type occurs again behind the head of a list, or twice behind it. */
  lemma RepeatedFromHead(head: ConfigOption, rest: seq<ConfigOption>, t: Octet)
    ensures Repeated([head] + rest, t) <==> (head.kind == t && Mentions(rest, t)) || Repeated(rest, t)
  {
    var all := [head] + rest;
    if k :| 0 <= k < |rest| && rest[k].kind == t && head.kind == t {
      assert all[0].kind == t && all[k + 1].kind == t;
    }
    if i, j :| 0 <= i < j < |rest| && rest[i].kind == t && rest[j].kind == t {
      assert all[i + 1].kind == t && all[j + 1].kind == t;
    }
    if i, j :| 0 <= i < j < |all| && all[i].kind == t && all[j].kind == t {
      assert rest[j - 1].kind == t;
      assert i > 0 ==> rest[i - 1].kind == t;
    }
  }

  lemma MentionedInSublist(local: seq<ConfigOption>, refused: seq<ConfigOption>, t: Octet)
    requires Mentions(Without(local, refused), t)
    ensures Mentions(local, t)
  {
    LcpConvergence.WithoutKeeps(local, refused);
    var kept := Without(local, refused);
    var k :| 0 <= k < |kept| && kept[k].kind == t;
    assert kept[k] in kept;
  }

  lemma {:induction false} RepeatedInSublist(local: seq<ConfigOption>, refused: seq<ConfigOption>, t: Octet)
    requires Repeated(Without(local, refused), t)
    ensures Repeated(local, t)
  {
    if local != [] {
      var (head, tail) := (local[0], local[1..]);
      var rest := Without(tail, refused);
      assert [head] + tail == local;
      RepeatedFromHead(head, rest, t);
      RepeatedFromHead(head, tail, t);
      if head in refused { assert [] + rest == rest; }
      if Repeated(rest, t) { RepeatedInSublist(tail, refused, t); }
      if Mentions(rest, t) { MentionedInSublist(tail, refused, t); }
    }
  }

  lemma RejectKeepsOneMagic(local: seq<ConfigOption>, refused: seq<ConfigOption>)
    requires OneMagic(local) && !Mentions(refused, MAGIC)
    ensures OneMagic(Without(local, refused))
  {
    FirstMagicIsMember(local);
    var k :| 0 <= k < |local| && IsMagic(local[k]);
    LcpConvergence.WithoutKeeps(local, refused);
    var kept := Without(local, refused);
    assert local[k] !in refused;
    assert local[k] in kept;
    var n :| 0 <= n < |kept| && kept[n] == local[k];
    FirstMagicIsMember(kept);
    if Repeated(kept, MAGIC) {
      RepeatedInSublist(local, refused, MAGIC);
    }
  }

  // ----- Steps -----

  lemma RequestIsHarmless(m: Lcp)
    requires Unacknowledged(m)
    ensures Harmless(m, Request(m))
  {
    RequestFits(m);
    EncodedOptionsParse(m.options);
  }

  /** Sending a new request for whatever the options have become. */
  lemma NewRequestKeepsLoop(m: Lcp, s: Step)
    requires Unacknowledged(s.machine) && SameRequest(m, s.machine)
    requires s.outcome == Sending(DownIfOpened(m), Request(s.machine), [])
             || s.outcome == Sending([], Request(s.machine), [])
    ensures KeepsLoop(m, s)
  {
    RequestFits(s.machine);
    SendingAnnounces(m, s, Request(s.machine));
    RequestIsHarmless(s.machine);
  }

  lemma OtherPacketKeepsLoop(m: Lcp, s: Step, packet: Packet)
    requires Unacknowledged(s.machine) && SameRequest(m, s.machine)
    requires s.outcome == Sending(DownIfOpened(m), packet, []) || s.outcome == Sending([], packet, [])
    requires EncodePacket(packet).Ok? && !(CONFIGURE_REQUEST <= packet.code <= CONFIGURE_REJECT)
    ensures KeepsLoop(m, s)
  {
    SendingAnnounces(m, s, packet);
  }

  lemma QuietKeepsLoop(m: Lcp, s: Step)
    requires Unacknowledged(s.machine) && SameRequest(m, s.machine)
    requires s.outcome.Done? && (s.outcome.actions == [] || s.outcome.actions == [ThisLayerFinished])
    ensures KeepsLoop(m, s)
  {
    PacketsOfOne(ThisLayerFinished);
  }

  lemma CallKeepsLoop(m: Lcp, call: Call)
    requires Unacknowledged(m) && !call.ReceiveCall?
    ensures KeepsLoop(m, Apply(m, call))
  {
    var s := Apply(m, call);
    CallKeeps(m, call);
    CallAnnounces(m, call);
    match call {
      case OpenCall(_) =>
        if m.state == Closing { QuietKeepsLoop(m, s); } else { NewRequestKeepsLoop(m, s); }
      case CloseCall(_) =>
        if m.state == Closing || m.state == Closed || m.state == Stopped { QuietKeepsLoop(m, s); }
        else { OtherPacketKeepsLoop(m, s, TerminateRequest(s.machine)); }
      case LowerDownCall => QuietKeepsLoop(m, s);
      case RejectProtocolCall(_, _) => QuietKeepsLoop(m, s);
      case PollCall(now) =>
        if m.deadline.None? || now < m.deadline.value || m.restartRemaining == 0 { QuietKeepsLoop(m, s); }
        else if m.state == Closing { OtherPacketKeepsLoop(m, s, TerminateRequest(s.machine)); }
        else { NewRequestKeepsLoop(m, s); }
    }
  }

  lemma AnswerIsHarmless(m: Lcp, p: Packet, policy: Policy)
    requires Unacknowledged(m) && Harmless(m, p) && p.code == CONFIGURE_REQUEST
    ensures Harmless(m, AnswerTo(p, Evaluate(ParseOptions(p.data).value, policy, FirstMagic(m.options))))
  {
    var options := ParseOptions(p.data).value;
    var evaluation := Evaluate(options, policy, FirstMagic(m.options));
    assert |p.data| <= MAXIMUM_DATA;
    AnswerFits(p, policy, FirstMagic(m.options));
    match evaluation {
      case Acked(_) => if p.identifier == m.requestIdentifier { OwnRequestIsNotAcked(m.options, policy); }
      case Naked(suggestions) =>
        EncodedOptionsParse(suggestions);
        NakSuggestsMagic(options, policy, FirstMagic(m.options));
        assert suggestions == Suggestions(Verdicts(options, policy, FirstMagic(m.options)));
        assert forall k | 0 <= k < |suggestions| && suggestions[k].kind == MAGIC :: IsMagic(suggestions[k]);
      case Rejected(refused) =>
        EncodedOptionsParse(refused);
        MagicIsNotRefused(options, policy, FirstMagic(m.options));
    }
  }

  lemma NakSuggestsMagic(options: seq<ConfigOption>, policy: Policy, localMagic: Option<Word32>)
    ensures var suggestions := Suggestions(Verdicts(options, policy, localMagic));
            forall k | 0 <= k < |suggestions| && suggestions[k].kind == MAGIC :: IsMagic(suggestions[k])
  {
    SuggestedMagic(Verdicts(options, policy, localMagic));
  }

  /** Its own list does not acknowledge a machine that is looped back, so the answer is all that happens. */
  lemma RequestIsAnswered(m: Lcp, p: Packet, now: Millis, policy: Policy)
    requires Invariant(m) && m.state != AckReceived && m.state != Opened && Negotiating(m.state)
    requires WellFormed(p.data) && |p.data| <= MAXIMUM_DATA
    ensures var s := ReceiveConfigureRequest(m, p, now, policy);
            var evaluation := Evaluate(ParseOptions(p.data).value, policy, FirstMagic(m.options));
            && PacketsOf(s) == [AnswerTo(p, evaluation)]
            && s.machine.state == (if evaluation.Acked? then AckSent else RequestSent)
            && s.machine.requestIdentifier == m.requestIdentifier && s.machine.options == m.options
  {
    RequestAnswered(m, p, now, policy);
    PacketsOfOne(SendPacket(AnswerTo(p, Evaluate(ParseOptions(p.data).value, policy, FirstMagic(m.options)))));
  }

  lemma RequestKeepsLoop(m: Lcp, p: Packet, now: Millis, policy: Policy)
    requires Unacknowledged(m) && Negotiating(m.state) && Harmless(m, p) && p.code == CONFIGURE_REQUEST
    ensures KeepsLoop(m, ReceiveConfigureRequest(m, p, now, policy))
  {
    assert |p.data| <= MAXIMUM_DATA;
    ConfigureRequestKeeps(m, p, now, policy);
    RequestIsAnswered(m, p, now, policy);
    AnswerIsHarmless(m, p, policy);
  }

  lemma NakKeepsLoop(m: Lcp, p: Packet, now: Millis)
    requires Unacknowledged(m) && Negotiating(m.state) && Harmless(m, p) && p.code == CONFIGURE_NAK
    ensures KeepsLoop(m, ReceiveConfigureNak(m, p, now))
  {
    var s := ReceiveConfigureNak(m, p, now);
    ConfigureNakKeeps(m, p, now);
    NakKeepsOneMagic(m.options, ParseOptions(p.data).value);
    if s.outcome.Done? && s.outcome.ignored.Some? { QuietKeepsLoop(m, s); } else { NewRequestKeepsLoop(m, s); }
  }

  lemma RejectKeepsLoop(m: Lcp, p: Packet, now: Millis)
    requires Unacknowledged(m) && Negotiating(m.state) && Harmless(m, p) && p.code == CONFIGURE_REJECT
    ensures KeepsLoop(m, ReceiveConfigureReject(m, p, now))
  {
    var s := ReceiveConfigureReject(m, p, now);
    ConfigureRejectKeeps(m, p, now);
    RejectKeepsOneMagic(m.options, ParseOptions(p.data).value);
    if s.outcome.Done? && s.outcome.ignored.Some? { QuietKeepsLoop(m, s); } else { NewRequestKeepsLoop(m, s); }
  }

  lemma TerminateRequestKeepsLoop(m: Lcp, p: Packet)
    requires Unacknowledged(m) && m.state != Closed && m.state != Stopped
    ensures KeepsLoop(m, ReceiveTerminateRequest(m, p))
  {
    var acknowledgment := Packet(TERMINATE_ACK, p.identifier, []);
    TerminateKeeps(m, p);
    SendingRestart(m, acknowledgment);
    assert [SendPacket(acknowledgment)] + DownIfOpened(m) == [SendPacket(acknowledgment)];
    OtherPacketKeepsLoop(m, ReceiveTerminateRequest(m, p), acknowledgment);
  }

  lemma TerminateAckKeepsLoop(m: Lcp, p: Packet)
    requires Unacknowledged(m) && m.state != Closed && m.state != Stopped
    ensures KeepsLoop(m, ReceiveTerminateAck(m, p))
  {
    TerminateKeeps(m, p);
    QuietKeepsLoop(m, ReceiveTerminateAck(m, p));
  }

  lemma UnknownCodeKeepsLoop(m: Lcp, p: Packet)
    requires Unacknowledged(m)
    ensures KeepsLoop(m, ReceiveUnknownCode(m, p))
  {
    var limit := Max(PeerOrDefault(m).transmitMru, 8) - HEADER_LENGTH;
    var whole := [p.code, p.identifier] + BigEndian16((HEADER_LENGTH + |p.data|) % 0x1_0000) + p.data;
    OtherPacketKeepsLoop(m, ReceiveUnknownCode(m, p), Packet(CODE_REJECT, FreshIdentifier(m), Clip(whole, limit)));
  }

  lemma MaintenanceKeepsLoop(m: Lcp, p: Packet, now: Millis, policy: Policy)
    requires Unacknowledged(m)
    requires !(Negotiating(m.state) && CONFIGURE_REQUEST <= p.code <= CONFIGURE_REJECT)
    ensures KeepsLoop(m, ReceivePacket(m, p, now, policy))
  {
    var s := ReceivePacket(m, p, now, policy);
    OtherwiseQuiet(m, p, now, policy);
    if s.machine == m && s.outcome.Done? && s.outcome.actions == [] {
      QuietKeepsLoop(m, s);
    } else {
      TerminateRequestKeepsLoop(m, p);
      TerminateAckKeepsLoop(m, p);
      UnknownCodeKeepsLoop(m, p);
    }
  }

  lemma AckIsStale(m: Lcp, p: Packet, now: Millis)
    requires Harmless(m, p) && p.code == CONFIGURE_ACK && Negotiating(m.state)
    ensures ReceiveConfigureAck(m, p, now) == Ignore(m, InvalidConfigureResponse)
  {
  }

  lemma EchoKeepsLoop(m: Lcp, p: Packet, now: Millis, policy: Policy)
    requires Unacknowledged(m) && Harmless(m, p)
    ensures KeepsLoop(m, ReceivePacket(m, p, now, policy))
  {
    if !Negotiating(m.state) || p.code < CONFIGURE_REQUEST || p.code > CONFIGURE_REJECT {
      MaintenanceKeepsLoop(m, p, now, policy);
    } else if p.code == CONFIGURE_REQUEST {
      RequestKeepsLoop(m, p, now, policy);
    } else if p.code == CONFIGURE_NAK {
      NakKeepsLoop(m, p, now);
    } else if p.code == CONFIGURE_REJECT {
      RejectKeepsLoop(m, p, now);
    } else {
      AckIsStale(m, p, now);
      QuietKeepsLoop(m, Ignore(m, InvalidConfigureResponse));
    }
  }

  /** What was harmless stays harmless, unless it bears the identifier just allocated. */
  lemma StaysHarmless(m: Lcp, next: Lcp, line: seq<Packet>)
    requires AllHarmless(m, line) && SameRequest(m, next)
    requires next.nextIdentifier != m.nextIdentifier ==> !Bears(line, next.nextIdentifier)
    ensures AllHarmless(next, line)
  {
  }

  lemma EventKeepsLoop(l: Loop, e: LoopEvent)
    requires Unacknowledged(l.m) && AllHarmless(l.m, l.line) && NoReuse(l, e)
    ensures Unacknowledged(Happens(l, e).m) && AllHarmless(Happens(l, e).m, Happens(l, e).line)
  {
    var s := StepOf(l, e);
    if e.Environment? && !e.call.ReceiveCall? {
      CallKeepsLoop(l.m, e.call);
    } else if e.Echo? && l.line != [] {
      var p := l.line[0];
      assert Harmless(l.m, p);
      PacketRoundTrip(p, []);
      assert Wire(p) + [] == Wire(p);
      EchoKeepsLoop(l.m, p, e.now, e.policy);
    } else {
      QuietKeepsLoop(l.m, s);
    }
    StaysHarmless(l.m, s.machine, Remaining(l, e));
  }

  lemma FrontReusesNothing(start: Loop, events: seq<LoopEvent>)
    requires events != [] && NeverReuses(start, events)
    ensures NeverReuses(start, events[..|events| - 1])
    ensures NoReuse(RunLoop(start, events[..|events| - 1]), events[|events| - 1])
  {
    var front := events[..|events| - 1];
    forall k | 0 <= k < |front|
      ensures NoReuse(RunLoop(start, front[..k]), front[k])
    {
      assert front[..k] == events[..k] && front[k] == events[k];
    }
  }

  /** Whatever it is asked to do, a looped-back machine whose options hold exactly one four-octet
      magic number never opens, nor even sees an acknowledgment. */
  lemma {:induction false} LoopNeverOpens(options: seq<ConfigOption>, settings: Settings, events: seq<LoopEvent>)
    requires |options| <= 256 && OneMagic(options)
    requires NeverReuses(Loop(New(options, settings), []), events)
    ensures var l := RunLoop(Loop(New(options, settings), []), events);
            l.m.state != Opened && l.m.state != AckReceived && Unacknowledged(l.m) && AllHarmless(l.m, l.line)
  {
    var start := Loop(New(options, settings), []);
    if events != [] {
      var (front, last) := (events[..|events| - 1], events[|events| - 1]);
      FrontReusesNothing(start, events);
      LoopNeverOpens(options, settings, front);
      EventKeepsLoop(RunLoop(start, front), last);
    }
  }
}
