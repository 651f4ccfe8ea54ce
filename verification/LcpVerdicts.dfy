/** Which requests are acknowledged, rejected and answered by a Nak, told from the octets of their options
    alone (section 6 of RFC 1661), and what an acknowledged one means. */
module LcpVerdicts {
  import opened Octets
  import opened LcpCodec
  import opened LcpPolicy
  import opened LcpConvergence
  import opened Rfc1661
  import opened LcpSpec
  import opened LcpRuns

  // ----- Single options -----

  predicate IsAuthentication(data: Bytes, policy: Policy) {
    || (policy.acceptPap && data == [0xc0, 0x23])
    || (policy.acceptChapMd5 && data == [0xc2, 0x23, 5])
  }

  /** A maximum receive unit, a control character map, an authentication the policy allows, or a magic number
      that is not the receiver's own. */
  predicate Acceptable(o: ConfigOption, policy: Policy, own: Option<Word32>) {
    || (o.kind == 1 && |o.data| == 2 && o.data != [0, 0])
    || (o.kind == 2 && |o.data| == 4)
    || (o.kind == 3 && IsAuthentication(o.data, policy))
    || (o.kind == 5 && |o.data| == 4 && o.data != [0, 0, 0, 0] && (own.Some? ==> o.data != BigEndian32(own.value)))
  }

  /** Nothing could be suggested in its place. */
  predicate Hopeless(o: ConfigOption, policy: Policy) {
    || o.kind == 0 || o.kind == 4 || o.kind > 5
    || (o.kind == 3 && !policy.acceptPap && !policy.acceptChapMd5)
    || (o.kind == 5 && |o.data| != 4)
  }

  /** The number suggested instead of one that is zero or the receiver's own. */
  function Another(number: Word32): Word32 {
    if number == 0x1_0000_0000 - 0x9e37_79b9 then 0x9e37_79b9
    else if number + 0x9e37_79b9 >= 0x1_0000_0000 then number + 0x9e37_79b9 - 0x1_0000_0000
    else number + 0x9e37_79b9
  }

  function Replacement(o: ConfigOption, policy: Policy, own: Option<Word32>): ConfigOption {
    if o.kind == 1 then RawOption(1, [0x05, 0xdc])
    else if o.kind == 2 then RawOption(2, [0xff, 0xff, 0xff, 0xff])
    else if o.kind == 3 then RawOption(3, if policy.acceptChapMd5 then [0xc2, 0x23, 5] else [0xc0, 0x23])
    else RawOption(5, BigEndian32(Another(if own.Some? then own.value else 0)))
  }

  predicate Once(options: seq<ConfigOption>, k: nat)
    requires k < |options|
  {
    forall j | 0 <= j < |options| && j != k :: options[j].kind != options[k].kind
  }

  predicate Refusable(options: seq<ConfigOption>, k: nat, policy: Policy)
    requires k < |options|
  {
    !Once(options, k) || Hopeless(options[k], policy)
  }

  // ----- Verdicts -----

  lemma OnceIsNotRepeated(options: seq<ConfigOption>, k: nat)
    requires k < |options|
    ensures Once(options, k) <==> !Repeated(options, options[k].kind)
  {
    if Repeated(options, options[k].kind) {
      var i, j :| 0 <= i < j < |options| && options[i].kind == options[k].kind && options[j].kind == options[k].kind;
      assert options[if i == k then j else i].kind == options[k].kind;
    }
    if !Once(options, k) {
      var j :| 0 <= j < |options| && j != k && options[j].kind == options[k].kind;
      assert Repeated(options, options[k].kind);
    }
  }

  lemma SameNumber(o: ConfigOption, number: Word32)
    requires IsMagic(o)
    ensures MagicOf(o) == number <==> o.data == BigEndian32(number)
  {
    BigEndian32RoundTrip(number);
    assert o.data == [o.data[0], o.data[1], o.data[2], o.data[3]];
    if MagicOf(o) == number { OctetsOfNumber(o.data); }
  }

  lemma OctetsOfNumber(b: Bytes)
    requires |b| == 4
    ensures BigEndian32(ReadBigEndian32(b)) == b
  {
    var (high, low) := (ReadBigEndian16(b[0], b[1]), ReadBigEndian16(b[2], b[3]));
    assert ReadBigEndian32(b) / 0x1_0000 == high && ReadBigEndian32(b) % 0x1_0000 == low;
    assert b == [b[0], b[1]] + [b[2], b[3]];
  }

  lemma ZeroNumber()
    ensures BigEndian32(0) == [0, 0, 0, 0]
  {
  }

  lemma AnotherIsNext(number: Word32)
    ensures NextMagic(number) == Another(number)
  {
  }

  lemma AnotherOfOwn(o: ConfigOption, own: Option<Word32>)
    requires IsMagic(o) && (MagicOf(o) == 0 || Some(MagicOf(o)) == own)
    ensures NextMagic(if own.Some? then own.value else MagicOf(o)) == Another(if own.Some? then own.value else 0)
  {
    AnotherIsNext(if own.Some? then own.value else 0);
  }

  lemma MagicVerdictIs(o: ConfigOption, policy: Policy, own: Option<Word32>)
    requires o.kind == 5
    ensures EvaluateOption(o, policy, own, DEFAULT_PEER).0
            == if Hopeless(o, policy) then Refuse
               else if Acceptable(o, policy, own) then Accept else Suggest(Replacement(o, policy, own))
  {
    if |o.data| == 4 {
      SameNumber(o, 0);
      ZeroNumber();
      if own.Some? { SameNumber(o, own.value); }
      if MagicOf(o) == 0 || Some(MagicOf(o)) == own { AnotherOfOwn(o, own); }
    }
  }

  /** The verdict on an option by itself. */
  lemma VerdictIs(o: ConfigOption, policy: Policy, own: Option<Word32>)
    ensures EvaluateOption(o, policy, own, DEFAULT_PEER).0
            == if Hopeless(o, policy) then Refuse
               else if Acceptable(o, policy, own) then Accept else Suggest(Replacement(o, policy, own))
  {
    if o.kind == 5 {
      MagicVerdictIs(o, policy, own);
    } else if o.kind == 1 && |o.data| == 2 {
      assert o.data == [o.data[0], o.data[1]];
    }
  }

  lemma JudgedBy(options: seq<ConfigOption>, k: nat, policy: Policy, own: Option<Word32>)
    requires k < |options|
    ensures Judge(options, k, policy, own)
            == if Refusable(options, k, policy) then Refuse
               else if Acceptable(options[k], policy, own) then Accept
               else Suggest(Replacement(options[k], policy, own))
  {
    OnceIsNotRepeated(options, k);
    VerdictIs(options[k], policy, own);
  }

  // ----- The answer -----

  /** The options at the first `n` places that are refused, in order. */
  function RefusedUpTo(options: seq<ConfigOption>, n: nat, policy: Policy): seq<ConfigOption>
    requires n <= |options|
  {
    if n == 0 then []
    else RefusedUpTo(options, n - 1, policy) + if Refusable(options, n - 1, policy) then [options[n - 1]] else []
  }

  /** What is suggested for the first `n` places. */
  function SuggestedUpTo(options: seq<ConfigOption>, n: nat, policy: Policy, own: Option<Word32>): seq<ConfigOption>
    requires n <= |options|
  {
    if n == 0 then []
    else
      var o := options[n - 1];
      SuggestedUpTo(options, n - 1, policy, own)
      + if Acceptable(o, policy, own) then [] else [Replacement(o, policy, own)]
  }

  lemma {:induction false} RefusedAppend(options: seq<ConfigOption>, verdicts: seq<Disposition>, n: nat)
    requires |options| == |verdicts| && n < |options|
    ensures Refused(options[..n + 1], verdicts[..n + 1])
            == Refused(options[..n], verdicts[..n]) + if verdicts[n].Refuse? then [options[n]] else []
  {
    if n == 0 {
      assert options[..1][1..] == [] && verdicts[..1][1..] == [];
    } else {
      RefusedAppend(options[1..], verdicts[1..], n - 1);
      assert options[..n + 1][1..] == options[1..][..n] && verdicts[..n + 1][1..] == verdicts[1..][..n];
      assert options[..n][1..] == options[1..][..n - 1] && verdicts[..n][1..] == verdicts[1..][..n - 1];
    }
  }

  lemma {:induction false} SuggestionsAppend(verdicts: seq<Disposition>, n: nat)
    requires n < |verdicts|
    ensures Suggestions(verdicts[..n + 1])
            == Suggestions(verdicts[..n]) + if verdicts[n].Suggest? then [verdicts[n].replacement] else []
  {
    if n == 0 {
      assert verdicts[..1][1..] == [];
    } else {
      SuggestionsAppend(verdicts[1..], n - 1);
      assert verdicts[..n + 1][1..] == verdicts[1..][..n] && verdicts[..n][1..] == verdicts[1..][..n - 1];
    }
  }

  lemma {:induction false} RefusedAre(options: seq<ConfigOption>, n: nat, policy: Policy, own: Option<Word32>)
    requires n <= |options|
    ensures Refused(options[..n], Verdicts(options, policy, own)[..n]) == RefusedUpTo(options, n, policy)
  {
    if n > 0 {
      RefusedAre(options, n - 1, policy, own);
      RefusedAppend(options, Verdicts(options, policy, own), n - 1);
      JudgedBy(options, n - 1, policy, own);
    }
  }

  lemma {:induction false} SuggestionsAre(options: seq<ConfigOption>, n: nat, policy: Policy, own: Option<Word32>)
    requires n <= |options| && forall k | 0 <= k < |options| :: !Refusable(options, k, policy)
    ensures Suggestions(Verdicts(options, policy, own)[..n]) == SuggestedUpTo(options, n, policy, own)
  {
    if n > 0 {
      SuggestionsAre(options, n - 1, policy, own);
      SuggestionsAppend(Verdicts(options, policy, own), n - 1);
      JudgedBy(options, n - 1, policy, own);
    }
  }

  /** A list is rejected exactly if some option of it is repeated or hopeless, and the Reject names all of
      those in order. */
  lemma RejectedExactly(options: seq<ConfigOption>, policy: Policy, own: Option<Word32>)
    ensures var r := Evaluate(options, policy, own);
            if exists k | 0 <= k < |options| :: Refusable(options, k, policy)
            then r == Rejected(RefusedUpTo(options, |options|, policy)) else !r.Rejected?
  {
    var verdicts := Verdicts(options, policy, own);
    forall k | 0 <= k < |options|
      ensures verdicts[k] == Refuse <==> Refusable(options, k, policy)
    {
      JudgedBy(options, k, policy, own);
    }
    RefusedAre(options, |options|, policy, own);
    assert options[..|options|] == options && verdicts[..|options|] == verdicts;
    if k :| 0 <= k < |options| && Refusable(options, k, policy) {
      assert verdicts[k] == Refuse;
    }
  }

  /** A list is acknowledged exactly if it repeats no type and every option of it is acceptable. */
  lemma AckedExactly(options: seq<ConfigOption>, policy: Policy, own: Option<Word32>)
    ensures Evaluate(options, policy, own).Acked?
            <==> forall k | 0 <= k < |options| :: Once(options, k) && Acceptable(options[k], policy, own)
  {
    var verdicts := Verdicts(options, policy, own);
    forall k | 0 <= k < |options|
      ensures verdicts[k] == Accept <==> Once(options, k) && Acceptable(options[k], policy, own)
    {
      JudgedBy(options, k, policy, own);
    }
  }

  /** Any other list draws a Nak with a replacement for each option that is not acceptable, in order. */
  lemma NakedExactly(options: seq<ConfigOption>, policy: Policy, own: Option<Word32>)
    requires forall k | 0 <= k < |options| :: !Refusable(options, k, policy)
    requires exists k | 0 <= k < |options| :: !Acceptable(options[k], policy, own)
    ensures Evaluate(options, policy, own) == Naked(SuggestedUpTo(options, |options|, policy, own))
  {
    RejectedExactly(options, policy, own);
    AckedExactly(options, policy, own);
    SuggestionsAre(options, |options|, policy, own);
    var verdicts := Verdicts(options, policy, own);
    assert verdicts[..|options|] == verdicts;
  }

  predicate AnyRefusable(options: seq<ConfigOption>, policy: Policy) {
    exists k | 0 <= k < |options| :: Refusable(options, k, policy)
  }

  predicate AllAcceptable(options: seq<ConfigOption>, policy: Policy, own: Option<Word32>) {
    forall k | 0 <= k < |options| :: Acceptable(options[k], policy, own)
  }

  lemma EvaluationIs(options: seq<ConfigOption>, policy: Policy, own: Option<Word32>)
    ensures var r := Evaluate(options, policy, own);
            if AnyRefusable(options, policy) then r == Rejected(RefusedUpTo(options, |options|, policy))
            else if !AllAcceptable(options, policy, own) then r == Naked(SuggestedUpTo(options, |options|, policy, own))
            else r.Acked?
  {
    if AnyRefusable(options, policy) {
      RejectedExactly(options, policy, own);
    } else if AllAcceptable(options, policy, own) {
      AckedExactly(options, policy, own);
      forall k | 0 <= k < |options|
        ensures Once(options, k) && Acceptable(options[k], policy, own)
      {
        assert !Refusable(options, k, policy);
      }
    } else {
      var k :| 0 <= k < |options| && !Acceptable(options[k], policy, own);
      NakedExactly(options, policy, own);
    }
  }

  // ----- What an acknowledged list means -----

  /** What one option says. */
  predicate Says(o: ConfigOption, c: PeerConfiguration) {
    && (o.kind == 1 && |o.data| == 2 ==> BigEndian16(c.transmitMru) == o.data)
    && (o.kind == 2 ==> BigEndian32(c.transmitAccm) == o.data)
    && (o.kind == 3 ==> c.authentication == Some(if o.data == [0xc0, 0x23] then Pap else ChapMd5))
    && (o.kind == 5 ==> c.magicNumber.Some? && BigEndian32(c.magicNumber.value) == o.data)
  }

  /** The configuration says what the options say, and what it has to where there is none. */
  predicate Means(options: seq<ConfigOption>, c: PeerConfiguration) {
    && (forall k | 0 <= k < |options| :: Says(options[k], c))
    && (!Mentions(options, 1) ==> c.transmitMru == 1500)
    && (!Mentions(options, 2) ==> c.transmitAccm == 0xffff_ffff)
    && (!Mentions(options, 3) ==> c.authentication == None)
    && (!Mentions(options, 5) ==> c.magicNumber == None)
  }

  lemma MentionedAtEnd(options: seq<ConfigOption>, kind: Octet)
    requires options != []
    ensures Mentions(options, kind)
            <==> Mentions(options[..|options| - 1], kind) || options[|options| - 1].kind == kind
  {
    var front := options[..|options| - 1];
    if k :| 0 <= k < |front| && front[k].kind == kind {
      assert options[k].kind == kind;
    }
    if k :| 0 <= k < |options| && options[k].kind == kind {
      assert k < |front| ==> front[k].kind == kind;
    }
  }

  predicate Sound(options: seq<ConfigOption>, policy: Policy, own: Option<Word32>) {
    NoRepeats(options) && forall k | 0 <= k < |options| :: Acceptable(options[k], policy, own)
  }

  /** An option changes the field of its type only. */
  predicate OthersStay(kind: Octet, c: PeerConfiguration, d: PeerConfiguration) {
    && (kind != 1 ==> d.transmitMru == c.transmitMru) && (kind != 2 ==> d.transmitAccm == c.transmitAccm)
    && (kind != 3 ==> d.authentication == c.authentication) && (kind != 5 ==> d.magicNumber == c.magicNumber)
  }

  lemma DescribedSays(o: ConfigOption, policy: Policy, own: Option<Word32>, c: PeerConfiguration)
    requires Acceptable(o, policy, own)
    ensures Says(o, Describe(o, c)) && OthersStay(o.kind, c, Describe(o, c))
  {
    if |o.data| == 4 { OctetsOfNumber(o.data); }
    if |o.data| == 2 { assert o.data == [o.data[0], o.data[1]]; }
  }

  lemma DescribedNext(options: seq<ConfigOption>, o: ConfigOption, policy: Policy, own: Option<Word32>,
                      c: PeerConfiguration)
    requires Means(options, c) && Acceptable(o, policy, own) && !Mentions(options, o.kind)
    ensures Means(options + [o], Describe(o, c))
  {
    var longer := options + [o];
    assert longer[..|options|] == options;
    MentionedAtEnd(longer, 1);
    MentionedAtEnd(longer, 2);
    MentionedAtEnd(longer, 3);
    MentionedAtEnd(longer, 5);
    assert forall k | 0 <= k < |options| :: longer[k] == options[k] && options[k].kind != o.kind;
    DescribedSays(o, policy, own, c);
  }

  lemma {:induction false} DenoteMeans(options: seq<ConfigOption>, policy: Policy, own: Option<Word32>)
    requires Sound(options, policy, own)
    ensures Means(options, Denote(options))
  {
    if options != [] {
      var (front, o) := (options[..|options| - 1], options[|options| - 1]);
      DenoteMeans(front, policy, own);
      assert forall k | 0 <= k < |front| :: front[k].kind != o.kind;
      DescribedNext(front, o, policy, own, Denote(front));
      assert front + [o] == options;
    }
  }

  /** An acknowledged list is taken for what its octets say. */
  lemma AckedMeans(options: seq<ConfigOption>, policy: Policy, own: Option<Word32>)
    requires Evaluate(options, policy, own).Acked?
    ensures Means(options, Evaluate(options, policy, own).configuration)
  {
    AckedExactly(options, policy, own);
    DenoteMeans(options, policy, own);
  }

  // ----- On octets -----

  predicate Allowed(authentication: Option<AuthenticationProtocol>, policy: Policy) {
    match authentication
    case None => true
    case Some(Pap) => policy.acceptPap
    case Some(ChapMd5) => policy.acceptChapMd5
  }

  lemma MeansAllowed(options: seq<ConfigOption>, policy: Policy, own: Option<Word32>, c: PeerConfiguration)
    requires Sound(options, policy, own) && Means(options, c)
    ensures Allowed(c.authentication, policy)
  {
    if Mentions(options, 3) {
      var k :| 0 <= k < |options| && options[k].kind == 3;
      assert Acceptable(options[k], policy, own);
      assert [0xc0, 0x23] != [0xc2, 0x23, 5];
    }
  }

  /** In and behind a negotiation only an acknowledgment leads to, or leaves, a machine that has agreed. */
  lemma AgreedByAck(m: Lcp, packet: Packet, now: Millis, policy: Policy)
    requires Negotiating(m.state)
    ensures var s := ReceiveConfigureRequest(m, packet, now, policy);
            var options := ParseOptions(packet.data);
            s.outcome.Done? && s.outcome.ignored.None? && (s.machine.state == AckSent || s.machine.state == Opened) ==>
              && options.Ok? && Evaluate(options.value, policy, FirstMagic(m.options)).Acked?
              && s.machine.peer == Some(Evaluate(options.value, policy, FirstMagic(m.options)).configuration)
  {
  }

  /** Behind a request that was answered, a machine that has agreed holds what the request says and policy allows. */
  predicate Agrees(m: Lcp, packet: Packet, policy: Policy, s: Step) {
    s.outcome.Done? && s.outcome.ignored.None? && (s.machine.state == AckSent || s.machine.state == Opened) ==>
      var options := ParseOptions(packet.data);
      && options.Ok? && s.machine.peer.Some? && Means(options.value, s.machine.peer.value)
      && Allowed(s.machine.peer.value.authentication, policy)
      && Sound(options.value, policy, FirstMagic(m.options))
  }

  lemma AckedIsAllowed(options: seq<ConfigOption>, policy: Policy, own: Option<Word32>)
    requires Evaluate(options, policy, own).Acked?
    ensures var c := Evaluate(options, policy, own).configuration;
            Sound(options, policy, own) && Means(options, c) && Allowed(c.authentication, policy)
  {
    AckedExactly(options, policy, own);
    AckedMeans(options, policy, own);
    MeansAllowed(options, policy, own, Evaluate(options, policy, own).configuration);
  }

  lemma AnsweredRequestAgrees(m: Lcp, packet: Packet, now: Millis, policy: Policy)
    requires Negotiating(m.state)
    ensures Agrees(m, packet, policy, ReceiveConfigureRequest(m, packet, now, policy))
  {
    AgreedByAck(m, packet, now, policy);
    if ParseOptions(packet.data).Ok? {
      var (options, own) := (ParseOptions(packet.data).value, FirstMagic(m.options));
      if Evaluate(options, policy, own).Acked? { AckedIsAllowed(options, policy, own); }
    }
  }

  lemma RequestIsReceived(m: Lcp, input: Bytes, now: Millis, policy: Policy)
    requires Negotiating(m.state) && ParsePacket(input).Ok? && ParsePacket(input).value.code == CONFIGURE_REQUEST
    ensures Receive(m, input, now, policy) == ReceiveConfigureRequest(m, ParsePacket(input).value, now, policy)
  {
  }

  /** The authentication a machine agrees to is one its policy allows, and the one the request names. */
  lemma AgreedAuthenticationIsAllowed(m: Lcp, input: Bytes, now: Millis, policy: Policy)
    requires Negotiating(m.state) && ParsePacket(input).Ok? && ParsePacket(input).value.code == CONFIGURE_REQUEST
    ensures Agrees(m, ParsePacket(input).value, policy, Receive(m, input, now, policy))
  {
    RequestIsReceived(m, input, now, policy);
    AnsweredRequestAgrees(m, ParsePacket(input).value, now, policy);
  }

  /** The answer, octet for octet: an Ack repeats the options, a Reject names the ones refused and a Nak their
      replacements, all under the identifier of the request. */
  lemma AnswerIs(packet: Packet, options: seq<ConfigOption>, policy: Policy, own: Option<Word32>)
    requires ParseOptions(packet.data) == Ok(options)
    ensures var answer := AnswerTo(packet, Evaluate(options, policy, own));
            if AnyRefusable(options, policy)
            then answer == Packet(4, packet.identifier, EncodeOptions(RefusedUpTo(options, |options|, policy)))
            else if !AllAcceptable(options, policy, own)
            then answer == Packet(3, packet.identifier, EncodeOptions(SuggestedUpTo(options, |options|, policy, own)))
            else answer == Packet(2, packet.identifier, packet.data)
  {
    EvaluationIs(options, policy, own);
  }
}
