/** A list that repeats a type: its request is rejected, the Reject repeats the type as well, and the machine
    ignores it and goes on waiting. */
module LcpRepeats {
  import opened Octets
  import opened LcpCodec
  import opened LcpPolicy
  import opened LcpConvergence
  import opened Rfc1661
  import opened LcpSpec
  import opened LcpRuns
  import opened LcpLink
  import opened LcpLoopback

  // ----- The Reject -----

  lemma {:induction false} RefusedMentions(options: seq<ConfigOption>, verdicts: seq<Disposition>, k: nat)
    requires |options| == |verdicts| && k < |options| && verdicts[k].Refuse?
    ensures Mentions(Refused(options, verdicts), options[k].kind)
  {
    var rest := Refused(options[1..], verdicts[1..]);
    if k > 0 {
      RefusedMentions(options[1..], verdicts[1..], k - 1);
      var n :| 0 <= n < |rest| && rest[n].kind == options[k].kind;
      assert verdicts[0].Refuse? ==> Refused(options, verdicts)[n + 1] == rest[n];
      assert !verdicts[0].Refuse? ==> Refused(options, verdicts) == rest;
    } else {
      assert Refused(options, verdicts)[0] == options[0];
    }
  }

  lemma {:induction false} RefusedRepeats(options: seq<ConfigOption>, verdicts: seq<Disposition>, i: nat, j: nat)
    requires |options| == |verdicts| && i < j < |options| && options[i].kind == options[j].kind
    requires verdicts[i].Refuse? && verdicts[j].Refuse?
    ensures Repeated(Refused(options, verdicts), options[i].kind)
  {
    var rest := Refused(options[1..], verdicts[1..]);
    RepeatedFromHead(options[0], rest, options[i].kind);
    if i == 0 {
      RefusedMentions(options[1..], verdicts[1..], j - 1);
    } else {
      RefusedRepeats(options[1..], verdicts[1..], i - 1, j - 1);
      if !verdicts[0].Refuse? { assert Refused(options, verdicts) == rest; }
    }
  }

  lemma RepeatsAreRejected(options: seq<ConfigOption>, policy: Policy, judge: Option<Word32>)
    requires HasRepeatedTypes(options)
    ensures var verdict := Evaluate(options, policy, judge);
            verdict.Rejected? && HasRepeatedTypes(verdict.refused)
  {
    var verdicts := Verdicts(options, policy, judge);
    NoRepeatsMeansNoneRepeated(options);
    var i, j :| 0 <= i < j < |options| && options[i].kind == options[j].kind;
    assert Repeated(options, options[i].kind) && verdicts[i] == Refuse && verdicts[j] == Refuse;
    RefusedRepeats(options, verdicts, i, j);
    var refused := Refused(options, verdicts);
    var m, n :| 0 <= m < n < |refused| && refused[m].kind == options[i].kind && refused[n].kind == options[i].kind;
    assert Repeated(refused, refused[m].kind);
  }

  // ----- What the two machines send -----

  predicate Configures(p: Packet) { EncodePacket(p).Ok? && CONFIGURE_REQUEST <= p.code <= CONFIGURE_REJECT }

  /** A Reject nobody takes. */
  predicate IsVoid(p: Packet) {
    p.code == CONFIGURE_REJECT && ParseOptions(p.data).Ok? && HasRepeatedTypes(ParseOptions(p.data).value)
  }

  /** Requests, and the answer to the packet if it is a request. */
  predicate Responds(m: Lcp, p: Packet, policy: Policy, sent: seq<Packet>) {
    forall k | 0 <= k < |sent| ::
      || sent[k].code == CONFIGURE_REQUEST
      || (p.code == CONFIGURE_REQUEST && WellFormed(p.data)
          && sent[k] == AnswerTo(p, Evaluate(ParseOptions(p.data).value, policy, FirstMagic(m.options))))
  }

  lemma TwoRespond(m: Lcp, p: Packet, policy: Policy, request: Packet)
    requires WellFormed(p.data) && p.code == CONFIGURE_REQUEST && request.code == CONFIGURE_REQUEST
    ensures var answer := AnswerTo(p, Evaluate(ParseOptions(p.data).value, policy, FirstMagic(m.options)));
            Responds(m, p, policy, [request, answer]) && Responds(m, p, policy, [answer])
  {
  }

  lemma OpenedResponds(m: Lcp, p: Packet, now: Millis, policy: Policy)
    requires Invariant(m) && m.state == Opened && |p.data| <= MAXIMUM_DATA && WellFormed(p.data)
    requires p.code == CONFIGURE_REQUEST
    ensures Responds(m, p, policy, PacketsOf(ReceiveConfigureRequest(m, p, now, policy)))
  {
    var evaluation := Evaluate(ParseOptions(p.data).value, policy, FirstMagic(m.options));
    var told := if evaluation.Acked? then m.(peer := Some(evaluation.configuration)) else m;
    var request := Request(SendNewRequest(told, now, true));
    AnswerFits(p, policy, FirstMagic(m.options));
    RequestFits(SendNewRequest(told, now, true));
    RenegotiationPackets(request, AnswerTo(p, evaluation));
    TwoRespond(m, p, policy, request);
  }

  lemma WaitingResponds(m: Lcp, p: Packet, now: Millis, policy: Policy)
    requires Invariant(m) && Negotiating(m.state) && m.state != Opened
    requires |p.data| <= MAXIMUM_DATA && WellFormed(p.data) && p.code == CONFIGURE_REQUEST
    ensures Responds(m, p, policy, PacketsOf(ReceiveConfigureRequest(m, p, now, policy)))
  {
    var evaluation := Evaluate(ParseOptions(p.data).value, policy, FirstMagic(m.options));
    RequestAnswered(m, p, now, policy);
    AnswerPackets(AnswerTo(p, evaluation), if evaluation.Acked? then evaluation.configuration else DEFAULT_PEER);
    TwoRespond(m, p, policy, Request(m));
  }

  lemma RequestResponds(m: Lcp, p: Packet, now: Millis, policy: Policy)
    requires Invariant(m) && Negotiating(m.state) && |p.data| <= MAXIMUM_DATA && p.code == CONFIGURE_REQUEST
    ensures Responds(m, p, policy, PacketsOf(ReceiveConfigureRequest(m, p, now, policy)))
  {
    if WellFormed(p.data) {
      if m.state == Opened {
        OpenedResponds(m, p, now, policy);
      } else {
        WaitingResponds(m, p, now, policy);
      }
    }
  }

  lemma RestartResponds(m: Lcp, p: Packet, policy: Policy, s: Step)
    requires |s.machine.options| <= 256
    requires s.outcome == Sending(DownIfOpened(m), Request(s.machine), [])
    ensures Responds(m, p, policy, PacketsOf(s))
  {
    RequestFits(s.machine);
    SendingAnnounces(m, s, Request(s.machine));
  }

  lemma AckResponds(m: Lcp, p: Packet, now: Millis, policy: Policy)
    requires Invariant(m) && Negotiating(m.state)
    ensures Responds(m, p, policy, PacketsOf(ReceiveConfigureAck(m, p, now)))
  {
    var s := ReceiveConfigureAck(m, p, now);
    PacketsOfOne(ThisLayerUp(PeerOrDefault(m)));
    if Acknowledges(p, m) && (m.state == AckReceived || m.state == Opened) { RestartResponds(m, p, policy, s); }
  }

  lemma CorrectionResponds(m: Lcp, p: Packet, now: Millis, policy: Policy)
    requires Invariant(m) && Negotiating(m.state)
    ensures Responds(m, p, policy, PacketsOf(ReceiveConfigureNak(m, p, now)))
    ensures Responds(m, p, policy, PacketsOf(ReceiveConfigureReject(m, p, now)))
  {
    if WellFormed(p.data) && p.identifier == m.requestIdentifier {
      var list := ParseOptions(p.data).value;
      WithoutKeeps(m.options, list);
      if !HasRepeatedTypes(list) { RestartResponds(m, p, policy, ReceiveConfigureNak(m, p, now)); }
      if ApplyReject(m.options, list).Some? { RestartResponds(m, p, policy, ReceiveConfigureReject(m, p, now)); }
    }
  }

  /** Whatever the state of a machine, configure packets draw requests and their own answer. */
  lemma MachineResponds(m: Lcp, p: Packet, now: Millis, policy: Policy)
    requires Invariant(m) && Configures(p) && |p.data| <= MAXIMUM_DATA
    ensures var s := ReceivePacket(m, p, now, policy);
            && Invariant(s.machine) && Responds(m, p, policy, PacketsOf(s))
            && forall k | 0 <= k < |PacketsOf(s)| :: EncodePacket(PacketsOf(s)[k]).Ok?
  {
    var s := ReceivePacket(m, p, now, policy);
    ReceiveKeeps(m, p, now, policy);
    PacketsFrom(s.outcome.actions);
    if Negotiating(m.state) {
      if p.code == CONFIGURE_REQUEST {
        RequestResponds(m, p, now, policy);
      } else if p.code == CONFIGURE_ACK {
        AckResponds(m, p, now, policy);
      } else {
        CorrectionResponds(m, p, now, policy);
      }
    }
  }

  // ----- The link -----

  predicate Waits(m: Lcp) {
    Invariant(m) && HasRepeatedTypes(m.options) && (m.state == RequestSent || m.state == AckSent)
  }

  /** A's request and answers are on their way to B, requests and void Rejects to A. */
  predicate Spurned(l: Link) {
    && Waits(l.a) && Invariant(l.b)
    && (forall k | 0 <= k < |l.toB| ::
          Configures(l.toB[k]) && (l.toB[k].code == CONFIGURE_REQUEST ==> l.toB[k] == Request(l.a)))
    && (forall k | 0 <= k < |l.toA| ::
          Configures(l.toA[k]) && (l.toA[k].code == CONFIGURE_REQUEST || IsVoid(l.toA[k])))
  }

  lemma ReadsRequest(m: Lcp, p: Packet, now: Millis, policy: Policy)
    requires Waits(m) && |p.data| <= MAXIMUM_DATA && p.code == CONFIGURE_REQUEST && WellFormed(p.data)
    ensures var s := ReceiveConfigureRequest(m, p, now, policy);
            && Waits(s.machine) && s.machine.options == m.options && s.machine.requestIdentifier == m.requestIdentifier
            && forall k | 0 <= k < |PacketsOf(s)| ::
                 Configures(PacketsOf(s)[k]) && PacketsOf(s)[k].code != CONFIGURE_REQUEST
  {
    var evaluation := Evaluate(ParseOptions(p.data).value, policy, FirstMagic(m.options));
    ConfigureRequestKeeps(m, p, now, policy);
    RequestAnswered(m, p, now, policy);
    AnswerFits(p, policy, FirstMagic(m.options));
    AnswerPackets(AnswerTo(p, evaluation), DEFAULT_PEER);
  }

  lemma WaitsOn(m: Lcp, p: Packet, now: Millis, policy: Policy)
    requires Waits(m) && Configures(p) && |p.data| <= MAXIMUM_DATA && (p.code == CONFIGURE_REQUEST || IsVoid(p))
    ensures var s := ReceivePacket(m, p, now, policy);
            && Waits(s.machine) && s.machine.options == m.options && s.machine.requestIdentifier == m.requestIdentifier
            && forall k | 0 <= k < |PacketsOf(s)| ::
                 Configures(PacketsOf(s)[k]) && PacketsOf(s)[k].code != CONFIGURE_REQUEST
  {
    if p.code == CONFIGURE_REQUEST && WellFormed(p.data) { ReadsRequest(m, p, now, policy); }
  }

  lemma SpurnedToA(l: Link, now: Millis, policy: Policy)
    requires Spurned(l)
    ensures Spurned(Deliver(l, now, policy))
  {
    if l.toA != [] {
      var p := l.toA[0];
      assert Configures(p);
      WireIsReceived(l.a, p, now, policy);
      WaitsOn(l.a, p, now, policy);
      SpurnedReads(l, ReceivePacket(l.a, p, now, policy));
    }
  }

  lemma SpurnedReads(l: Link, s: Step)
    requires Spurned(l) && l.toA != []
    requires Waits(s.machine) && Request(s.machine) == Request(l.a)
    requires forall k | 0 <= k < |PacketsOf(s)| ::
               Configures(PacketsOf(s)[k]) && PacketsOf(s)[k].code != CONFIGURE_REQUEST
    ensures Spurned(Emit(l.(toA := l.toA[1..]), s))
  {
    var l' := Emit(l.(toA := l.toA[1..]), s);
    forall k | 0 <= k < |l'.toB|
      ensures Configures(l'.toB[k]) && (l'.toB[k].code == CONFIGURE_REQUEST ==> l'.toB[k] == Request(l'.a))
    {
      assert l'.toB[k] == if k < |l.toB| then l.toB[k] else PacketsOf(s)[k - |l.toB|];
    }
    forall k | 0 <= k < |l'.toA|
      ensures Configures(l'.toA[k]) && (l'.toA[k].code == CONFIGURE_REQUEST || IsVoid(l'.toA[k]))
    {
      assert l'.toA[k] == l.toA[k + 1];
    }
  }

  /** B's answer to A's request is a void Reject. */
  lemma AnswerIsVoid(m: Lcp, judge: Lcp, policy: Policy)
    requires HasRepeatedTypes(m.options)
    ensures ParseOptions(Request(m).data) == Ok(m.options)
    ensures IsVoid(AnswerTo(Request(m), Evaluate(m.options, policy, FirstMagic(judge.options))))
  {
    EncodedOptionsParse(m.options);
    RepeatsAreRejected(m.options, policy, FirstMagic(judge.options));
    EncodedOptionsParse(Evaluate(m.options, policy, FirstMagic(judge.options)).refused);
  }

  lemma PeerSends(l: Link, now: Millis, policy: Policy)
    requires Spurned(l) && l.toB != []
    ensures var s := Receive(l.b, Wire(l.toB[0]), now, policy);
            && Invariant(s.machine)
            && forall k | 0 <= k < |PacketsOf(s)| ::
                 Configures(PacketsOf(s)[k]) && (PacketsOf(s)[k].code == CONFIGURE_REQUEST || IsVoid(PacketsOf(s)[k]))
  {
    var p := l.toB[0];
    assert Configures(p);
    WireIsReceived(l.b, p, now, policy);
    MachineResponds(l.b, p, now, policy);
    AnswerIsVoid(l.a, l.b, policy);
  }

  lemma SpurnedToB(l: Link, now: Millis, policy: Policy)
    requires Spurned(l)
    ensures Spurned(Swap(Deliver(Swap(l), now, policy)))
  {
    if l.toB != [] {
      PeerSends(l, now, policy);
      var sent := PacketsOf(Receive(l.b, Wire(l.toB[0]), now, policy));
      var l' := Swap(Deliver(Swap(l), now, policy));
      forall k | 0 <= k < |l'.toA|
        ensures Configures(l'.toA[k]) && (l'.toA[k].code == CONFIGURE_REQUEST || IsVoid(l'.toA[k]))
      {
        assert l'.toA[k] == if k < |l.toA| then l.toA[k] else sent[k - |l.toA|];
      }
      forall k | 0 <= k < |l'.toB|
        ensures Configures(l'.toB[k]) && (l'.toB[k].code == CONFIGURE_REQUEST ==> l'.toB[k] == Request(l'.a))
      {
        assert l'.toB[k] == l.toB[k + 1];
      }
    }
  }
}
