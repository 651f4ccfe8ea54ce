/** Option policy of the LCP negotiation: judging a peer's request, answering a Nak or a
    Reject, and why the two corrections lead to agreement. */
module LcpPolicy {
  import opened Octets
  import opened LcpCodec

  const DEFAULT_MRU: Word16 := 1500
  const DEFAULT_ACCM: Word32 := 0xffff_ffff
  const MAGIC_RETRY_INCREMENT: Word32 := 0x9e37_79b9

  // Option types
  const MRU: Octet := 1
  const ACCM: Octet := 2
  const AUTHENTICATION: Octet := 3
  const MAGIC: Octet := 5

  datatype AuthenticationProtocol = Pap | ChapMd5

  datatype PeerConfiguration = PeerConfiguration(
    transmitMru: Word16,
    transmitAccm: Word32,
    authentication: Option<AuthenticationProtocol>,
    magicNumber: Option<Word32>)

  const DEFAULT_PEER := PeerConfiguration(DEFAULT_MRU, DEFAULT_ACCM, None, None)

  datatype Policy = Policy(acceptPap: bool, acceptChapMd5: bool)

  datatype Disposition = Accept | Suggest(replacement: ConfigOption) | Refuse

  const PAP_DATA: Bytes := [0xc0, 0x23]
  const CHAP_DATA: Bytes := [0xc2, 0x23, 5]
  const MRU_SUGGESTION: ConfigOption := RawOption(MRU, [0x05, 0xdc])
  const ACCM_SUGGESTION: ConfigOption := RawOption(ACCM, [0xff, 0xff, 0xff, 0xff])
  const CHAP_SUGGESTION: ConfigOption := RawOption(AUTHENTICATION, CHAP_DATA)
  const PAP_SUGGESTION: ConfigOption := RawOption(AUTHENTICATION, PAP_DATA)

  function MagicOption(value: Word32): ConfigOption { RawOption(MAGIC, BigEndian32(value)) }

  function NextMagic(current: Word32): (next: Word32)
    ensures next != 0 && next != current
  {
    var candidate := (current + MAGIC_RETRY_INCREMENT) % 0x1_0000_0000;
    if candidate == 0 then MAGIC_RETRY_INCREMENT else candidate
  }

  predicate IsMagic(o: ConfigOption) { o.kind == MAGIC && |o.data| == 4 }

  function MagicOf(o: ConfigOption): Word32
    requires IsMagic(o)
  {
    ReadBigEndian32(o.data)
  }

  /** The magic number of the first four-octet Magic-Number option. */
  function FirstMagic(options: seq<ConfigOption>): Option<Word32> {
    if options == [] then None
    else if IsMagic(options[0]) then Some(MagicOf(options[0]))
    else FirstMagic(options[1..])
  }

  // ----- Judging a request -----

  /** One option of a request, with the configuration as it is if the option is accepted. */
  function EvaluateOption(o: ConfigOption, policy: Policy, localMagic: Option<Word32>, configuration: PeerConfiguration)
    : (Disposition, PeerConfiguration)
  {
    if o.kind == MRU && |o.data| == 2 then
      var value := ReadBigEndian16(o.data[0], o.data[1]);
      if value == 0 then (Suggest(MRU_SUGGESTION), configuration)
      else (Accept, configuration.(transmitMru := value))
    else if o.kind == MRU then (Suggest(MRU_SUGGESTION), configuration)
    else if o.kind == ACCM && |o.data| == 4 then
      (Accept, configuration.(transmitAccm := ReadBigEndian32(o.data)))
    else if o.kind == ACCM then (Suggest(ACCM_SUGGESTION), configuration)
    else if o.kind == AUTHENTICATION && policy.acceptChapMd5 && o.data == CHAP_DATA then
      (Accept, configuration.(authentication := Some(ChapMd5)))
    else if o.kind == AUTHENTICATION && policy.acceptPap && o.data == PAP_DATA then
      (Accept, configuration.(authentication := Some(Pap)))
    else if o.kind == AUTHENTICATION && policy.acceptChapMd5 then (Suggest(CHAP_SUGGESTION), configuration)
    else if o.kind == AUTHENTICATION && policy.acceptPap then (Suggest(PAP_SUGGESTION), configuration)
    else if IsMagic(o) then
      var value := MagicOf(o);
      if value == 0 || Some(value) == localMagic then
        (Suggest(MagicOption(NextMagic(if localMagic.Some? then localMagic.value else value))), configuration)
      else (Accept, configuration.(magicNumber := Some(value)))
    else (Refuse, configuration)
  }

  /** The type occurs more than once in the list. */
  predicate Repeated(options: seq<ConfigOption>, kind: Octet) {
    exists i, j | 0 <= i < j < |options| :: options[i].kind == kind && options[j].kind == kind
  }

  predicate HasRepeatedTypes(options: seq<ConfigOption>) {
    exists k | 0 <= k < |options| :: Repeated(options, options[k].kind)
  }

  /** The verdict on one option of a list; it does not depend on the rest of the list except
      that repeated types are refused. */
  function Judge(options: seq<ConfigOption>, k: nat, policy: Policy, localMagic: Option<Word32>): Disposition
    requires k < |options|
  {
    if Repeated(options, options[k].kind) then Refuse
    else EvaluateOption(options[k], policy, localMagic, DEFAULT_PEER).0
  }

  function Verdicts(options: seq<ConfigOption>, policy: Policy, localMagic: Option<Word32>): (v: seq<Disposition>)
    ensures |v| == |options|
    ensures forall k | 0 <= k < |options| :: v[k] == Judge(options, k, policy, localMagic)
  {
    seq(|options|, k requires 0 <= k < |options| => Judge(options, k, policy, localMagic))
  }

  function Refused(options: seq<ConfigOption>, verdicts: seq<Disposition>): seq<ConfigOption>
    requires |options| == |verdicts|
  {
    if options == [] then []
    else (if verdicts[0].Refuse? then [options[0]] else []) + Refused(options[1..], verdicts[1..])
  }

  function Suggestions(verdicts: seq<Disposition>): seq<ConfigOption> {
    if verdicts == [] then []
    else (if verdicts[0].Suggest? then [verdicts[0].replacement] else []) + Suggestions(verdicts[1..])
  }

  /** What an option list says about its sender, whoever reads it. */
  function Denote(options: seq<ConfigOption>): PeerConfiguration {
    if options == [] then DEFAULT_PEER
    else Describe(options[|options| - 1], Denote(options[..|options| - 1]))
  }

  function Describe(o: ConfigOption, before: PeerConfiguration): PeerConfiguration {
    if o.kind == MRU && |o.data| == 2 then before.(transmitMru := ReadBigEndian16(o.data[0], o.data[1]))
    else if o.kind == ACCM && |o.data| == 4 then before.(transmitAccm := ReadBigEndian32(o.data))
    else if o.kind == AUTHENTICATION && o.data == CHAP_DATA then before.(authentication := Some(ChapMd5))
    else if o.kind == AUTHENTICATION && o.data == PAP_DATA then before.(authentication := Some(Pap))
    else if IsMagic(o) then before.(magicNumber := Some(MagicOf(o)))
    else before
  }

  datatype Evaluation =
    | Acked(configuration: PeerConfiguration)
    | Naked(suggestions: seq<ConfigOption>)
    | Rejected(refused: seq<ConfigOption>)

  function Evaluate(options: seq<ConfigOption>, policy: Policy, localMagic: Option<Word32>): Evaluation {
    var verdicts := Verdicts(options, policy, localMagic);
    if Refuse in verdicts then Rejected(Refused(options, verdicts))
    else if exists k | 0 <= k < |verdicts| :: verdicts[k].Suggest? then Naked(Suggestions(verdicts))
    else Acked(Denote(options))
  }

  /** Marks the types a list repeats, in one pass over the list. */
  method DuplicateTypes(options: seq<ConfigOption>) returns (duplicate: array<bool>)
    ensures fresh(duplicate) && duplicate.Length == 256
    ensures forall t: Octet :: duplicate[t] <==> Repeated(options, t)
  {
    var seen := new bool[256](_ => false);
    duplicate := new bool[256](_ => false);
    for n := 0 to |options|
      invariant fresh(seen) && fresh(duplicate)
      invariant forall t: Octet :: seen[t] <==> exists k | 0 <= k < n :: options[k].kind == t
      invariant forall t: Octet :: duplicate[t] <==> Repeated(options[..n], t)
    {
      var kind := options[n].kind;
      forall t: Octet {
        RepeatedAppend(options, n, t);
      }
      duplicate[kind] := duplicate[kind] || seen[kind];
      seen[kind] := true;
    }
    assert options[..|options|] == options;
  }

  lemma RepeatedAppend(options: seq<ConfigOption>, n: nat, t: Octet)
    requires n < |options|
    ensures Repeated(options[..n + 1], t) <==>
              || Repeated(options[..n], t)
              || (options[n].kind == t && exists k | 0 <= k < n :: options[k].kind == t)
  {
    var (shorter, longer) := (options[..n], options[..n + 1]);
    if options[n].kind == t {
      if k :| 0 <= k < n && options[k].kind == t {
        assert longer[k].kind == t && longer[n].kind == t;
      }
    }
    if i, j :| 0 <= i < j < n && shorter[i].kind == t && shorter[j].kind == t {
      assert longer[i].kind == t && longer[j].kind == t;
    }
    if i, j :| 0 <= i < j < n + 1 && longer[i].kind == t && longer[j].kind == t {
      assert options[i].kind == t;
      if j < n {
        assert shorter[i].kind == t && shorter[j].kind == t;
      }
    }
  }

  /** Accepting an option records what it says, whatever the configuration was before. */
  lemma AcceptedIsDescribed(o: ConfigOption, policy: Policy, localMagic: Option<Word32>, before: PeerConfiguration)
    ensures var (verdict, after) := EvaluateOption(o, policy, localMagic, before);
            && verdict == EvaluateOption(o, policy, localMagic, DEFAULT_PEER).0
            && after == if verdict.Accept? then Describe(o, before) else before
  {
  }

  /** The loop over the options of a request. Configuration and verdicts grow together, and a
      configuration in which everything was accepted is what the list denotes. */
  method EvaluateRequest(options: seq<ConfigOption>, policy: Policy, localMagic: Option<Word32>)
    returns (evaluation: Evaluation)
    ensures evaluation == Evaluate(options, policy, localMagic)
  {
    var duplicates := DuplicateTypes(options);
    var configuration := DEFAULT_PEER;
    var verdicts: seq<Disposition> := [];
    ghost var allAccepted := true;
    for n := 0 to |options|
      invariant forall t: Octet :: duplicates[t] <==> Repeated(options, t)
      invariant |verdicts| == n
      invariant forall k | 0 <= k < n :: verdicts[k] == Judge(options, k, policy, localMagic)
      invariant allAccepted <==> forall k | 0 <= k < n :: verdicts[k].Accept?
      invariant allAccepted ==> configuration == Denote(options[..n])
    {
      var verdict := Refuse;
      if !duplicates[options[n].kind] {
        AcceptedIsDescribed(options[n], policy, localMagic, configuration);
        var (disposition, changed) := EvaluateOption(options[n], policy, localMagic, configuration);
        verdict, configuration := disposition, changed;
      }
      assert verdict == Judge(options, n, policy, localMagic);
      ghost var before := verdicts;
      verdicts := verdicts + [verdict];
      assert forall k | 0 <= k < n :: verdicts[k] == before[k];
      allAccepted := allAccepted && verdict.Accept?;
      assert options[..n + 1][..n] == options[..n];
    }
    assert options[..|options|] == options;
    assert verdicts == Verdicts(options, policy, localMagic);
    if Refuse in verdicts {
      return Rejected(Refused(options, verdicts));
    }
    if exists k | 0 <= k < |verdicts| :: verdicts[k].Suggest? {
      return Naked(Suggestions(verdicts));
    }
    return Acked(configuration);
  }

  // ----- Answering a Nak and a Reject -----

  predicate Mentions(options: seq<ConfigOption>, kind: Octet) {
    exists k | 0 <= k < |options| :: options[k].kind == kind
  }

  /** The first option of the type. */
  function FindType(options: seq<ConfigOption>, kind: Octet): (r: Option<ConfigOption>)
    ensures r.Some? ==> r.value in options && r.value.kind == kind
    ensures r.None? <==> !Mentions(options, kind)
  {
    if options == [] then None
    else if options[0].kind == kind then
      assert Mentions(options, kind) by { assert options[0].kind == kind; }
      Some(options[0])
    else
      assert Mentions(options[1..], kind) ==> Mentions(options, kind) by {
        if k :| 0 <= k < |options| - 1 && options[1..][k].kind == kind { assert options[k + 1].kind == kind; }
      }
      assert Mentions(options, kind) ==> Mentions(options[1..], kind) by {
        if k :| 0 <= k < |options| && options[k].kind == kind { assert options[1..][k - 1].kind == kind; }
      }
      FindType(options[1..], kind)
  }

  /** A suggested magic number that is zero or no change at all is replaced by a fresh one. */
  function Amend(o: ConfigOption, suggestions: seq<ConfigOption>): (r: ConfigOption)
    ensures r.kind == o.kind
  {
    match FindType(suggestions, o.kind)
    case None => o
    case Some(s) =>
      if IsMagic(o) && IsMagic(s) then
        var (current, suggested) := (MagicOf(o), MagicOf(s));
        MagicOption(if suggested == 0 || suggested == current then NextMagic(current) else suggested)
      else s
  }

  function ApplyNak(local: seq<ConfigOption>, suggestions: seq<ConfigOption>): (r: seq<ConfigOption>)
    ensures |r| == |local|
    ensures forall k | 0 <= k < |local| :: r[k].kind == local[k].kind
  {
    seq(|local|, k requires 0 <= k < |local| => Amend(local[k], suggestions))
  }

  function Without(local: seq<ConfigOption>, refused: seq<ConfigOption>): seq<ConfigOption> {
    if local == [] then []
    else (if local[0] in refused then [] else [local[0]]) + Without(local[1..], refused)
  }

  /** None where the Reject is not a valid answer to the local list. */
  function ApplyReject(local: seq<ConfigOption>, refused: seq<ConfigOption>): Option<seq<ConfigOption>> {
    if refused == [] || HasRepeatedTypes(refused) || exists o | o in refused :: o !in local then None
    else Some(Without(local, refused))
  }

  /** The octets the loop of a Nak builds, option by option. */
  method BuildNak(local: seq<ConfigOption>, suggestions: seq<ConfigOption>) returns (output: Bytes)
    ensures output == EncodeOptions(ApplyNak(local, suggestions))
  {
    output := [];
    for n := 0 to |local|
      invariant output == EncodeOptions(ApplyNak(local[..n], suggestions))
    {
      var amended := Amend(local[n], suggestions);
      output := output + EncodeOption(amended);
      EncodeOptionsAppend(ApplyNak(local[..n], suggestions), [amended]);
      assert ApplyNak(local[..n + 1], suggestions) == ApplyNak(local[..n], suggestions) + [amended];
      assert EncodeOptions([amended]) == EncodeOption(amended);
    }
    assert local[..|local|] == local;
  }

  method BuildReject(local: seq<ConfigOption>, refused: seq<ConfigOption>) returns (output: Option<Bytes>)
    ensures output == match ApplyReject(local, refused)
                      case None => None
                      case Some(kept) => Some(EncodeOptions(kept))
  {
    if refused == [] || HasRepeatedTypes(refused) || exists o | o in refused :: o !in local {
      return None;
    }
    var bytes: Bytes := [];
    for n := 0 to |local|
      invariant bytes == EncodeOptions(Without(local[..n], refused))
    {
      WithoutAppend(local, n, refused);
      if local[n] !in refused {
        bytes := bytes + EncodeOption(local[n]);
        EncodeOptionsAppend(Without(local[..n], refused), [local[n]]);
        assert EncodeOptions([local[n]]) == EncodeOption(local[n]);
      } else {
        assert Without(local[..n], refused) + [] == Without(local[..n], refused);
      }
    }
    assert local[..|local|] == local;
    return Some(bytes);
  }

  lemma {:induction false} WithoutAppend(local: seq<ConfigOption>, n: nat, refused: seq<ConfigOption>)
    requires n < |local|
    ensures Without(local[..n + 1], refused)
            == Without(local[..n], refused) + (if local[n] in refused then [] else [local[n]])
  {
    if n == 0 {
      assert local[..1][1..] == [] && local[..0] == [];
    } else {
      WithoutAppend(local[1..], n - 1, refused);
      assert local[..n + 1][1..] == local[1..][..n];
      assert local[..n][1..] == local[1..][..n - 1];
    }
  }
}
