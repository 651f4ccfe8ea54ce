/** Option handling of the IPCP client (RFC 1332): judging the peer's request, and taking Naks and
    Rejects option by option. Options have the shape of LCP options. */
module IpcpPolicy {
  import opened Octets
  import opened LcpCodec
  import opened LcpPolicy
  import Ipv4

  type Address = Ipv4.Address

  const UNSPECIFIED: Address := [0, 0, 0, 0]

  const IP_ADDRESS: Octet := 3
  const PRIMARY_DNS: Octet := 129
  const SECONDARY_DNS: Octet := 131

  /** Addresses as negotiated so far, and which of them are still asked for. */
  datatype Config = Config(
    local: Address, peer: Address, primary: Address, secondary: Address,
    askLocal: bool, askPrimary: bool, askSecondary: bool)

  function Fresh(local: Address, peer: Address): Config {
    Config(local, peer, UNSPECIFIED, UNSPECIFIED, true, true, true)
  }

  function AddressOption(kind: Octet, address: Address): ConfigOption { RawOption(kind, address) }

  function LocalOptions(c: Config): seq<ConfigOption> {
    (if c.askLocal then [AddressOption(IP_ADDRESS, c.local)] else [])
    + (if c.askPrimary then [AddressOption(PRIMARY_DNS, c.primary)] else [])
    + (if c.askSecondary then [AddressOption(SECONDARY_DNS, c.secondary)] else [])
  }

  /** An address one can be configured with. */
  predicate Usable(o: ConfigOption) { |o.data| == 4 && o.data != UNSPECIFIED }

  // ----- The peer's request -----

  datatype PeerEvaluation =
    | AckPeer(address: Option<Address>)
    | NakPeer(suggestions: seq<ConfigOption>)
    | RejectPeer(refused: seq<ConfigOption>)

  function JudgeAddress(options: seq<ConfigOption>, k: nat, preferred: Address): Disposition
    requires k < |options|
  {
    if Repeated(options, options[k].kind) || options[k].kind != IP_ADDRESS then Refuse
    else if Usable(options[k]) then Accept
    else if preferred == UNSPECIFIED then Refuse
    else Suggest(AddressOption(IP_ADDRESS, preferred))
  }

  function AddressVerdicts(options: seq<ConfigOption>, preferred: Address): seq<Disposition> {
    seq(|options|, k requires 0 <= k < |options| => JudgeAddress(options, k, preferred))
  }

  /** Only an empty request and a single IP-Address option can be anything but rejected. */
  function EvaluatePeer(options: seq<ConfigOption>, preferred: Address): PeerEvaluation {
    if options == [] then AckPeer(None)
    else if |options| == 1 && options[0].kind == IP_ADDRESS then
      if Usable(options[0]) then AckPeer(Some(options[0].data))
      else if preferred == UNSPECIFIED then RejectPeer(options)
      else NakPeer([AddressOption(IP_ADDRESS, preferred)])
    else RejectPeer(Refused(options, AddressVerdicts(options, preferred)))
  }

  /** Of several options one at least is repeated or no IP-Address. */
  lemma SeveralAreRefused(options: seq<ConfigOption>, preferred: Address)
    requires |options| > 1 || (|options| == 1 && options[0].kind != IP_ADDRESS)
    ensures Refuse in AddressVerdicts(options, preferred)
  {
    var verdicts := AddressVerdicts(options, preferred);
    if |options| > 1 && options[0].kind == IP_ADDRESS && options[1].kind == IP_ADDRESS {
      assert Repeated(options, IP_ADDRESS);
      assert verdicts[0] == Refuse;
    } else if options[0].kind != IP_ADDRESS {
      assert verdicts[0] == Refuse;
    } else {
      assert verdicts[1] == Refuse;
    }
  }

  lemma OneVerdict(o: ConfigOption, preferred: Address)
    requires o.kind == IP_ADDRESS
    ensures var verdict := if Usable(o) then Accept
                           else if preferred == UNSPECIFIED then Refuse
                           else Suggest(AddressOption(IP_ADDRESS, preferred));
            && AddressVerdicts([o], preferred) == [verdict]
            && Refused([o], [verdict]) == (if verdict.Refuse? then [o] else [])
            && Suggestions([verdict]) == (if verdict.Suggest? then [verdict.replacement] else [])
  {
    assert Refused([], []) == [] && Suggestions([]) == [];
  }

  /** The pass over the options with the table of duplicate types. */
  method EvaluatePeerRequest(options: seq<ConfigOption>, preferred: Address) returns (evaluation: PeerEvaluation)
    ensures evaluation == EvaluatePeer(options, preferred)
  {
    var duplicates := DuplicateTypes(options);
    var address: Option<Address> := None;
    var verdicts: seq<Disposition> := [];
    for n := 0 to |options|
      invariant forall t: Octet :: duplicates[t] <==> Repeated(options, t)
      invariant |verdicts| == n && forall k | 0 <= k < n :: verdicts[k] == JudgeAddress(options, k, preferred)
      invariant |options| == 1 && n == 1 && verdicts[0] == Accept ==> address == Some(options[0].data)
      invariant n == 0 ==> address == None
    {
      var o := options[n];
      var verdict := Refuse;
      if !duplicates[o.kind] && o.kind == IP_ADDRESS {
        if Usable(o) {
          address := Some(o.data);
          verdict := Accept;
        } else if preferred != UNSPECIFIED {
          verdict := Suggest(AddressOption(IP_ADDRESS, preferred));
        }
      }
      verdicts := verdicts + [verdict];
    }
    assert verdicts == AddressVerdicts(options, preferred);
    if |options| == 1 && options[0].kind == IP_ADDRESS {
      assert options == [options[0]];
      OneVerdict(options[0], preferred);
    } else if options != [] {
      SeveralAreRefused(options, preferred);
    }
    if Refuse in verdicts {
      return RejectPeer(Refused(options, verdicts));
    }
    if exists k | 0 <= k < |verdicts| :: verdicts[k].Suggest? {
      return NakPeer(Suggestions(verdicts));
    }
    return AckPeer(address);
  }

  // ----- Naks and Rejects, option by option -----

  function Take(c: Config, o: ConfigOption): Option<Config> {
    if !Usable(o) then None
    else if o.kind == IP_ADDRESS && c.askLocal then Some(c.(local := o.data))
    else if o.kind == PRIMARY_DNS && c.askPrimary then Some(c.(primary := o.data))
    else if o.kind == SECONDARY_DNS && c.askSecondary then Some(c.(secondary := o.data))
    else None
  }

  function Drop(c: Config, o: ConfigOption): Option<Config> {
    if o == AddressOption(IP_ADDRESS, c.local) && c.askLocal then Some(c.(askLocal := false))
    else if o == AddressOption(PRIMARY_DNS, c.primary) && c.askPrimary then
      Some(c.(askPrimary := false, primary := UNSPECIFIED))
    else if o == AddressOption(SECONDARY_DNS, c.secondary) && c.askSecondary then
      Some(c.(askSecondary := false, secondary := UNSPECIFIED))
    else None
  }

  /** Options are taken up to the first one that is not valid; whether there was none. */
  function Each(step: (Config, ConfigOption) -> Option<Config>, c: Config, options: seq<ConfigOption>): (Config, bool)
    decreases |options|
  {
    if options == [] then (c, true)
    else
      match step(c, options[0])
      case None => (c, false)
      case Some(next) => Each(step, next, options[1..])
  }

  /** An option the client asks for now. */
  predicate Wanted(c: Config, o: ConfigOption) { Usable(o) && Mentions(LocalOptions(c), o.kind) }

  lemma LocalTypes(c: Config)
    ensures Mentions(LocalOptions(c), IP_ADDRESS) <==> c.askLocal
    ensures Mentions(LocalOptions(c), PRIMARY_DNS) <==> c.askPrimary
    ensures Mentions(LocalOptions(c), SECONDARY_DNS) <==> c.askSecondary
    ensures forall kind | Mentions(LocalOptions(c), kind) :: kind in {IP_ADDRESS, PRIMARY_DNS, SECONDARY_DNS}
  {
    var list := LocalOptions(c);
    var (one, two) := (if c.askLocal then 1 else 0, if c.askPrimary then 1 else 0);
    assert c.askLocal ==> list[0].kind == IP_ADDRESS;
    assert c.askPrimary ==> list[one].kind == PRIMARY_DNS;
    assert c.askSecondary ==> list[one + two].kind == SECONDARY_DNS;
  }

  lemma LocalMembers(c: Config, o: ConfigOption)
    ensures o in LocalOptions(c) <==>
              || (c.askLocal && o == AddressOption(IP_ADDRESS, c.local))
              || (c.askPrimary && o == AddressOption(PRIMARY_DNS, c.primary))
              || (c.askSecondary && o == AddressOption(SECONDARY_DNS, c.secondary))
  {
    var list := LocalOptions(c);
    var (one, two) := (if c.askLocal then 1 else 0, if c.askPrimary then 1 else 0);
    assert c.askLocal ==> list[0] == AddressOption(IP_ADDRESS, c.local);
    assert c.askPrimary ==> list[one] == AddressOption(PRIMARY_DNS, c.primary);
    assert c.askSecondary ==> list[one + two] == AddressOption(SECONDARY_DNS, c.secondary);
  }

  lemma RepeatedBehind(options: seq<ConfigOption>)
    requires options != []
    ensures Mentions(options[1..], options[0].kind) || HasRepeatedTypes(options[1..]) ==> HasRepeatedTypes(options)
  {
    var rest := options[1..];
    if k :| 0 <= k < |rest| && rest[k].kind == options[0].kind {
      assert options[k + 1].kind == options[0].kind;
      assert Repeated(options, options[0].kind);
    } else if k :| 0 <= k < |rest| && Repeated(rest, rest[k].kind) {
      var i, j :| 0 <= i < j < |rest| && rest[i].kind == rest[k].kind && rest[j].kind == rest[k].kind;
      assert options[i + 1].kind == rest[k].kind && options[j + 1].kind == rest[k].kind;
      assert Repeated(options, options[k + 1].kind);
    }
  }

  // ----- Rejects: the loop drops what the LCP filter drops -----

  lemma DropStep(c: Config, o: ConfigOption)
    ensures Drop(c, o).Some? <==> o in LocalOptions(c)
    ensures Drop(c, o).Some? ==> LocalOptions(Drop(c, o).value) == Without(LocalOptions(c), [o])
  {
    LocalMembers(c, o);
    WithoutAddresses(c, o);
  }

  lemma WithoutAddresses(c: Config, o: ConfigOption)
    ensures Without(LocalOptions(c), [o])
            == (if c.askLocal && o != AddressOption(IP_ADDRESS, c.local)
                then [AddressOption(IP_ADDRESS, c.local)] else [])
             + (if c.askPrimary && o != AddressOption(PRIMARY_DNS, c.primary)
                then [AddressOption(PRIMARY_DNS, c.primary)] else [])
             + (if c.askSecondary && o != AddressOption(SECONDARY_DNS, c.secondary)
                then [AddressOption(SECONDARY_DNS, c.secondary)] else [])
  {
    var first := if c.askLocal then [AddressOption(IP_ADDRESS, c.local)] else [];
    var second := if c.askPrimary then [AddressOption(PRIMARY_DNS, c.primary)] else [];
    var third := if c.askSecondary then [AddressOption(SECONDARY_DNS, c.secondary)] else [];
    WithoutConcat(first + second, third, [o]);
    WithoutConcat(first, second, [o]);
    if c.askLocal { WithoutOne(first[0], o); }
    if c.askPrimary { WithoutOne(second[0], o); }
    if c.askSecondary { WithoutOne(third[0], o); }
  }

  lemma WithoutOne(a: ConfigOption, o: ConfigOption)
    ensures Without([a], [o]) == if a == o then [] else [a]
  {
    assert Without([], [o]) == [];
  }

  lemma {:induction false} WithoutConcat(a: seq<ConfigOption>, b: seq<ConfigOption>, refused: seq<ConfigOption>)
    ensures Without(a + b, refused) == Without(a, refused) + Without(b, refused)
  {
    if a == [] {
      assert a + b == b;
    } else {
      var front := if a[0] in refused then [] else [a[0]];
      WithoutConcat(a[1..], b, refused);
      assert (a + b)[1..] == a[1..] + b && (a + b)[0] == a[0];
      JoinThree(front, Without(a[1..], refused), Without(b, refused));
    }
  }

  lemma JoinThree(a: seq<ConfigOption>, b: seq<ConfigOption>, c: seq<ConfigOption>)
    ensures a + (b + c) == a + b + c
  {
  }

  lemma {:induction false} WithoutTwice(local: seq<ConfigOption>, o: ConfigOption, rest: seq<ConfigOption>)
    ensures Without(Without(local, [o]), rest) == Without(local, [o] + rest)
  {
    if local != [] {
      WithoutTwice(local[1..], o, rest);
      var front := if local[0] in [o] then [] else [local[0]];
      WithoutConcat(front, Without(local[1..], [o]), rest);
      assert local[0] in [o] + rest <==> local[0] == o || local[0] in rest;
      assert Without([], rest) == [];
      assert front != [] ==> Without(front, rest) == (if local[0] in rest then [] else [local[0]]);
    }
  }

  lemma OtherMembersStay(c: Config, o: ConfigOption, other: ConfigOption)
    requires Drop(c, o).Some? && other.kind != o.kind
    ensures other in LocalOptions(Drop(c, o).value) <==> other in LocalOptions(c)
  {
    LocalMembers(c, other);
    LocalMembers(Drop(c, o).value, other);
  }

  lemma {:induction false} DropsAreValid(c: Config, options: seq<ConfigOption>)
    requires !HasRepeatedTypes(options)
    ensures Each(Drop, c, options).1 <==> forall o | o in options :: o in LocalOptions(c)
    decreases |options|
  {
    if options != [] {
      var (o, rest) := (options[0], options[1..]);
      DropStep(c, o);
      RepeatedBehind(options);
      if Drop(c, o).Some? {
        DropsAreValid(Drop(c, o).value, rest);
        forall other | other in rest
          ensures other in LocalOptions(Drop(c, o).value) <==> other in LocalOptions(c)
        {
          OtherMembersStay(c, o, other);
        }
        assert forall other | other in options :: other == o || other in rest;
        assert forall other | other in rest :: other in options;
      }
    }
  }

  lemma {:induction false} DropsAreFilter(c: Config, options: seq<ConfigOption>)
    requires Each(Drop, c, options).1
    ensures LocalOptions(Each(Drop, c, options).0) == Without(LocalOptions(c), options)
    decreases |options|
  {
    if options == [] {
      WithoutNothing(LocalOptions(c));
    } else {
      DropStep(c, options[0]);
      DropsAreFilter(Drop(c, options[0]).value, options[1..]);
      WithoutTwice(LocalOptions(c), options[0], options[1..]);
      assert options == [options[0]] + options[1..];
    }
  }

  lemma {:induction false} WithoutNothing(local: seq<ConfigOption>)
    ensures Without(local, []) == local
  {
    if local != [] {
      WithoutNothing(local[1..]);
    }
  }

  /** A Reject leaves exactly the list that LCP's filter leaves, and is invalid exactly where that is. */
  lemma RejectAgreesWithLcp(c: Config, options: seq<ConfigOption>)
    requires options != [] && !HasRepeatedTypes(options)
    ensures var (after, valid) := Each(Drop, c, options);
            ApplyReject(LocalOptions(c), options) == if valid then Some(LocalOptions(after)) else None
  {
    DropsAreValid(c, options);
    if Each(Drop, c, options).1 {
      DropsAreFilter(c, options);
    }
  }

  // ----- Naks: the loop takes what LCP's amendment takes -----

  lemma TakeIsWanted(c: Config, o: ConfigOption)
    ensures Take(c, o).Some? <==> Wanted(c, o)
  {
    LocalTypes(c);
  }

  lemma AmendConcat(a: seq<ConfigOption>, b: seq<ConfigOption>, suggestions: seq<ConfigOption>)
    ensures ApplyNak(a + b, suggestions) == ApplyNak(a, suggestions) + ApplyNak(b, suggestions)
  {
  }

  lemma AmendOne(a: ConfigOption, o: ConfigOption)
    requires a.kind != MAGIC
    ensures ApplyNak([a], [o]) == [if o.kind == a.kind then o else a]
  {
    FindOne(o, a.kind);
  }

  lemma AmendAddresses(c: Config, o: ConfigOption)
    requires Usable(o)
    ensures ApplyNak(LocalOptions(c), [o])
            == (if c.askLocal then [AddressOption(IP_ADDRESS, if o.kind == IP_ADDRESS then o.data else c.local)]
                else [])
             + (if c.askPrimary then [AddressOption(PRIMARY_DNS, if o.kind == PRIMARY_DNS then o.data else c.primary)]
                else [])
             + (if c.askSecondary
                then [AddressOption(SECONDARY_DNS, if o.kind == SECONDARY_DNS then o.data else c.secondary)] else [])
  {
    var first := if c.askLocal then [AddressOption(IP_ADDRESS, c.local)] else [];
    var second := if c.askPrimary then [AddressOption(PRIMARY_DNS, c.primary)] else [];
    var third := if c.askSecondary then [AddressOption(SECONDARY_DNS, c.secondary)] else [];
    AmendConcat(first + second, third, [o]);
    AmendConcat(first, second, [o]);
    if c.askLocal { AmendOne(first[0], o); }
    if c.askPrimary { AmendOne(second[0], o); }
    if c.askSecondary { AmendOne(third[0], o); }
  }

  lemma TakeStep(c: Config, o: ConfigOption)
    ensures Take(c, o).Some? <==> Wanted(c, o)
    ensures Take(c, o).Some? ==> LocalOptions(Take(c, o).value) == ApplyNak(LocalOptions(c), [o])
  {
    TakeIsWanted(c, o);
    if Take(c, o).Some? { AmendAddresses(c, o); }
  }

  lemma FindOne(o: ConfigOption, kind: Octet)
    ensures FindType([o], kind) == if o.kind == kind then Some(o) else None
  {
    assert FindType([], kind) == None;
  }

  predicate NoMagic(local: seq<ConfigOption>) { forall k | 0 <= k < |local| :: local[k].kind != MAGIC }

  lemma AmendTwice(local: seq<ConfigOption>, o: ConfigOption, rest: seq<ConfigOption>)
    requires NoMagic(local) && !Mentions(rest, o.kind)
    ensures ApplyNak(ApplyNak(local, [o]), rest) == ApplyNak(local, [o] + rest)
  {
    assert ([o] + rest)[1..] == rest;
    forall k | 0 <= k < |local|
      ensures Amend(Amend(local[k], [o]), rest) == Amend(local[k], [o] + rest)
    {
      FindOne(o, local[k].kind);
    }
  }

  lemma SameWishes(c: Config, o: ConfigOption, other: ConfigOption)
    requires Take(c, o).Some?
    ensures Wanted(Take(c, o).value, other) <==> Wanted(c, other)
  {
    LocalTypes(c);
    LocalTypes(Take(c, o).value);
  }

  /** The options of a Nak are all taken exactly if they are usable addresses the client asks for; the empty
      list is refused by the client itself. */
  lemma {:induction false} TakesAreValid(c: Config, options: seq<ConfigOption>)
    ensures Each(Take, c, options).1 <==> forall o | o in options :: Wanted(c, o)
    decreases |options|
  {
    if options != [] {
      var (o, rest) := (options[0], options[1..]);
      TakeStep(c, o);
      if Take(c, o).Some? {
        TakesAreValid(Take(c, o).value, rest);
        forall other | other in rest
          ensures Wanted(Take(c, o).value, other) <==> Wanted(c, other)
        {
          SameWishes(c, o, other);
        }
        assert forall other | other in options :: other == o || other in rest;
        assert forall other | other in rest :: other in options;
      }
    }
  }

  lemma LocalHasNoMagic(c: Config)
    ensures NoMagic(LocalOptions(c))
  {
  }

  /** A valid Nak amends the client's list the way LCP's amendment does. */
  lemma {:induction false} NakAgreesWithLcp(c: Config, options: seq<ConfigOption>)
    requires !HasRepeatedTypes(options) && Each(Take, c, options).1
    ensures LocalOptions(Each(Take, c, options).0) == ApplyNak(LocalOptions(c), options)
    decreases |options|
  {
    if options == [] {
      assert ApplyNak(LocalOptions(c), []) == LocalOptions(c);
    } else {
      TakeStep(c, options[0]);
      RepeatedBehind(options);
      NakAgreesWithLcp(Take(c, options[0]).value, options[1..]);
      LocalHasNoMagic(c);
      AmendTwice(LocalOptions(c), options[0], options[1..]);
      assert options == [options[0]] + options[1..];
    }
  }

  // ----- What an ignored response leaves behind -----

  function Asks(c: Config): nat {
    (if c.askLocal then 1 else 0) + (if c.askPrimary then 1 else 0) + (if c.askSecondary then 1 else 0)
  }

  lemma {:induction false} DropsAskLess(c: Config, options: seq<ConfigOption>)
    ensures Asks(Each(Drop, c, options).0) <= Asks(c)
    decreases |options|
  {
    if options != [] && Drop(c, options[0]).Some? {
      DropsAskLess(Drop(c, options[0]).value, options[1..]);
    }
  }

  /** A Reject, ignored or not, changes nothing exactly if its first option is not valid. */
  lemma RejectChangesNothing(c: Config, options: seq<ConfigOption>)
    ensures Each(Drop, c, options).0 == c <==> options == [] || options[0] !in LocalOptions(c)
  {
    if options != [] {
      DropStep(c, options[0]);
      if Drop(c, options[0]).Some? {
        DropsAskLess(Drop(c, options[0]).value, options[1..]);
      }
    }
  }

  function Field(c: Config, kind: Octet): Address {
    if kind == IP_ADDRESS then c.local else if kind == PRIMARY_DNS then c.primary else c.secondary
  }

  lemma {:induction false} OtherFieldsStay(c: Config, options: seq<ConfigOption>, kind: Octet)
    requires !Mentions(options, kind) && kind in {IP_ADDRESS, PRIMARY_DNS, SECONDARY_DNS}
    ensures Field(Each(Take, c, options).0, kind) == Field(c, kind)
    decreases |options|
  {
    if options != [] && Take(c, options[0]).Some? {
      assert options[0].kind != kind;
      assert forall k | 0 <= k < |options[1..]| :: options[1..][k] == options[k + 1];
      OtherFieldsStay(Take(c, options[0]).value, options[1..], kind);
    }
  }

  /** The options a Nak gets to before the first one that is not valid. */
  function Taken(c: Config, options: seq<ConfigOption>): (n: nat)
    ensures n <= |options|
  {
    if options == [] || !Wanted(c, options[0]) then 0 else 1 + Taken(c, options[1..])
  }

  /** A Nak, ignored or not, changes nothing exactly if every option it gets to is one the client
      already has. */
  lemma {:induction false} NakChangesNothing(c: Config, options: seq<ConfigOption>)
    requires !HasRepeatedTypes(options)
    ensures Each(Take, c, options).0 == c
            <==> forall k | 0 <= k < Taken(c, options) :: options[k] in LocalOptions(c)
    decreases |options|
  {
    if options != [] {
      var (o, rest) := (options[0], options[1..]);
      TakeStep(c, o);
      RepeatedBehind(options);
      if Take(c, o).Some? {
        LocalTypes(c);
        LocalMembers(c, o);
        if o in LocalOptions(c) {
          assert Take(c, o).value == c;
          NakChangesNothing(c, rest);
          assert forall k | 0 <= k < Taken(c, rest) :: rest[k] == options[k + 1];
        } else {
          OtherFieldsStay(Take(c, o).value, rest, o.kind);
          assert options[0] == o;
        }
      }
    }
  }

  // ----- When the request stays the same -----

  lemma AsManyAsAsked(c: Config)
    ensures |LocalOptions(c)| == Asks(c)
  {
  }

  /** What a Nak does not touch: the peer's address, what is asked for, and addresses not asked for. */
  predicate SameQuestions(c: Config, d: Config) {
    && d.peer == c.peer && d.askLocal == c.askLocal && d.askPrimary == c.askPrimary && d.askSecondary == c.askSecondary
    && (!c.askLocal ==> d.local == c.local) && (!c.askPrimary ==> d.primary == c.primary)
    && (!c.askSecondary ==> d.secondary == c.secondary)
  }

  lemma {:induction false} NakKeepsQuestions(c: Config, options: seq<ConfigOption>)
    ensures SameQuestions(c, Each(Take, c, options).0)
    decreases |options|
  {
    if options != [] && Take(c, options[0]).Some? {
      NakKeepsQuestions(Take(c, options[0]).value, options[1..]);
    }
  }

  lemma SameAnswers(c: Config, d: Config)
    requires SameQuestions(c, d) && LocalOptions(c) == LocalOptions(d)
    ensures c == d
  {
    LocalMembers(c, AddressOption(IP_ADDRESS, c.local));
    LocalMembers(d, AddressOption(IP_ADDRESS, c.local));
    LocalMembers(c, AddressOption(PRIMARY_DNS, c.primary));
    LocalMembers(d, AddressOption(PRIMARY_DNS, c.primary));
    LocalMembers(c, AddressOption(SECONDARY_DNS, c.secondary));
    LocalMembers(d, AddressOption(SECONDARY_DNS, c.secondary));
  }

  /** A Nak, ignored or not, leaves the options of the request as they are exactly if the client already
      has every address it gets to. */
  lemma NakLeavesRequest(c: Config, options: seq<ConfigOption>)
    requires !HasRepeatedTypes(options)
    ensures LocalOptions(Each(Take, c, options).0) == LocalOptions(c)
            <==> forall k | 0 <= k < Taken(c, options) :: options[k] in LocalOptions(c)
  {
    NakKeepsQuestions(c, options);
    NakChangesNothing(c, options);
    if LocalOptions(Each(Take, c, options).0) == LocalOptions(c) {
      SameAnswers(c, Each(Take, c, options).0);
    }
  }

  /** A Reject, ignored or not, leaves them exactly if its first option is not one of them. */
  lemma RejectLeavesRequest(c: Config, options: seq<ConfigOption>)
    ensures LocalOptions(Each(Drop, c, options).0) == LocalOptions(c)
            <==> options == [] || options[0] !in LocalOptions(c)
  {
    RejectChangesNothing(c, options);
    if options != [] {
      DropStep(c, options[0]);
      if Drop(c, options[0]).Some? {
        DropsAskLess(Drop(c, options[0]).value, options[1..]);
        AsManyAsAsked(c);
        AsManyAsAsked(Each(Drop, c, options).0);
      }
    }
  }

  /** An ignored Nak can move the client's address: the option behind it is found wanting too late. */
  lemma IgnoredNakMovesAddress()
    ensures var c := Fresh(UNSPECIFIED, UNSPECIFIED);
            var nak := [AddressOption(IP_ADDRESS, [10, 24, 0, 2]), RawOption(2, [])];
            Each(Take, c, nak) == (c.(local := [10, 24, 0, 2]), false)
  {
    var c := Fresh(UNSPECIFIED, UNSPECIFIED);
    var nak := [AddressOption(IP_ADDRESS, [10, 24, 0, 2]), RawOption(2, [])];
    assert nak[1..] == [RawOption(2, [])];
    assert Take(c, nak[0]) == Some(c.(local := [10, 24, 0, 2]));
  }
}
