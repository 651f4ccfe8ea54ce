/** What becomes of the local option list: only a Nak or a Reject of the present request changes it,
    and each of them in its own way. */
module LcpCorrections {
  import opened Octets
  import opened LcpCodec
  import opened LcpPolicy
  import opened LcpConvergence
  import opened Rfc1661
  import opened LcpSpec
  import opened LcpRuns

  // ----- What a Nak makes of a list -----

  /** An option that a suggestion of its type has replaced: by the suggestion itself, or, for a magic
      number that would be zero or no change, by a fresh one. */
  predicate Replaced(o: ConfigOption, r: ConfigOption, suggestions: seq<ConfigOption>) {
    && r.kind == o.kind
    && Mentions(suggestions, o.kind)
    && (|| r in suggestions
        || (IsMagic(o) && IsMagic(r) && MagicOf(r) != 0 && MagicOf(r) != MagicOf(o)))
  }

  /** The same types in the same places, and only the types suggested are different. */
  predicate Amended(before: seq<ConfigOption>, after: seq<ConfigOption>, suggestions: seq<ConfigOption>) {
    && |after| == |before|
    && forall k | 0 <= k < |before| ::
         if Mentions(suggestions, before[k].kind) then Replaced(before[k], after[k], suggestions)
         else after[k] == before[k]
  }

  lemma MagicRoundTrip(value: Word32)
    ensures IsMagic(MagicOption(value)) && MagicOf(MagicOption(value)) == value
  {
    assert BigEndian32(value) == MagicOption(value).data;
  }

  lemma OptionIsAmended(o: ConfigOption, suggestions: seq<ConfigOption>)
    ensures if Mentions(suggestions, o.kind) then Replaced(o, Amend(o, suggestions), suggestions)
            else Amend(o, suggestions) == o
  {
    var found := FindType(suggestions, o.kind);
    if found.Some? && IsMagic(o) && IsMagic(found.value) {
      MagicRoundTrip(NextMagic(MagicOf(o)));
      MagicRoundTrip(MagicOf(found.value));
    }
  }

  lemma NakAmends(local: seq<ConfigOption>, suggestions: seq<ConfigOption>)
    ensures Amended(local, ApplyNak(local, suggestions), suggestions)
  {
    forall k | 0 <= k < |local|
      ensures if Mentions(suggestions, local[k].kind)
              then Replaced(local[k], ApplyNak(local, suggestions)[k], suggestions)
              else ApplyNak(local, suggestions)[k] == local[k]
    {
      OptionIsAmended(local[k], suggestions);
    }
  }

  // ----- What a Reject leaves of a list -----

  ghost predicate Increasing(places: seq<nat>) {
    forall i, j | 0 <= i < j < |places| :: places[i] < places[j]
  }

  /** `after` is what stands at `places` of `before`, in their order, and those are exactly the places
      of the options that were not refused. */
  ghost predicate KeptAt(before: seq<ConfigOption>, after: seq<ConfigOption>, refused: seq<ConfigOption>,
                         places: seq<nat>)
  {
    && |places| == |after| && Increasing(places)
    && (forall k | 0 <= k < |places| :: places[k] < |before| && after[k] == before[places[k]])
    && (forall k | 0 <= k < |before| :: k in places <==> before[k] !in refused)
  }

  ghost predicate Thinned(before: seq<ConfigOption>, after: seq<ConfigOption>, refused: seq<ConfigOption>) {
    exists places :: KeptAt(before, after, refused, places)
  }

  lemma LastPlace(before: seq<ConfigOption>, after: seq<ConfigOption>, refused: seq<ConfigOption>, places: seq<nat>,
                  o: ConfigOption)
    requires KeptAt(before, after, refused, places) && o !in refused
    ensures KeptAt(before + [o], after + [o], refused, places + [|before|])
  {
    var (longer, all) := (before + [o], places + [|before|]);
    forall k | 0 <= k < |longer|
      ensures k in all <==> longer[k] !in refused
    {
      assert k < |before| ==> longer[k] == before[k];
    }
  }

  lemma RefusedPlace(before: seq<ConfigOption>, after: seq<ConfigOption>, refused: seq<ConfigOption>,
                     places: seq<nat>, o: ConfigOption)
    requires KeptAt(before, after, refused, places) && o in refused
    ensures KeptAt(before + [o], after, refused, places)
  {
    var longer := before + [o];
    forall k | 0 <= k < |longer|
      ensures k in places <==> longer[k] !in refused
    {
      assert k < |before| ==> longer[k] == before[k];
      assert |before| !in places;
    }
  }

  lemma {:induction false} PlacesKept(local: seq<ConfigOption>, refused: seq<ConfigOption>) returns (places: seq<nat>)
    ensures KeptAt(local, Without(local, refused), refused, places)
  {
    if local == [] {
      places := [];
    } else {
      var (front, last) := (local[..|local| - 1], local[|local| - 1]);
      places := PlacesKept(front, refused);
      WithoutAppend(local, |local| - 1, refused);
      assert local[..|local| - 1 + 1] == local && front + [last] == local;
      if last in refused {
        RefusedPlace(front, Without(front, refused), refused, places, last);
        assert Without(front, refused) + [] == Without(front, refused);
      } else {
        LastPlace(front, Without(front, refused), refused, places, last);
        places := places + [|front|];
      }
    }
  }

  lemma RejectThins(local: seq<ConfigOption>, refused: seq<ConfigOption>)
    ensures Thinned(local, Without(local, refused), refused)
  {
    var places := PlacesKept(local, refused);
  }

  // ----- The calls that change the list -----

  /** A packet of the code that is received while negotiating, bears the identifier of the present
      request and carries a well-formed list without repeated types. */
  predicate Responds(m: Lcp, call: Call, code: Octet) {
    && call.ReceiveCall? && Negotiating(m.state)
    && ParsePacket(call.input).Ok?
    && var packet := ParsePacket(call.input).value;
       && packet.code == code && packet.identifier == m.requestIdentifier
       && WellFormed(packet.data) && !HasRepeatedTypes(ParseOptions(packet.data).value)
  }

  function ListOf(call: Call): seq<ConfigOption>
    requires call.ReceiveCall? && ParsePacket(call.input).Ok? && WellFormed(ParsePacket(call.input).value.data)
  {
    ParseOptions(ParsePacket(call.input).value.data).value
  }

  predicate NakCorrects(m: Lcp, call: Call) { Responds(m, call, CONFIGURE_NAK) }

  /** A Reject has to name something, and nothing that was not asked for. */
  predicate RejectCorrects(m: Lcp, call: Call) {
    && Responds(m, call, CONFIGURE_REJECT)
    && ListOf(call) != [] && forall o | o in ListOf(call) :: o in m.options
  }

  lemma NakCall(m: Lcp, call: Call)
    requires NakCorrects(m, call)
    ensures Apply(m, call).machine.options == ApplyNak(m.options, ListOf(call))
  {
  }

  lemma RejectCall(m: Lcp, call: Call)
    requires RejectCorrects(m, call)
    ensures Apply(m, call).machine.options == Without(m.options, ListOf(call))
  {
  }

  lemma OtherPacket(m: Lcp, packet: Packet, now: Millis, policy: Policy)
    requires packet.code != CONFIGURE_NAK && packet.code != CONFIGURE_REJECT
    ensures ReceivePacket(m, packet, now, policy).machine.options == m.options
  {
  }

  lemma OtherCall(m: Lcp, call: Call)
    requires !NakCorrects(m, call) && !RejectCorrects(m, call)
    ensures Apply(m, call).machine.options == m.options
  {
    if call.ReceiveCall? && ParsePacket(call.input).Ok? {
      var packet := ParsePacket(call.input).value;
      if packet.code != CONFIGURE_NAK && packet.code != CONFIGURE_REJECT {
        OtherPacket(m, packet, call.now, call.policy);
      }
    }
  }

  /** In every state and for every call: a Nak of the present request amends the options of the types it
      suggests, a Reject of it leaves the others in their order, and nothing else changes the list. */
  lemma OptionsChangeOnlyByCorrection(m: Lcp, call: Call)
    ensures var after := Apply(m, call).machine.options;
            if NakCorrects(m, call) then Amended(m.options, after, ListOf(call))
            else if RejectCorrects(m, call) then Thinned(m.options, after, ListOf(call))
            else after == m.options
  {
    if NakCorrects(m, call) {
      NakCall(m, call);
      NakAmends(m.options, ListOf(call));
    } else if RejectCorrects(m, call) {
      RejectCall(m, call);
      RejectThins(m.options, ListOf(call));
    } else {
      OtherCall(m, call);
    }
  }
}
