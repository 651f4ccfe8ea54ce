/** Negotiation converges: one Reject and one Nak are enough to be acknowledged. */
module LcpConvergence {
  import opened Octets
  import opened LcpCodec
  import opened LcpPolicy

  predicate NoRepeats(options: seq<ConfigOption>) {
    forall i, j | 0 <= i < j < |options| :: options[i].kind != options[j].kind
  }

  lemma NoRepeatsMeansNoneRepeated(options: seq<ConfigOption>)
    ensures NoRepeats(options) <==> !HasRepeatedTypes(options)
  {
    if !NoRepeats(options) {
      var i, j :| 0 <= i < j < |options| && options[i].kind == options[j].kind;
      assert Repeated(options, options[i].kind);
    }
  }

  /** Without repeated types every option is judged on its own. */
  lemma JudgedAlone(options: seq<ConfigOption>, k: nat, policy: Policy, localMagic: Option<Word32>)
    requires NoRepeats(options) && k < |options|
    ensures Judge(options, k, policy, localMagic) == EvaluateOption(options[k], policy, localMagic, DEFAULT_PEER).0
  {
  }

  predicate FromList(o: ConfigOption, options: seq<ConfigOption>, verdicts: seq<Disposition>)
    requires |options| == |verdicts|
  {
    exists k | 0 <= k < |options| :: options[k] == o && verdicts[k].Refuse?
  }

  lemma {:induction false} RefusedFromList(options: seq<ConfigOption>, verdicts: seq<Disposition>)
    requires |options| == |verdicts| && NoRepeats(options)
    ensures NoRepeats(Refused(options, verdicts))
    ensures forall o :: o in Refused(options, verdicts) <==> FromList(o, options, verdicts)
  {
    if options != [] {
      var (rest, tail) := (options[1..], verdicts[1..]);
      RefusedFromList(rest, tail);
      forall o
        ensures FromList(o, options, verdicts) <==> (o == options[0] && verdicts[0].Refuse?) || FromList(o, rest, tail)
      {
        if k :| 0 <= k < |rest| && rest[k] == o && tail[k].Refuse? {
          assert options[k + 1] == o && verdicts[k + 1].Refuse?;
        }
        if k :| 0 < k < |options| && options[k] == o && verdicts[k].Refuse? {
          assert rest[k - 1] == o && tail[k - 1].Refuse?;
        }
      }
      var refused := Refused(rest, tail);
      forall k | 0 <= k < |refused|
        ensures refused[k].kind != options[0].kind
      {
        assert refused[k] in refused && FromList(refused[k], rest, tail);
      }
    }
  }

  lemma {:induction false} WithoutKeeps(local: seq<ConfigOption>, refused: seq<ConfigOption>)
    ensures forall o :: o in Without(local, refused) <==> o in local && o !in refused
    ensures NoRepeats(local) ==> NoRepeats(Without(local, refused))
    ensures |Without(local, refused)| <= |local|
  {
    if local != [] {
      var rest := local[1..];
      WithoutKeeps(rest, refused);
      assert forall o :: o in local <==> o == local[0] || o in rest;
      if NoRepeats(local) {
        var kept := Without(rest, refused);
        forall k | 0 <= k < |kept|
          ensures kept[k].kind != local[0].kind
        {
          assert kept[k] in rest;
        }
      }
    }
  }

  lemma MentionedAtHead(options: seq<ConfigOption>, t: Octet)
    requires options != []
    ensures Mentions(options, t) <==> options[0].kind == t || Mentions(options[1..], t)
  {
    if k :| 0 <= k < |options[1..]| && options[1..][k].kind == t {
      assert options[k + 1].kind == t;
    }
    if k :| 0 < k < |options| && options[k].kind == t {
      assert options[1..][k - 1].kind == t;
    }
  }

  lemma {:induction false} SuggestionsByType(options: seq<ConfigOption>, verdicts: seq<Disposition>)
    requires |options| == |verdicts| && NoRepeats(options)
    requires forall k | 0 <= k < |options| && verdicts[k].Suggest? :: verdicts[k].replacement.kind == options[k].kind
    ensures NoRepeats(Suggestions(verdicts))
    ensures forall k | 0 <= k < |options| ::
              FindType(Suggestions(verdicts), options[k].kind)
              == if verdicts[k].Suggest? then Some(verdicts[k].replacement) else None
    ensures forall t: Octet | !Mentions(options, t) :: FindType(Suggestions(verdicts), t) == None
  {
    if options != [] {
      var (rest, tail) := (options[1..], verdicts[1..]);
      SuggestionsByType(rest, tail);
      var found := Suggestions(tail);
      assert !Mentions(rest, options[0].kind);
      assert FindType(found, options[0].kind) == None;
      forall t: Octet | !Mentions(options, t)
        ensures FindType(Suggestions(verdicts), t) == None
      {
        MentionedAtHead(options, t);
        assert FindType(found, t) == None;
      }
      forall k | 0 <= k < |found|
        ensures found[k].kind != options[0].kind
      {
        assert !Mentions(found, options[0].kind);
      }
      if !verdicts[0].Suggest? { assert Suggestions(verdicts) == found; }
    }
  }

  /** The replacement a verdict suggests is of the same type, and taking it up is accepted. */
  lemma SuggestionIsAccepted(o: ConfigOption, policy: Policy, localMagic: Option<Word32>,
                             suggestions: seq<ConfigOption>)
    requires var verdict := EvaluateOption(o, policy, localMagic, DEFAULT_PEER).0;
             verdict.Suggest? && FindType(suggestions, o.kind) == Some(verdict.replacement)
    ensures EvaluateOption(Amend(o, suggestions), policy, localMagic, DEFAULT_PEER).0 == Accept
  {
    var replacement := EvaluateOption(o, policy, localMagic, DEFAULT_PEER).0.replacement;
    if IsMagic(o) {
      var value := MagicOf(o);
      var suggested := NextMagic(if localMagic.Some? then localMagic.value else value);
      BigEndian32RoundTrip(suggested);
      assert MagicOf(replacement) == suggested;
      assert suggested != value;
      assert Amend(o, suggestions) == MagicOption(suggested);
    } else {
      assert Amend(o, suggestions) == replacement;
    }
  }

  lemma SuggestionKeepsType(o: ConfigOption, policy: Policy, localMagic: Option<Word32>)
    ensures var verdict := EvaluateOption(o, policy, localMagic, DEFAULT_PEER).0;
            verdict.Suggest? ==> verdict.replacement.kind == o.kind
  {
  }

  /** The list an originator goes on with; None if it ignores the answer. */
  function Corrected(local: seq<ConfigOption>, answer: Evaluation): Option<seq<ConfigOption>> {
    match answer
    case Acked(_) => Some(local)
    case Naked(suggestions) => if HasRepeatedTypes(suggestions) then None else Some(ApplyNak(local, suggestions))
    case Rejected(refused) => ApplyReject(local, refused)
  }

  /** The options refused of a list are a valid Reject of it. */
  lemma RefusalIsValid(local: seq<ConfigOption>, verdicts: seq<Disposition>)
    requires |verdicts| == |local| && NoRepeats(local) && Refuse in verdicts
    ensures ApplyReject(local, Refused(local, verdicts)) == Some(Without(local, Refused(local, verdicts)))
  {
    var refused := Refused(local, verdicts);
    RefusedFromList(local, verdicts);
    NoRepeatsMeansNoneRepeated(refused);
    var bad :| 0 <= bad < |verdicts| && verdicts[bad] == Refuse;
    assert FromList(local[bad], local, verdicts);
    assert forall o | o in refused :: FromList(o, local, verdicts) && o in local;
  }

  /** What a Reject leaves is judged as it was in the whole list. */
  lemma KeptIsNotRefused(local: seq<ConfigOption>, policy: Policy, localMagic: Option<Word32>)
    requires NoRepeats(local)
    ensures var kept := Without(local, Refused(local, Verdicts(local, policy, localMagic)));
            Refuse !in Verdicts(kept, policy, localMagic)
  {
    var verdicts := Verdicts(local, policy, localMagic);
    var kept := Without(local, Refused(local, verdicts));
    RefusedFromList(local, verdicts);
    WithoutKeeps(local, Refused(local, verdicts));
    forall k | 0 <= k < |kept|
      ensures Verdicts(kept, policy, localMagic)[k] != Refuse
    {
      JudgedAlone(kept, k, policy, localMagic);
      assert kept[k] in kept;
      var j :| 0 <= j < |local| && local[j] == kept[k];
      JudgedAlone(local, j, policy, localMagic);
      assert !FromList(local[j], local, verdicts);
    }
  }

  /** A rejected list, corrected, is not rejected again and still repeats no type. */
  lemma AfterReject(local: seq<ConfigOption>, policy: Policy, localMagic: Option<Word32>)
    requires NoRepeats(local) && Evaluate(local, policy, localMagic).Rejected?
    ensures var kept := Corrected(local, Evaluate(local, policy, localMagic));
            kept.Some? && NoRepeats(kept.value) && !Evaluate(kept.value, policy, localMagic).Rejected?
  {
    var verdicts := Verdicts(local, policy, localMagic);
    RefusalIsValid(local, verdicts);
    WithoutKeeps(local, Refused(local, verdicts));
    KeptIsNotRefused(local, policy, localMagic);
  }

  lemma NakByType(local: seq<ConfigOption>, policy: Policy, localMagic: Option<Word32>)
    requires NoRepeats(local)
    ensures var verdicts := Verdicts(local, policy, localMagic);
            && !HasRepeatedTypes(Suggestions(verdicts))
            && forall k | 0 <= k < |local| ::
                 FindType(Suggestions(verdicts), local[k].kind)
                 == if verdicts[k].Suggest? then Some(verdicts[k].replacement) else None
  {
    var verdicts := Verdicts(local, policy, localMagic);
    forall k | 0 <= k < |local|
      ensures verdicts[k].Suggest? ==> verdicts[k].replacement.kind == local[k].kind
    {
      JudgedAlone(local, k, policy, localMagic);
      SuggestionKeepsType(local[k], policy, localMagic);
    }
    SuggestionsByType(local, verdicts);
    NoRepeatsMeansNoneRepeated(Suggestions(verdicts));
  }

  lemma AmendedIsAccepted(local: seq<ConfigOption>, k: nat, policy: Policy, localMagic: Option<Word32>)
    requires NoRepeats(local) && k < |local| && Judge(local, k, policy, localMagic) != Refuse
    ensures var amended := ApplyNak(local, Suggestions(Verdicts(local, policy, localMagic)));
            Judge(amended, k, policy, localMagic) == Accept
  {
    var suggestions := Suggestions(Verdicts(local, policy, localMagic));
    NakByType(local, policy, localMagic);
    JudgedAlone(local, k, policy, localMagic);
    JudgedAlone(ApplyNak(local, suggestions), k, policy, localMagic);
    if Judge(local, k, policy, localMagic).Suggest? {
      SuggestionIsAccepted(local[k], policy, localMagic, suggestions);
    }
  }

  lemma AllAccepted(options: seq<ConfigOption>, policy: Policy, localMagic: Option<Word32>)
    requires forall k | 0 <= k < |options| :: Judge(options, k, policy, localMagic) == Accept
    ensures Evaluate(options, policy, localMagic) == Acked(Denote(options))
  {
  }

  /** A list answered by a Nak, amended, is acknowledged for what it then denotes. */
  lemma AfterNak(local: seq<ConfigOption>, policy: Policy, localMagic: Option<Word32>)
    requires NoRepeats(local) && Evaluate(local, policy, localMagic).Naked?
    ensures var amended := Corrected(local, Evaluate(local, policy, localMagic));
            amended.Some? && Evaluate(amended.value, policy, localMagic) == Acked(Denote(amended.value))
  {
    var verdicts := Verdicts(local, policy, localMagic);
    NakByType(local, policy, localMagic);
    var amended := ApplyNak(local, Suggestions(verdicts));
    forall k | 0 <= k < |amended|
      ensures Judge(amended, k, policy, localMagic) == Accept
    {
      assert verdicts[k] != Refuse;
      AmendedIsAccepted(local, k, policy, localMagic);
    }
    AllAccepted(amended, policy, localMagic);
  }

  /** Whatever the policy and magic number of the peer, two corrections lead to an acknowledgment. */
  lemma NegotiationConverges(local: seq<ConfigOption>, policy: Policy, localMagic: Option<Word32>)
    requires !HasRepeatedTypes(local)
    ensures var once := Corrected(local, Evaluate(local, policy, localMagic));
            && once.Some?
            && var twice := Corrected(once.value, Evaluate(once.value, policy, localMagic));
               && twice.Some?
               && Evaluate(twice.value, policy, localMagic) == Acked(Denote(twice.value))
  {
    NoRepeatsMeansNoneRepeated(local);
    match Evaluate(local, policy, localMagic) {
      case Acked(_) =>
      case Naked(_) => AfterNak(local, policy, localMagic);
      case Rejected(_) =>
        AfterReject(local, policy, localMagic);
        var once := Corrected(local, Evaluate(local, policy, localMagic)).value;
        if Evaluate(once, policy, localMagic).Naked? {
          AfterNak(once, policy, localMagic);
        }
    }
  }
}
