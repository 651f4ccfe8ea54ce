/** The magic number of an option list without repeated types: what a judge's own number has to do with its
    verdicts, and what a correction does to the number. */
module LcpMagic {
  import opened Octets
  import opened LcpCodec
  import opened LcpPolicy
  import opened LcpConvergence
  import opened LcpLoopback

  lemma OnlyMagic(options: seq<ConfigOption>, k: nat)
    requires NoRepeats(options) && k < |options| && IsMagic(options[k])
    ensures FirstMagic(options) == Some(MagicOf(options[k]))
  {
    FirstMagicIsMember(options);
  }

  lemma MagicPlace(options: seq<ConfigOption>) returns (k: nat)
    requires FirstMagic(options).Some?
    ensures k < |options| && IsMagic(options[k]) && FirstMagic(options) == Some(MagicOf(options[k]))
  {
    FirstMagicIsMember(options);
    k :| 0 <= k < |options| && IsMagic(options[k]) && FirstMagic(options) == Some(MagicOf(options[k]));
  }

  lemma NoMagic(options: seq<ConfigOption>)
    ensures FirstMagic(options).None? <==> forall k | 0 <= k < |options| :: !IsMagic(options[k])
  {
    FirstMagicIsMember(options);
  }

  /** Two judges that differ in their own number only agree on a list whose number neither objects to. */
  predicate SameToBoth(number: Option<Word32>, x: Option<Word32>, y: Option<Word32>) {
    x == y || (number.Some? ==> number.value != 0 && number != x && number != y)
  }

  lemma SameVerdict(options: seq<ConfigOption>, k: nat, policy: Policy, x: Option<Word32>, y: Option<Word32>)
    requires NoRepeats(options) && k < |options| && SameToBoth(FirstMagic(options), x, y)
    ensures Judge(options, k, policy, x) == Judge(options, k, policy, y)
  {
    JudgedAlone(options, k, policy, x);
    JudgedAlone(options, k, policy, y);
    if IsMagic(options[k]) { OnlyMagic(options, k); }
  }

  lemma SameEvaluation(options: seq<ConfigOption>, policy: Policy, x: Option<Word32>, y: Option<Word32>)
    requires NoRepeats(options) && SameToBoth(FirstMagic(options), x, y)
    ensures Evaluate(options, policy, x) == Evaluate(options, policy, y)
  {
    forall k | 0 <= k < |options|
      ensures Judge(options, k, policy, x) == Judge(options, k, policy, y)
    {
      SameVerdict(options, k, policy, x, y);
    }
    assert Verdicts(options, policy, x) == Verdicts(options, policy, y);
  }

  lemma {:induction false} SameRefused(options: seq<ConfigOption>, v: seq<Disposition>, w: seq<Disposition>)
    requires |options| == |v| == |w| && forall k | 0 <= k < |v| :: v[k].Refuse? <==> w[k].Refuse?
    ensures Refused(options, v) == Refused(options, w)
  {
    if options != [] {
      SameRefused(options[1..], v[1..], w[1..]);
    }
  }

  /** What is refused does not depend on the number of the judge. */
  lemma RefusalIgnoresJudge(options: seq<ConfigOption>, policy: Policy, x: Option<Word32>, y: Option<Word32>)
    ensures Evaluate(options, policy, x).Rejected? <==> Evaluate(options, policy, y).Rejected?
    ensures Evaluate(options, policy, x).Rejected? ==> Evaluate(options, policy, x) == Evaluate(options, policy, y)
  {
    var (v, w) := (Verdicts(options, policy, x), Verdicts(options, policy, y));
    forall k | 0 <= k < |options|
      ensures v[k].Refuse? <==> w[k].Refuse?
    {
      assert v[k] == Judge(options, k, policy, x) && w[k] == Judge(options, k, policy, y);
    }
    SameRefused(options, v, w);
    if Refuse in v {
      var k :| 0 <= k < |v| && v[k] == Refuse;
      assert w[k] == Refuse;
    }
    if Refuse in w {
      var k :| 0 <= k < |w| && w[k] == Refuse;
      assert v[k] == Refuse;
    }
  }

  /** A list with the judge's own number is not acknowledged. */
  lemma OwnNumberIsNotAcked(options: seq<ConfigOption>, policy: Policy, judge: Option<Word32>)
    requires NoRepeats(options) && FirstMagic(options).Some? && FirstMagic(options) == judge
    ensures !Evaluate(options, policy, judge).Acked?
  {
    OwnRequestIsNotAcked(options, policy);
  }

  // ----- What a correction does to the number -----

  /** The judge wants another number: it is zero, or the judge's own. */
  predicate Objects(number: Option<Word32>, judge: Option<Word32>) {
    number.Some? && (number.value == 0 || number == judge)
  }

  function Proposed(number: Word32, judge: Option<Word32>): Word32 {
    NextMagic(if judge.Some? then judge.value else number)
  }

  lemma MagicVerdict(options: seq<ConfigOption>, k: nat, policy: Policy, judge: Option<Word32>)
    requires NoRepeats(options) && k < |options| && IsMagic(options[k])
    ensures var number := MagicOf(options[k]);
            Judge(options, k, policy, judge)
            == if Objects(Some(number), judge) then Suggest(MagicOption(Proposed(number, judge))) else Accept
  {
    JudgedAlone(options, k, policy, judge);
  }

  lemma RejectKeepsMagic(local: seq<ConfigOption>, policy: Policy, judge: Option<Word32>)
    requires NoRepeats(local)
    ensures var kept := Without(local, Refused(local, Verdicts(local, policy, judge)));
            FirstMagic(kept) == FirstMagic(local)
  {
    var verdicts := Verdicts(local, policy, judge);
    var refused := Refused(local, verdicts);
    var kept := Without(local, refused);
    RefusedFromList(local, verdicts);
    WithoutKeeps(local, refused);
    NoMagic(local);
    NoMagic(kept);
    if FirstMagic(local).Some? {
      var k := MagicPlace(local);
      MagicVerdict(local, k, policy, judge);
      assert !FromList(local[k], local, verdicts);
      assert local[k] in kept;
      var n :| 0 <= n < |kept| && kept[n] == local[k];
      OnlyMagic(kept, n);
    } else {
      assert forall n | 0 <= n < |kept| :: kept[n] in local;
    }
  }

  lemma AmendedMagic(local: seq<ConfigOption>, k: nat, policy: Policy, judge: Option<Word32>)
    requires NoRepeats(local) && k < |local| && IsMagic(local[k])
    ensures var number := MagicOf(local[k]);
            Amend(local[k], Suggestions(Verdicts(local, policy, judge)))
            == if Objects(Some(number), judge) then MagicOption(Proposed(number, judge)) else local[k]
  {
    var number := MagicOf(local[k]);
    NakByType(local, policy, judge);
    MagicVerdict(local, k, policy, judge);
  }

  lemma OptionOfNumber(number: Word32)
    ensures IsMagic(MagicOption(number)) && MagicOf(MagicOption(number)) == number
  {
    BigEndian32RoundTrip(number);
  }

  lemma NakMovesMagic(local: seq<ConfigOption>, policy: Policy, judge: Option<Word32>)
    requires NoRepeats(local) && Evaluate(local, policy, judge).Naked?
    ensures var amended := ApplyNak(local, Suggestions(Verdicts(local, policy, judge)));
            && NoRepeats(amended)
            && FirstMagic(amended) == if Objects(FirstMagic(local), judge)
                                      then Some(Proposed(FirstMagic(local).value, judge)) else FirstMagic(local)
  {
    var verdicts := Verdicts(local, policy, judge);
    var amended := ApplyNak(local, Suggestions(verdicts));
    NoMagic(local);
    NoMagic(amended);
    if FirstMagic(local).Some? {
      var k := MagicPlace(local);
      AmendedMagic(local, k, policy, judge);
      OptionOfNumber(Proposed(MagicOf(local[k]), judge));
      OnlyMagic(amended, k);
    } else {
      forall k | 0 <= k < |local|
        ensures local[k].kind != MAGIC
      {
        assert verdicts[k] != Refuse;
        JudgedAlone(local, k, policy, judge);
      }
    }
  }

  /** The list an originator goes on with repeats no type and is not longer; it has another number exactly if
      that is what the judge asked for. */
  lemma CorrectionMovesMagic(local: seq<ConfigOption>, policy: Policy, judge: Option<Word32>)
    requires NoRepeats(local) && !Evaluate(local, policy, judge).Acked?
    ensures var (answer, number) := (Evaluate(local, policy, judge), FirstMagic(local));
            var next := Corrected(local, answer);
            && next.Some? && NoRepeats(next.value) && |next.value| <= |local|
            && FirstMagic(next.value) == if answer.Naked? && Objects(number, judge)
                                         then Some(Proposed(number.value, judge)) else number
  {
    if Evaluate(local, policy, judge).Naked? {
      NakByType(local, policy, judge);
      NakMovesMagic(local, policy, judge);
    } else {
      AfterReject(local, policy, judge);
      RejectKeepsMagic(local, policy, judge);
      WithoutKeeps(local, Refused(local, Verdicts(local, policy, judge)));
    }
  }

  // ----- Two numbers that differ -----

  predicate Apart(x: Option<Word32>, y: Option<Word32>) { x.Some? ==> x != y }

  /** A correction keeps two numbers apart, and the other side's list is judged as before. */
  lemma CorrectionKeepsApart(number: Option<Word32>, judge: Option<Word32>)
    requires Apart(number, judge)
    ensures Objects(number, judge) ==>
              var next := Some(Proposed(number.value, judge)); Apart(next, judge) && SameToBoth(judge, number, next)
  {
  }
}
