/** Which names a query can be made of, told from the octets of the name, and where walking one goes wrong. */
module DnsNames {
  import opened Octets
  import opened Dns

  // ----- Accepted names -----

  /** Letters, digits and hyphens, one to sixty-three of them. */
  predicate IsLabel(label_: Bytes) {
    && 1 <= |label_| <= 63
    && forall k | 0 <= k < |label_| ::
         || ('0' as int <= label_[k] <= '9' as int) || ('A' as int <= label_[k] <= 'Z' as int)
         || ('a' as int <= label_[k] <= 'z' as int) || label_[k] == '-' as int
  }

  predicate AreLabels(labels: seq<Bytes>) { forall k | 0 <= k < |labels| :: IsLabel(labels[k]) }

  /** The name, but for one dot at its end, is labels joined by dots, 253 octets at most. */
  ghost predicate IsName(name: Bytes) {
    && |Stripped(name)| <= 253
    && exists labels: seq<Bytes> :: labels != [] && AreLabels(labels) && Join(labels) == Stripped(name)
  }

  lemma {:induction false} FirstInvalidIs(part: Bytes)
    ensures FirstInvalid(part).None? <==> forall k | 0 <= k < |part| :: IsNameOctet(part[k])
    ensures FirstInvalid(part).Some? ==>
              exists k | 0 <= k < |part| ::
                && part[k] == FirstInvalid(part).value && !IsNameOctet(part[k])
                && forall j | 0 <= j < k :: IsNameOctet(part[j])
  {
    if part != [] && IsNameOctet(part[0]) {
      FirstInvalidIs(part[1..]);
      assert forall k | 0 < k < |part| :: part[k] == part[1..][k - 1];
      if FirstInvalid(part).Some? {
        var k :| 0 <= k < |part[1..]| && part[1..][k] == FirstInvalid(part).value && !IsNameOctet(part[1..][k])
            && forall j | 0 <= j < k :: IsNameOctet(part[1..][j]);
        assert part[k + 1] == FirstInvalid(part).value;
      }
    }
  }

  lemma LabelChecked(part: Bytes)
    ensures CheckLabel(part).None? <==> IsLabel(part)
  {
    FirstInvalidIs(part);
  }

  lemma {:induction false} LabelsChecked(labels: seq<Bytes>)
    ensures CheckLabels(labels).None? <==> AreLabels(labels)
  {
    if labels != [] {
      LabelChecked(labels[0]);
      LabelsChecked(labels[1..]);
      assert forall k | 0 < k < |labels| :: labels[k] == labels[1..][k - 1];
    }
  }

  lemma LabelHasNoDot(label_: Bytes)
    requires IsLabel(label_)
    ensures DOT !in label_
  {
  }

  lemma {:induction false} FirstDotBehind(first: Bytes, rest: Bytes)
    requires DOT !in first
    ensures FirstDot(first + [DOT] + rest) == |first|
    ensures FirstDot(first) == |first|
  {
    if first != [] {
      FirstDotBehind(first[1..], rest);
      assert (first + [DOT] + rest)[1..] == first[1..] + [DOT] + rest;
    }
  }

  lemma SplitNext(first: Bytes, rest: Bytes)
    requires DOT !in first
    ensures Split(first + [DOT] + rest) == [first] + Split(rest) && Split(first) == [first]
  {
    var name := first + [DOT] + rest;
    FirstDotBehind(first, rest);
    assert name[..|first|] == first && name[|first| + 1..] == rest;
  }

  /** Labels joined by dots are split into the same labels. */
  lemma {:induction false} SplitJoin(labels: seq<Bytes>)
    requires labels != [] && AreLabels(labels)
    ensures Split(Join(labels)) == labels
  {
    LabelHasNoDot(labels[0]);
    SplitNext(labels[0], Join(labels[1..]));
    if |labels| > 1 { SplitJoin(labels[1..]); }
    assert labels == [labels[0]] + labels[1..];
  }

  lemma JoinedIsNotEmpty(labels: seq<Bytes>)
    requires labels != [] && AreLabels(labels)
    ensures Join(labels) != []
  {
    assert IsLabel(labels[0]);
  }

  lemma {:induction false} JoinedIsAscii(labels: seq<Bytes>)
    requires AreLabels(labels)
    ensures forall k | 0 <= k < |Join(labels)| :: Join(labels)[k] < 0x80
  {
    if labels != [] {
      assert IsLabel(labels[0]);
      assert AreLabels(labels[1..]) by { assert forall k | 0 < k < |labels| :: labels[k] == labels[1..][k - 1]; }
      JoinedIsAscii(labels[1..]);
    }
  }

  /** A query is made of exactly the names that are labels joined by dots, with or without a dot at the end. */
  lemma NameIsAccepted(name: Bytes)
    ensures CheckName(name).None? <==> IsName(name)
  {
    var stripped := Stripped(name);
    if CheckName(name).None? {
      LabelsChecked(Split(stripped));
      JoinSplit(stripped);
    }
    if IsName(name) {
      var labels: seq<Bytes> :| labels != [] && AreLabels(labels) && Join(labels) == stripped;
      JoinedIsNotEmpty(labels);
      JoinedIsAscii(labels);
      SplitJoin(labels);
      LabelsChecked(labels);
    }
  }

  /** The part of a name that is refused first, and why. */
  predicate RefusedPart(part: Bytes, e: EncodeError) {
    match e
    case EmptyLabel => part == []
    case LabelTooLong(length) => length == |part| > 63
    case InvalidCharacter(octet) =>
      0 < |part| <= 63 && exists k | 0 <= k < |part| ::
        part[k] == octet && !IsLabel([part[k]]) && forall j | 0 <= j < k :: IsLabel([part[j]])
    case _ => false
  }

  lemma OneLetter(o: Octet)
    ensures IsLabel([o]) <==> IsNameOctet(o)
  {
    assert [o][0] == o;
  }

  lemma RefusedPartIs(part: Bytes)
    requires CheckLabel(part).Some?
    ensures RefusedPart(part, CheckLabel(part).value)
  {
    FirstInvalidIs(part);
    forall k | 0 <= k < |part|
      ensures IsLabel([part[k]]) <==> IsNameOctet(part[k])
    {
      OneLetter(part[k]);
    }
  }

  lemma {:induction false} FirstRefused(labels: seq<Bytes>)
    requires CheckLabels(labels).Some?
    ensures exists k | 0 <= k < |labels| ::
              AreLabels(labels[..k]) && RefusedPart(labels[k], CheckLabels(labels).value)
  {
    if CheckLabel(labels[0]).Some? {
      RefusedPartIs(labels[0]);
      assert AreLabels(labels[..0]);
    } else {
      LabelChecked(labels[0]);
      FirstRefused(labels[1..]);
      var k :| 0 <= k < |labels[1..]|
          && AreLabels(labels[1..][..k]) && RefusedPart(labels[1..][k], CheckLabels(labels).value);
      assert labels[..k + 1] == [labels[0]] + labels[1..][..k];
      assert labels[k + 1] == labels[1..][k];
    }
  }

  /** Any other name is refused: as empty, as too long, for an octet that is not ASCII, or for the first of its
      parts that is no label. */
  lemma RefusalIs(name: Bytes, e: EncodeError)
    requires CheckName(name) == Some(e)
    ensures var s := Stripped(name);
            if s == [] then e == EmptyName
            else if |s| > 253 then e == NameTooLong(|s|)
            else if exists k | 0 <= k < |s| :: s[k] >= 128 then e == NonAscii
            else exists k | 0 <= k < |Split(s)| :: AreLabels(Split(s)[..k]) && RefusedPart(Split(s)[k], e)
  {
    var s := Stripped(name);
    if CheckLabels(Split(s)).Some? { FirstRefused(Split(s)); }
  }

  // ----- The query -----

  /** A query asks for recursion with one question, of type 1 and class 1, and nothing else. */
  lemma QueryIs(identifier: Word16, labels: seq<Bytes>)
    requires WireLabels(labels)
    ensures QueryOctets(identifier, labels)
            == BigEndian16(identifier) + [1, 0, 0, 1, 0, 0, 0, 0, 0, 0] + NameOctets(labels) + [0, 1, 0, 1]
  {
    assert QueryHeader(identifier) == BigEndian16(identifier) + [1, 0, 0, 1, 0, 0, 0, 0, 0, 0];
    assert BigEndian16(TYPE_A) + BigEndian16(CLASS_IN) == [0, 1, 0, 1];
  }

  // ----- Walking -----

  /** Whole labels lead from one offset to the other. */
  predicate LeadsTo(b: Bytes, offset: nat, at: nat)
    decreases |b| - offset
  {
    || offset == at
    || (offset < |b| && 0 < b[offset] <= 63 && offset + 1 + b[offset] <= |b| && LeadsTo(b, offset + 1 + b[offset], at))
  }

  /** A length that is none, or a pointer out of the message. */
  predicate Broken(b: Bytes, at: nat) {
    && at < |b|
    && (|| 64 <= b[at] < 192
        || (b[at] >= 192 && at + 1 < |b| && (b[at] - 192) * 256 + b[at + 1] >= |b|))
  }

  /** A label or pointer that the message ends in, or its end where one should be. */
  predicate CutOff(b: Bytes, at: nat) {
    || at >= |b|
    || (b[at] >= 192 && at + 1 >= |b|)
    || (0 < b[at] <= 63 && at + 1 + b[at] > |b|)
  }

  /** Where the walk over a name ends without one: at something broken or cut off. */
  lemma {:induction false} WalkFailsAt(b: Bytes, offset: nat)
    requires SkipName(b, offset).Err?
    ensures exists at: nat ::
              && LeadsTo(b, offset, at)
              && (if SkipName(b, offset).error == MalformedName then Broken(b, at)
                  else SkipName(b, offset).error == Truncated && CutOff(b, at))
    decreases |b| - offset
  {
    if offset < |b| && 0 < b[offset] <= 63 && offset + 1 + b[offset] <= |b| {
      var next := offset + 1 + b[offset];
      WalkFailsAt(b, next);
      var at: nat :|
        && LeadsTo(b, next, at)
        && (if SkipName(b, next).error == MalformedName then Broken(b, at)
            else SkipName(b, next).error == Truncated && CutOff(b, at));
      assert LeadsTo(b, offset, at);
    } else {
      assert LeadsTo(b, offset, offset);
    }
  }
}
