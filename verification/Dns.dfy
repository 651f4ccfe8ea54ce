/** A-record queries and responses (section 4.1 of RFC 1035). */
module Dns {
  import opened Octets
  import Ipv4

  const HEADER := 12
  const TYPE_A: Word16 := 1
  const CLASS_IN: Word16 := 1
  const MAX_LABEL := 63
  const MAX_NAME := 253
  const DOT: Octet := 0x2e

  datatype EncodeError =
    | EmptyName
    | NameTooLong(length: nat)
    | EmptyLabel
    | LabelTooLong(labelLength: nat)
    | NonAscii
    | InvalidCharacter(octet: Octet)
    | OutputTooSmall(required: nat, available: nat)

  datatype ParseError =
    | Truncated
    | IdentifierMismatch(expected: Word16, received: Word16)
    | NotResponse
    | UnsupportedOpcode(opcode: Octet)
    | TruncatedResponse
    | ResponseCode(code: Octet)
    | NoQuestion
    | NoAnswer
    | MalformedName
    | NoIpv4Answer

  // ----- Names -----

  function FirstDot(name: Bytes): (n: nat)
    ensures n <= |name| && (n < |name| ==> name[n] == DOT)
    ensures DOT !in name[..n]
  {
    if name == [] || name[0] == DOT then 0
    else
      assert forall k | 0 < k < |name| :: name[k] == name[1..][k - 1];
      1 + FirstDot(name[1..])
  }

  function Split(name: Bytes): (labels: seq<Bytes>)
    ensures labels != []
    decreases |name|
  {
    var n := FirstDot(name);
    if n == |name| then [name] else [name[..n]] + Split(name[n + 1..])
  }

  function Join(labels: seq<Bytes>): Bytes {
    if labels == [] then []
    else if |labels| == 1 then labels[0]
    else labels[0] + [DOT] + Join(labels[1..])
  }

  lemma CutAtDot(name: Bytes, n: nat)
    requires n < |name| && name[n] == DOT
    ensures name[..n] + [DOT] + name[n + 1..] == name
  {
  }

  lemma JoinNext(first: Bytes, rest: seq<Bytes>)
    requires rest != []
    ensures Join([first] + rest) == first + [DOT] + Join(rest)
  {
    assert ([first] + rest)[1..] == rest;
  }

  /** Splitting a name at its dots loses nothing. */
  lemma {:induction false} JoinSplit(name: Bytes)
    ensures Join(Split(name)) == name
    decreases |name|
  {
    var n := FirstDot(name);
    if n < |name| {
      JoinSplit(name[n + 1..]);
      JoinNext(name[..n], Split(name[n + 1..]));
      CutAtDot(name, n);
    }
  }

  predicate IsNameOctet(o: Octet) { 0x30 <= o <= 0x39 || 0x41 <= o <= 0x5a || 0x61 <= o <= 0x7a || o == 0x2d }

  function FirstInvalid(part: Bytes): Option<Octet> {
    if part == [] then None else if !IsNameOctet(part[0]) then Some(part[0]) else FirstInvalid(part[1..])
  }

  function CheckLabel(part: Bytes): Option<EncodeError> {
    if part == [] then Some(EmptyLabel)
    else if |part| > MAX_LABEL then Some(LabelTooLong(|part|))
    else if FirstInvalid(part).Some? then Some(InvalidCharacter(FirstInvalid(part).value))
    else None
  }

  function CheckLabels(labels: seq<Bytes>): Option<EncodeError> {
    if labels == [] then None
    else if CheckLabel(labels[0]).Some? then CheckLabel(labels[0])
    else CheckLabels(labels[1..])
  }

  /** One trailing dot is not part of the name. */
  function Stripped(name: Bytes): Bytes {
    if name != [] && name[|name| - 1] == DOT then name[..|name| - 1] else name
  }

  function CheckName(name: Bytes): Option<EncodeError> {
    var stripped := Stripped(name);
    if stripped == [] then Some(EmptyName)
    else if |stripped| > MAX_NAME then Some(NameTooLong(|stripped|))
    else if exists k | 0 <= k < |stripped| :: stripped[k] >= 0x80 then Some(NonAscii)
    else CheckLabels(Split(stripped))
  }

  predicate WireLabels(labels: seq<Bytes>) { forall k | 0 <= k < |labels| :: 0 < |labels[k]| <= MAX_LABEL }

  lemma {:induction false} CheckedLabelsFit(labels: seq<Bytes>)
    requires CheckLabels(labels).None?
    ensures WireLabels(labels)
  {
    if labels != [] {
      CheckedLabelsFit(labels[1..]);
      assert forall k | 0 < k < |labels| :: labels[k] == labels[1..][k - 1];
    }
  }

  // ----- Queries -----

  function LabelOctets(labels: seq<Bytes>): Bytes
    requires WireLabels(labels)
  {
    if labels == [] then [] else [|labels[0]|] + labels[0] + LabelOctets(labels[1..])
  }

  function NameOctets(labels: seq<Bytes>): Bytes
    requires WireLabels(labels)
  {
    LabelOctets(labels) + [0]
  }

  function QueryHeader(identifier: Word16): Bytes {
    BigEndian16(identifier) + BigEndian16(0x0100) + BigEndian16(1) + [0, 0, 0, 0, 0, 0]
  }

  function QueryOctets(identifier: Word16, labels: seq<Bytes>): Bytes
    requires WireLabels(labels)
  {
    QueryHeader(identifier) + NameOctets(labels) + (BigEndian16(TYPE_A) + BigEndian16(CLASS_IN))
  }

  function EncodeQuery(identifier: Word16, name: Bytes, available: nat): Result<Bytes, EncodeError> {
    if CheckName(name).Some? then Err(CheckName(name).value)
    else
      var labels := Split(Stripped(name));
      CheckedLabelsFit(labels);
      var required := HEADER + |NameOctets(labels)| + 4;
      if available < required then Err(OutputTooSmall(required, available)) else Ok(QueryOctets(identifier, labels))
  }

  // ----- Walking names -----

  function SkipName(b: Bytes, offset: nat): Result<nat, ParseError>
    decreases |b| - offset
  {
    if offset >= |b| then Err(Truncated)
    else if b[offset] == 0 then Ok(offset + 1)
    else if b[offset] >= 0xc0 then
      if offset + 1 >= |b| then Err(Truncated)
      else if (b[offset] - 0xc0) * 0x100 + b[offset + 1] >= |b| then Err(MalformedName)
      else Ok(offset + 2)
    else if b[offset] > MAX_LABEL then Err(MalformedName)
    else if offset + 1 + b[offset] > |b| then Err(Truncated)
    else SkipName(b, offset + 1 + b[offset])
  }

  /** Labels up to an empty one, or up to a pointer into the message. */
  predicate IsWireName(w: Bytes, message: nat)
    decreases |w|
  {
    && w != []
    && (|| w == [0]
        || (|w| == 2 && w[0] >= 0xc0 && (w[0] - 0xc0) * 0x100 + w[1] < message)
        || (0 < w[0] <= MAX_LABEL && 1 + w[0] < |w| && IsWireName(w[1 + w[0]..], message)))
  }

  /** The walk stops exactly behind the wire name at its offset, if there is one. */
  lemma {:induction false} SkipNameFindsEnd(b: Bytes, offset: nat, end: nat)
    requires offset <= end <= |b|
    ensures SkipName(b, offset) == Ok(end) <==> IsWireName(b[offset..end], |b|)
    decreases |b| - offset
  {
    if offset < |b| && 0 < b[offset] <= MAX_LABEL {
      var next := offset + 1 + b[offset];
      if next <= end {
        SkipNameFindsEnd(b, next, end);
        if offset < end { assert b[offset..end][1 + b[offset]..] == b[next..end]; }
      } else if next <= |b| {
        SkipNameMovesOn(b, next);
      }
    }
  }

  lemma {:induction false} SkipNameMovesOn(b: Bytes, offset: nat)
    ensures SkipName(b, offset).Ok? ==> offset < SkipName(b, offset).value <= |b|
    decreases |b| - offset
  {
    if offset < |b| && 0 < b[offset] <= MAX_LABEL && offset + 1 + b[offset] <= |b| {
      SkipNameMovesOn(b, offset + 1 + b[offset]);
    }
  }

  /** The labels of a name without pointers. */
  function ReadLabels(w: Bytes): Option<seq<Bytes>>
    decreases |w|
  {
    if w == [] || w[0] > MAX_LABEL || 1 + w[0] > |w| then None
    else if w[0] == 0 then Some([])
    else
      match ReadLabels(w[1 + w[0]..])
      case None => None
      case Some(rest) => Some([w[1..1 + w[0]]] + rest)
  }

  lemma LabelInFront(first: Bytes, rest: Bytes)
    requires 0 < |first| <= MAX_LABEL
    ensures var w := [|first|] + first + rest;
            w[0] == |first| && w[1..1 + |first|] == first && w[1 + |first|..] == rest
  {
  }

  lemma NameInFront(labels: seq<Bytes>, behind: Bytes)
    requires labels != [] && WireLabels(labels)
    ensures WireLabels(labels[1..])
    ensures NameOctets(labels) + behind == [|labels[0]|] + labels[0] + (NameOctets(labels[1..]) + behind)
  {
    assert NameOctets(labels) == [|labels[0]|] + labels[0] + NameOctets(labels[1..]);
  }

  /** Encoded labels are a wire name, */
  lemma {:induction false} EncodedNameIsWireName(labels: seq<Bytes>, message: nat)
    requires WireLabels(labels)
    ensures IsWireName(NameOctets(labels), message)
  {
    if labels != [] {
      EncodedNameIsWireName(labels[1..], message);
      LabelInFront(labels[0], NameOctets(labels[1..]));
      NameInFront(labels, []);
      assert NameOctets(labels) + [] == NameOctets(labels);
      assert NameOctets(labels[1..]) + [] == NameOctets(labels[1..]);
    }
  }

  lemma ReadFirst(first: Bytes, rest: Bytes)
    requires 0 < |first| <= MAX_LABEL
    ensures ReadLabels([|first|] + first + rest)
            == match ReadLabels(rest) case None => None case Some(others) => Some([first] + others)
  {
    LabelInFront(first, rest);
  }

  /** and walking them gives them back. */
  lemma {:induction false} EncodedNameIsRead(labels: seq<Bytes>, behind: Bytes)
    requires WireLabels(labels)
    ensures ReadLabels(NameOctets(labels) + behind) == Some(labels)
  {
    if labels != [] {
      EncodedNameIsRead(labels[1..], behind);
      NameInFront(labels, behind);
      ReadFirst(labels[0], NameOctets(labels[1..]) + behind);
      assert labels == [labels[0]] + labels[1..];
    }
  }

  lemma PartsOfQuery(header: Bytes, name: Bytes, tail: Bytes)
    ensures var q := header + name + tail;
            && q[|header|..|header| + |name|] == name && q[|header|..] == name + tail
            && q[|header| + |name|..] == tail
  {
  }

  lemma QueryIsWalked(identifier: Word16, labels: seq<Bytes>)
    requires WireLabels(labels)
    ensures var q := QueryOctets(identifier, labels);
            && |q| == HEADER + |NameOctets(labels)| + 4
            && ReadLabels(q[HEADER..]) == Some(labels) && SkipName(q, HEADER) == Ok(|q| - 4)
            && q[|q| - 4..] == BigEndian16(TYPE_A) + BigEndian16(CLASS_IN)
  {
    var q := QueryOctets(identifier, labels);
    var tail := BigEndian16(TYPE_A) + BigEndian16(CLASS_IN);
    PartsOfQuery(QueryHeader(identifier), NameOctets(labels), tail);
    EncodedNameIsRead(labels, tail);
    EncodedNameIsWireName(labels, |q|);
    SkipNameFindsEnd(q, HEADER, |q| - 4);
  }

  /** For every name that is accepted, the label walk recovers the name, and skipping stops exactly
      at the type. */
  lemma QueryRoundTrip(identifier: Word16, name: Bytes)
    requires CheckName(name).None?
    ensures WireLabels(Split(Stripped(name))) && Join(Split(Stripped(name))) == Stripped(name)
    ensures var q := QueryOctets(identifier, Split(Stripped(name)));
            && ReadLabels(q[HEADER..]) == Some(Split(Stripped(name)))
            && SkipName(q, HEADER) == Ok(|q| - 4)
            && q[|q| - 4..] == BigEndian16(TYPE_A) + BigEndian16(CLASS_IN)
  {
    CheckedLabelsFit(Split(Stripped(name)));
    QueryIsWalked(identifier, Split(Stripped(name)));
    JoinSplit(Stripped(name));
  }

  // ----- Responses -----

  datatype Record = Record(kind: Word16, family: Word16, data: Bytes)

  datatype AResponse = AResponse(responseCode: Octet, answerCount: Word16, address: Bytes)

  /** Behind `count` questions. */
  function SkipQuestions(b: Bytes, offset: nat, count: nat): Result<nat, ParseError>
    decreases count
  {
    if count == 0 then Ok(offset)
    else
      match SkipName(b, offset)
      case Err(e) => Err(e)
      case Ok(end) => if end + 4 > |b| then Err(Truncated) else SkipQuestions(b, end + 4, count - 1)
  }

  /** The record at an offset, and where the next one starts. */
  function ReadRecord(b: Bytes, offset: nat): Result<(Record, nat), ParseError> {
    match SkipName(b, offset)
    case Err(e) => Err(e)
    case Ok(end) =>
      if |b| - end < 10 then Err(Truncated)
      else
        var length := Ipv4.Read16(b, end + 8);
        if |b| - (end + 10) < length then Err(Truncated)
        else
          Ok((Record(Ipv4.Read16(b, end), Ipv4.Read16(b, end + 2), b[end + 10..end + 10 + length]), end + 10 + length))
  }

  /** Up to `count` records in order, and what stopped the walk early. */
  function ReadRecords(b: Bytes, offset: nat, count: nat): (seq<Record>, Option<ParseError>)
    decreases count
  {
    if count == 0 then ([], None)
    else
      match ReadRecord(b, offset)
      case Err(e) => ([], Some(e))
      case Ok((record, next)) =>
        var (rest, error) := ReadRecords(b, next, count - 1);
        ([record] + rest, error)
  }

  predicate IsAddress(r: Record) { r.kind == TYPE_A && r.family == CLASS_IN && |r.data| == 4 }

  function FirstAddress(records: seq<Record>): (r: Option<Bytes>)
    ensures r.Some? ==>
              exists k | 0 <= k < |records| ::
                && IsAddress(records[k]) && records[k].data == r.value
                && forall j | 0 <= j < k :: !IsAddress(records[j])
    ensures r.None? ==> forall j | 0 <= j < |records| :: !IsAddress(records[j])
  {
    if records == [] then None
    else if IsAddress(records[0]) then Some(records[0].data)
    else
      assert forall k | 0 < k < |records| :: records[k] == records[1..][k - 1];
      FirstAddress(records[1..])
  }

  /** A record as a server writes it: a name, a time to live, and data of any length. */
  datatype Answer = Answer(name: Bytes, timeToLive: Bytes, record: Record)

  type Written = w: Answer | |w.timeToLive| == 4 && |w.record.data| <= 0xffff
    witness Answer([], [0, 0, 0, 0], Record(0, 0, []))

  function FixedOctets(w: Written): Bytes {
    BigEndian16(w.record.kind) + BigEndian16(w.record.family) + w.timeToLive + BigEndian16(|w.record.data|)
  }

  function RecordOctets(w: Written): Bytes { w.name + FixedOctets(w) + w.record.data }

  function AnswerOctets(answers: seq<Written>): Bytes {
    if answers == [] then [] else RecordOctets(answers[0]) + AnswerOctets(answers[1..])
  }

  function RecordsOf(answers: seq<Written>): seq<Record> {
    if answers == [] then [] else [answers[0].record] + RecordsOf(answers[1..])
  }

  lemma FixedFields(w: Written)
    ensures var f := FixedOctets(w);
            && |f| == 10 && [f[0], f[1]] == BigEndian16(w.record.kind) && [f[2], f[3]] == BigEndian16(w.record.family)
            && [f[8], f[9]] == BigEndian16(|w.record.data|)
  {
  }

  lemma RecordParts(before: Bytes, name: Bytes, f: Bytes, data: Bytes, behind: Bytes)
    requires |f| == 10
    ensures var b := before + (name + f + data + behind);
            var end := |before| + |name|;
            && b[|before|..end] == name && b[end + 10..end + 10 + |data|] == data
            && b[end] == f[0] && b[end + 1] == f[1] && b[end + 2] == f[2] && b[end + 3] == f[3]
            && b[end + 8] == f[8] && b[end + 9] == f[9]
  {
  }

  lemma RecordFromFields(b: Bytes, offset: nat, end: nat, r: Record)
    requires SkipName(b, offset) == Ok(end) && |r.data| <= 0xffff && end + 10 + |r.data| <= |b|
    requires [b[end], b[end + 1]] == BigEndian16(r.kind) && [b[end + 2], b[end + 3]] == BigEndian16(r.family)
    requires [b[end + 8], b[end + 9]] == BigEndian16(|r.data|) && b[end + 10..end + 10 + |r.data|] == r.data
    ensures ReadRecord(b, offset) == Ok((r, end + 10 + |r.data|))
  {
    Ipv4.ReadWritten(r.kind);
    Ipv4.ReadWritten(r.family);
    Ipv4.ReadWritten(|r.data|);
  }

  /** Where the parts of a written record stand in the message. */
  lemma WrittenParts(b: Bytes, before: Bytes, w: Written, behind: Bytes)
    requires b == before + (RecordOctets(w) + behind)
    ensures var end := |before| + |w.name|;
            && |RecordOctets(w)| == |w.name| + 10 + |w.record.data| && end + 10 + |w.record.data| <= |b|
            && b[|before|..end] == w.name
            && b[end + 10..end + 10 + |w.record.data|] == w.record.data
            && [b[end], b[end + 1]] == BigEndian16(w.record.kind)
            && [b[end + 2], b[end + 3]] == BigEndian16(w.record.family)
            && [b[end + 8], b[end + 9]] == BigEndian16(|w.record.data|)
  {
    FixedFields(w);
    RecordParts(before, w.name, FixedOctets(w), w.record.data, behind);
  }

  lemma NameIsSkipped(b: Bytes, offset: nat, end: nat, name: Bytes)
    requires offset <= end <= |b| && b[offset..end] == name && IsWireName(name, |b|)
    ensures SkipName(b, offset) == Ok(end)
  {
    SkipNameFindsEnd(b, offset, end);
  }

  lemma WrittenRecordIsRead(b: Bytes, before: Bytes, w: Written, behind: Bytes)
    requires IsWireName(w.name, |b|) && b == before + (RecordOctets(w) + behind)
    ensures ReadRecord(b, |before|) == Ok((w.record, |before| + |RecordOctets(w)|))
  {
    var end := |before| + |w.name|;
    WrittenParts(b, before, w, behind);
    NameIsSkipped(b, |before|, end, w.name);
    RecordFromFields(b, |before|, end, w.record);
  }

  lemma OneRecordMore(b: Bytes, offset: nat, record: Record, next: nat, rest: seq<Record>)
    requires ReadRecord(b, offset) == Ok((record, next)) && ReadRecords(b, next, |rest|) == (rest, None)
    ensures ReadRecords(b, offset, |rest| + 1) == ([record] + rest, None)
  {
  }

  lemma MessageParts(before: Bytes, first: Bytes, rest: Bytes, behind: Bytes)
    ensures before + (first + rest + behind) == before + (first + (rest + behind))
    ensures before + (first + rest + behind) == before + first + (rest + behind)
  {
    Regroup(first, rest, behind);
    Regroup(before, first, rest + behind);
  }

  lemma FirstAnswerIsRead(b: Bytes, before: Bytes, w: Written, first: Bytes, rest: Bytes, behind: Bytes)
    requires IsWireName(w.name, |b|) && first == RecordOctets(w) && b == before + (first + rest + behind)
    ensures ReadRecord(b, |before|) == Ok((w.record, |before + first|)) && b == before + first + (rest + behind)
  {
    MessageParts(before, first, rest, behind);
    WrittenRecordIsRead(b, before, w, rest + behind);
  }

  /** However many answers a message holds, each is read as it was written, in order. */
  lemma {:induction false} AnswersAreRead(b: Bytes, before: Bytes, answers: seq<Written>, behind: Bytes)
    requires forall w | w in answers :: IsWireName(w.name, |b|)
    requires b == before + (AnswerOctets(answers) + behind)
    ensures |RecordsOf(answers)| == |answers| && ReadRecords(b, |before|, |answers|) == (RecordsOf(answers), None)
    decreases |answers|
  {
    if answers != [] {
      var first := RecordOctets(answers[0]);
      FirstAnswerIsRead(b, before, answers[0], first, AnswerOctets(answers[1..]), behind);
      AnswersAreRead(b, before + first, answers[1..], behind);
      OneRecordMore(b, |before|, answers[0].record, |before + first|, RecordsOf(answers[1..]));
    }
  }

  function CheckHeader(identifier: Word16, b: Bytes): Option<ParseError> {
    if |b| < HEADER then Some(Truncated)
    else if Ipv4.Read16(b, 0) != identifier then Some(IdentifierMismatch(identifier, Ipv4.Read16(b, 0)))
    else
      var flags := Ipv4.Read16(b, 2);
      if flags < 0x8000 then Some(NotResponse)
      else if flags / 0x800 % 0x10 != 0 then Some(UnsupportedOpcode(flags / 0x800 % 0x10))
      else if flags / 0x200 % 2 != 0 then Some(TruncatedResponse)
      else if flags % 0x10 != 0 then Some(ResponseCode(flags % 0x10))
      else if Ipv4.Read16(b, 4) == 0 then Some(NoQuestion)
      else if Ipv4.Read16(b, 6) == 0 then Some(NoAnswer)
      else None
  }

  /** The first address among the records that can be read; otherwise why there is none. */
  function Interpret(identifier: Word16, b: Bytes): Result<AResponse, ParseError> {
    if CheckHeader(identifier, b).Some? then Err(CheckHeader(identifier, b).value)
    else
      match SkipQuestions(b, HEADER, Ipv4.Read16(b, 4))
      case Err(e) => Err(e)
      case Ok(start) =>
        var (records, error) := ReadRecords(b, start, Ipv4.Read16(b, 6));
        match FirstAddress(records)
        case Some(address) => Ok(AResponse(0, Ipv4.Read16(b, 6), address))
        case None => Err(if error.Some? then error.value else NoIpv4Answer)
  }

  // ----- The loops -----

  method SkipNameLoop(b: Bytes, start: nat) returns (r: Result<nat, ParseError>)
    ensures r == SkipName(b, start)
  {
    var offset := start;
    while true
      invariant SkipName(b, offset) == SkipName(b, start)
      decreases |b| - offset
    {
      if offset >= |b| {
        return Err(Truncated);
      }
      var length := b[offset];
      if length == 0 {
        return Ok(offset + 1);
      }
      if length >= 0xc0 {
        if offset + 1 >= |b| {
          return Err(Truncated);
        }
        if ReadBigEndian16(length - 0xc0, b[offset + 1]) >= |b| {
          return Err(MalformedName);
        }
        return Ok(offset + 2);
      }
      if length > MAX_LABEL {
        return Err(MalformedName);
      }
      offset := offset + 1 + length;
      if offset > |b| {
        return Err(Truncated);
      }
    }
  }

  method SkipQuestionsLoop(b: Bytes, start: nat, count: Word16) returns (r: Result<nat, ParseError>)
    ensures r == SkipQuestions(b, start, count)
  {
    var offset: nat := start;
    for n := 0 to count
      invariant SkipQuestions(b, offset, count - n) == SkipQuestions(b, start, count)
    {
      var end := SkipNameLoop(b, offset);
      if end.Err? {
        return Err(end.error);
      }
      offset := end.value + 4;
      if offset > |b| {
        return Err(Truncated);
      }
    }
    return Ok(offset);
  }

  method ReadRecordAt(b: Bytes, start: nat) returns (r: Result<(Record, nat), ParseError>)
    ensures r == ReadRecord(b, start)
  {
    var end := SkipNameLoop(b, start);
    if end.Err? {
      return Err(end.error);
    }
    var offset := end.value;
    if |b| - offset < 10 {
      return Err(Truncated);
    }
    var length := Ipv4.Read16(b, offset + 8);
    if |b| - (offset + 10) < length {
      return Err(Truncated);
    }
    return Ok((Record(Ipv4.Read16(b, offset), Ipv4.Read16(b, offset + 2), b[offset + 10..offset + 10 + length]),
               offset + 10 + length));
  }

  /** The walk over the answers ends at the first address, before anything behind it is looked at. */
  method FindAddress(b: Bytes, start: nat, count: Word16) returns (r: Result<Bytes, ParseError>)
    ensures var (records, error) := ReadRecords(b, start, count);
            r == match FirstAddress(records)
                 case Some(address) => Ok(address)
                 case None => Err(if error.Some? then error.value else NoIpv4Answer)
  {
    ghost var all := ReadRecords(b, start, count);
    var offset := start;
    for n := 0 to count
      invariant FirstAddress(all.0) == FirstAddress(ReadRecords(b, offset, count - n).0)
      invariant all.1 == ReadRecords(b, offset, count - n).1
    {
      var record := ReadRecordAt(b, offset);
      if record.Err? {
        return Err(record.error);
      }
      var (found, next) := record.value;
      ghost var behind := ReadRecords(b, next, count - n - 1).0;
      assert ([found] + behind)[1..] == behind;
      if IsAddress(found) {
        return Ok(found.data);
      }
      offset := next;
    }
    return Err(NoIpv4Answer);
  }

  method ParseAResponse(identifier: Word16, b: Bytes) returns (r: Result<AResponse, ParseError>)
    ensures r == Interpret(identifier, b)
  {
    var error := CheckHeader(identifier, b);
    if error.Some? {
      return Err(error.value);
    }
    var start := SkipQuestionsLoop(b, HEADER, Ipv4.Read16(b, 4));
    if start.Err? {
      return Err(start.error);
    }
    var address := FindAddress(b, start.value, Ipv4.Read16(b, 6));
    if address.Err? {
      return Err(address.error);
    }
    return Ok(AResponse(0, Ipv4.Read16(b, 6), address.value));
  }

  // ----- Writing a query -----

  lemma {:induction false} LabelOctetsAppend(labels: seq<Bytes>, n: nat)
    requires n < |labels| && WireLabels(labels)
    ensures LabelOctets(labels[..n + 1]) == LabelOctets(labels[..n]) + ([|labels[n]|] + labels[n])
  {
    if n == 0 {
      assert labels[..1][1..] == [] && labels[..0] == [];
    } else {
      LabelOctetsAppend(labels[1..], n - 1);
      assert labels[..n + 1][1..] == labels[1..][..n] && labels[..n][1..] == labels[1..][..n - 1];
      Regroup([|labels[0]|] + labels[0], LabelOctets(labels[1..][..n - 1]), [|labels[n]|] + labels[n]);
    }
  }

  lemma Regroup(a: Bytes, b: Bytes, c: Bytes)
    ensures a + (b + c) == a + b + c
  {
  }

  lemma {:induction false} LabelOctetsGrow(labels: seq<Bytes>, n: nat)
    requires n <= |labels| && WireLabels(labels)
    ensures |LabelOctets(labels[..n])| <= |LabelOctets(labels)|
    decreases |labels| - n
  {
    if n < |labels| {
      LabelOctetsAppend(labels, n);
      LabelOctetsGrow(labels, n + 1);
    } else {
      assert labels[..n] == labels;
    }
  }

  method MeasureLabels(labels: seq<Bytes>) returns (r: Result<nat, EncodeError>)
    ensures match CheckLabels(labels)
            case Some(e) => r == Err(e)
            case None => WireLabels(labels) && r == Ok(|NameOctets(labels)|)
  {
    var length := 1;
    assert labels[0..] == labels && labels[..0] == [];
    for n := 0 to |labels|
      invariant CheckLabels(labels) == CheckLabels(labels[n..])
      invariant WireLabels(labels[..n]) && length == 1 + |LabelOctets(labels[..n])|
    {
      assert labels[n..][1..] == labels[n + 1..];
      var error := CheckLabel(labels[n]);
      if error.Some? {
        return Err(error.value);
      }
      assert labels[..n + 1] == labels[..n] + [labels[n]];
      LabelOctetsAppend(labels[..n + 1], n);
      assert labels[..n + 1][..n] == labels[..n] && labels[..n + 1][..n + 1] == labels[..n + 1];
      length := length + 1 + |labels[n]|;
    }
    assert labels[..|labels|] == labels;
    return Ok(length);
  }

  method EncodeAQuery(identifier: Word16, name: Bytes, output: array<Octet>) returns (r: Result<nat, EncodeError>)
    modifies output
    ensures match EncodeQuery(identifier, name, output.Length)
            case Err(e) => r == Err(e) && output[..] == old(output[..])
            case Ok(octets) => r == Ok(|octets|) && |octets| <= output.Length
                               && output[..|octets|] == octets && output[|octets|..] == old(output[|octets|..])
  {
    var stripped := Stripped(name);
    if stripped == [] {
      return Err(EmptyName);
    }
    if |stripped| > MAX_NAME {
      return Err(NameTooLong(|stripped|));
    }
    if exists k | 0 <= k < |stripped| :: stripped[k] >= 0x80 {
      return Err(NonAscii);
    }
    var labels := Split(stripped);
    var measured := MeasureLabels(labels);
    if measured.Err? {
      return Err(measured.error);
    }
    var required := HEADER + measured.value + 4;
    if output.Length < required {
      return Err(OutputTooSmall(required, output.Length));
    }
    WriteQuery(identifier, labels, output, required);
    return Ok(required);
  }

  method WriteQueryHeader(identifier: Word16, output: array<Octet>, required: nat)
    requires HEADER <= required <= output.Length
    modifies output
    ensures output[..HEADER] == QueryHeader(identifier) && output[required..] == old(output[required..])
  {
    for n := 0 to required
      invariant forall k | 0 <= k < n :: output[k] == 0
      invariant forall k | n <= k < output.Length :: output[k] == old(output[k])
    {
      output[n] := 0;
    }
    Ipv4.Write16(output, 0, identifier);
    Ipv4.Write16(output, 2, 0x0100);
    Ipv4.Write16(output, 4, 1);
  }

  method WriteQuery(identifier: Word16, labels: seq<Bytes>, output: array<Octet>, required: nat)
    requires WireLabels(labels) && required == HEADER + |NameOctets(labels)| + 4 <= output.Length
    modifies output
    ensures output[..required] == QueryOctets(identifier, labels) && output[required..] == old(output[required..])
  {
    ghost var behind := output[required..];
    WriteQueryHeader(identifier, output, required);
    var offset := WriteLabels(labels, output, required);
    output[offset] := 0;
    Ipv4.Write16(output, offset + 1, TYPE_A);
    Ipv4.Write16(output, offset + 3, CLASS_IN);
    assert output[..HEADER] == QueryHeader(identifier) && output[HEADER..offset] == LabelOctets(labels);
    JoinQuery(output[..required], QueryHeader(identifier), LabelOctets(labels));
    assert output[required..] == behind;
  }

  lemma JoinQuery(q: Bytes, header: Bytes, names: Bytes)
    requires |header| == HEADER && |q| == HEADER + |names| + 5
    requires q[..HEADER] == header && q[HEADER..HEADER + |names|] == names && q[HEADER + |names|] == 0
    requires [q[|q| - 4], q[|q| - 3]] == BigEndian16(TYPE_A) && [q[|q| - 2], q[|q| - 1]] == BigEndian16(CLASS_IN)
    ensures q == header + (names + [0]) + (BigEndian16(TYPE_A) + BigEndian16(CLASS_IN))
  {
    var n := HEADER + |names|;
    assert q == q[..HEADER] + q[HEADER..n] + [q[n]] + [q[n + 1], q[n + 2]] + [q[n + 3], q[n + 4]];
  }

  method WriteLabels(labels: seq<Bytes>, output: array<Octet>, ghost required: nat) returns (offset: nat)
    requires WireLabels(labels) && required == HEADER + |NameOctets(labels)| + 4 <= output.Length
    modifies output
    ensures offset == HEADER + |LabelOctets(labels)| && output[HEADER..offset] == LabelOctets(labels)
    ensures output[..HEADER] == old(output[..HEADER]) && output[required..] == old(output[required..])
  {
    offset := HEADER;
    for n := 0 to |labels|
      invariant offset == HEADER + |LabelOctets(labels[..n])| && offset <= required
      invariant output[HEADER..offset] == LabelOctets(labels[..n])
      invariant output[..HEADER] == old(output[..HEADER]) && output[required..] == old(output[required..])
    {
      LabelOctetsAppend(labels, n);
      LabelOctetsGrow(labels, n + 1);
      ghost var written := output[HEADER..offset];
      ghost var header := output[..HEADER];
      ghost var behind := output[required..];
      Ipv4.WriteOctets(output, offset, [|labels[n]|] + labels[n]);
      assert output[HEADER..offset] == written && output[..HEADER] == header && output[required..] == behind;
      offset := offset + 1 + |labels[n]|;
    }
    assert labels[..|labels|] == labels;
  }
}
