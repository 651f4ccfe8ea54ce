/** Which messages are taken for the answer to a query, told from their octets, and what a written response is
    read as. */
module DnsResponses {
  import opened Octets
  import opened Dns
  import Ipv4

  // ----- The header -----

  /** The first two octets are the identifier. */
  predicate Answers(identifier: Word16, b: Bytes) { |b| >= 12 && b[..2] == BigEndian16(identifier) }

  function Opcode(b: Bytes): Octet
    requires |b| >= 12
  {
    b[2] / 8 % 16
  }

  predicate IsResponse(b: Bytes)
    requires |b| >= 12
  {
    b[2] >= 128
  }

  predicate IsCut(b: Bytes)
    requires |b| >= 12
  {
    b[2] / 2 % 2 == 1
  }

  function Code(b: Bytes): Octet
    requires |b| >= 12
  {
    b[3] % 16
  }

  /** A response without an error, to a standard query, in one piece. */
  predicate Plain(identifier: Word16, b: Bytes) {
    Answers(identifier, b) && IsResponse(b) && Opcode(b) == 0 && !IsCut(b) && Code(b) == 0
  }

  predicate GoodHeader(identifier: Word16, b: Bytes) {
    Plain(identifier, b) && b[4..6] != [0, 0] && b[6..8] != [0, 0]
  }

  /** The errors of the header and when they occur, each behind those the code looks for first. */
  predicate HeaderFails(identifier: Word16, b: Bytes, e: ParseError) {
    match e
    case Truncated => |b| < 12
    case IdentifierMismatch(expected, received) =>
      |b| >= 12 && expected == identifier && received != identifier && b[..2] == BigEndian16(received)
    case NotResponse => Answers(identifier, b) && !IsResponse(b)
    case UnsupportedOpcode(opcode) =>
      Answers(identifier, b) && IsResponse(b) && opcode == Opcode(b) && opcode != 0
    case TruncatedResponse => Answers(identifier, b) && IsResponse(b) && Opcode(b) == 0 && IsCut(b)
    case ResponseCode(code) =>
      Answers(identifier, b) && IsResponse(b) && Opcode(b) == 0 && !IsCut(b) && code == Code(b) && code != 0
    case NoQuestion => Plain(identifier, b) && b[4..6] == [0, 0]
    case NoAnswer => Plain(identifier, b) && b[4..6] != [0, 0] && b[6..8] == [0, 0]
    case MalformedName | NoIpv4Answer => false
  }

  lemma WordIsZero(b: Bytes, offset: nat)
    requires offset + 2 <= |b|
    ensures Ipv4.Read16(b, offset) == 0 <==> b[offset..offset + 2] == [0, 0]
  {
    assert b[offset..offset + 2] == [b[offset], b[offset + 1]];
  }

  lemma WordIs(b: Bytes, w: Word16)
    requires |b| >= 2
    ensures Ipv4.Read16(b, 0) == w <==> b[..2] == BigEndian16(w)
  {
    Ipv4.ReadWritten(w);
    assert b[..2] == [b[0], b[1]];
    assert Ipv4.Read16(b, 0) / 0x100 == b[0] && Ipv4.Read16(b, 0) % 0x100 == b[1];
  }

  lemma FlagBits(high: Octet, low: Octet)
    ensures var flags := ReadBigEndian16(high, low);
            && (flags < 0x8000 <==> high < 128) && flags / 0x800 % 0x10 == high / 8 % 16
            && flags / 0x200 % 2 == high / 2 % 2 && flags % 0x10 == low % 16
  {
    var flags := ReadBigEndian16(high, low);
    assert flags / 0x800 == high / 8 && flags / 0x200 == high / 2;
  }

  /** The words of a header as its octets tell them. */
  predicate WordsTell(identifier: Word16, b: Bytes)
    requires |b| >= 12
  {
    var flags := Ipv4.Read16(b, 2);
    && b[..2] == BigEndian16(Ipv4.Read16(b, 0)) && (Ipv4.Read16(b, 0) == identifier <==> Answers(identifier, b))
    && (flags < 0x8000 <==> !IsResponse(b)) && flags / 0x800 % 0x10 == Opcode(b)
    && (flags / 0x200 % 2 == 1 <==> IsCut(b)) && flags % 0x10 == Code(b)
    && (Ipv4.Read16(b, 4) == 0 <==> b[4..6] == [0, 0]) && (Ipv4.Read16(b, 6) == 0 <==> b[6..8] == [0, 0])
  }

  lemma HeaderTells(identifier: Word16, b: Bytes)
    requires |b| >= 12
    ensures WordsTell(identifier, b)
  {
    WordIs(b, identifier);
    WordIs(b, Ipv4.Read16(b, 0));
    FlagBits(b[2], b[3]);
    WordIsZero(b, 4);
    WordIsZero(b, 6);
  }

  lemma CheckHeaderIs(identifier: Word16, b: Bytes)
    requires |b| >= 12 ==> WordsTell(identifier, b)
    ensures match CheckHeader(identifier, b)
            case None => GoodHeader(identifier, b)
            case Some(e) => HeaderFails(identifier, b, e)
  {
  }

  lemma GoodPasses(identifier: Word16, b: Bytes)
    requires GoodHeader(identifier, b) && WordsTell(identifier, b)
    ensures CheckHeader(identifier, b) == None
  {
  }

  lemma HeaderFailsOnce(identifier: Word16, b: Bytes, e: ParseError, f: ParseError)
    requires HeaderFails(identifier, b, e)
    ensures !GoodHeader(identifier, b) && (HeaderFails(identifier, b, f) ==> e == f)
  {
    if e.IdentifierMismatch? {
      WordIs(b, e.received);
      WordIs(b, identifier);
      if f.IdentifierMismatch? && HeaderFails(identifier, b, f) { WordIs(b, f.received); }
    }
  }

  // ----- Behind the header -----

  /** What can go wrong while names, questions and records are walked. */
  predicate IsWalkError(e: ParseError) { e == Truncated || e == MalformedName }

  lemma {:induction false} NameErrors(b: Bytes, offset: nat)
    ensures SkipName(b, offset).Err? ==> IsWalkError(SkipName(b, offset).error)
    decreases |b| - offset
  {
    if offset < |b| && 0 < b[offset] <= MAX_LABEL && offset + 1 + b[offset] <= |b| {
      NameErrors(b, offset + 1 + b[offset]);
    }
  }

  lemma {:induction false} QuestionErrors(b: Bytes, offset: nat, count: nat)
    ensures SkipQuestions(b, offset, count).Err? ==> IsWalkError(SkipQuestions(b, offset, count).error)
    decreases count
  {
    if count > 0 {
      NameErrors(b, offset);
      if SkipName(b, offset).Ok? { QuestionErrors(b, SkipName(b, offset).value + 4, count - 1); }
    }
  }

  lemma {:induction false} RecordErrors(b: Bytes, offset: nat, count: nat)
    ensures var e := ReadRecords(b, offset, count).1; e.Some? ==> IsWalkError(e.value)
    decreases count
  {
    if count > 0 {
      NameErrors(b, offset);
      if ReadRecord(b, offset).Ok? { RecordErrors(b, ReadRecord(b, offset).value.1, count - 1); }
    }
  }

  lemma InterpretErrors(identifier: Word16, b: Bytes)
    requires GoodHeader(identifier, b)
    ensures var r := Interpret(identifier, b); r.Err? ==> IsWalkError(r.error) || r.error == NoIpv4Answer
  {
    HeaderTells(identifier, b);
    GoodPasses(identifier, b);
    QuestionErrors(b, HEADER, Ipv4.Read16(b, 4));
    var start := SkipQuestions(b, HEADER, Ipv4.Read16(b, 4));
    if start.Ok? { RecordErrors(b, start.value, Ipv4.Read16(b, 6)); }
  }

  /** A message is refused for its header exactly if its header is not that of a good answer to the query, with
      the first error the code looks for; an error that the walk behind the header can cause as well aside, no
      error of the header occurs for another reason. */
  lemma HeaderDecides(identifier: Word16, b: Bytes, e: ParseError)
    ensures Interpret(identifier, b).Ok? ==> GoodHeader(identifier, b)
    ensures HeaderFails(identifier, b, e) ==> Interpret(identifier, b) == Err(e)
    ensures Interpret(identifier, b) == Err(e) && !IsWalkError(e) && e != NoIpv4Answer ==> HeaderFails(identifier, b, e)
    ensures Interpret(identifier, b) == Err(e) && (e == MalformedName || e == NoIpv4Answer) ==>
              GoodHeader(identifier, b)
    ensures Interpret(identifier, b) == Err(Truncated) ==> |b| < 12 || GoodHeader(identifier, b)
  {
    var error := CheckHeader(identifier, b);
    if |b| >= 12 { HeaderTells(identifier, b); }
    CheckHeaderIs(identifier, b);
    if HeaderFails(identifier, b, e) { HeaderFailsOnce(identifier, b, e, if error.Some? then error.value else e); }
    if GoodHeader(identifier, b) { InterpretErrors(identifier, b); }
  }

  /** What a good answer gives: no error code, the number of answers, and the address. */
  lemma AnswerGives(identifier: Word16, b: Bytes)
    requires Interpret(identifier, b).Ok?
    ensures var r := Interpret(identifier, b).value;
            && GoodHeader(identifier, b) && r.responseCode == 0 && BigEndian16(r.answerCount) == b[6..8]
            && |r.address| == 4
  {
    HeaderDecides(identifier, b, Truncated);
    assert b[6..8] == [b[6], b[7]];
    assert Ipv4.Read16(b, 6) / 0x100 == b[6] && Ipv4.Read16(b, 6) % 0x100 == b[7];
  }

  // ----- A written response -----

  datatype Question = Question(name: Bytes, kind: Bytes)

  type Asked = q: Question | |q.kind| == 4 witness Question([], [0, 0, 0, 0])

  function QuestionOctets(questions: seq<Asked>): Bytes {
    if questions == [] then [] else questions[0].name + questions[0].kind + QuestionOctets(questions[1..])
  }

  /** The parts of a header a server is free in, with no error, cut or opcode in them. */
  datatype Flags = Flags(high: Octet, low: Octet, counts: Bytes)

  predicate AllGood(f: Flags) {
    f.high >= 128 && f.high / 8 % 16 == 0 && f.high / 2 % 2 == 0 && f.low % 16 == 0 && |f.counts| == 4
  }

  function HeaderOctets(identifier: Word16, f: Flags, questions: Word16, answers: Word16): Bytes {
    BigEndian16(identifier) + [f.high, f.low] + BigEndian16(questions) + BigEndian16(answers) + f.counts
  }

  function ResponseOctets(identifier: Word16, f: Flags, questions: seq<Asked>, answers: seq<Written>, behind: Bytes)
    : Bytes
    requires |questions| <= 0xffff && |answers| <= 0xffff
  {
    HeaderOctets(identifier, f, |questions|, |answers|) + QuestionOctets(questions) + (AnswerOctets(answers) + behind)
  }

  predicate Readable(questions: seq<Asked>, answers: seq<Written>, message: nat) {
    && 0 < |questions| <= 0xffff && 0 < |answers| <= 0xffff
    && (forall q | q in questions :: IsWireName(q.name, message))
    && (forall w | w in answers :: IsWireName(w.name, message))
  }

  lemma HeaderParts(identifier: Word16, f: Flags, questions: Word16, answers: Word16, rest: Bytes)
    requires AllGood(f)
    ensures var b := HeaderOctets(identifier, f, questions, answers) + rest;
            && |b| == 12 + |rest| && b[12..] == rest && b[..2] == BigEndian16(identifier)
            && b[2] == f.high && b[3] == f.low
            && Ipv4.Read16(b, 4) == questions && Ipv4.Read16(b, 6) == answers
            && b[4..6] == BigEndian16(questions) && b[6..8] == BigEndian16(answers)
  {
    Ipv4.ReadWritten(questions);
    Ipv4.ReadWritten(answers);
  }

  lemma NotZero(w: Word16)
    ensures BigEndian16(w) == [0, 0] <==> w == 0
  {
  }

  lemma HeaderIsGood(identifier: Word16, f: Flags, questions: Word16, answers: Word16, rest: Bytes)
    requires AllGood(f) && questions > 0 && answers > 0
    ensures GoodHeader(identifier, HeaderOctets(identifier, f, questions, answers) + rest)
  {
    HeaderParts(identifier, f, questions, answers, rest);
    NotZero(questions);
    NotZero(answers);
  }

  lemma QuestionStands(b: Bytes, before: Bytes, name: Bytes, kind: Bytes, rest: Bytes)
    requires b == before + (name + kind + rest)
    ensures b[|before|..|before| + |name|] == name && |before| + |name| + |kind| <= |b|
    ensures b == before + (name + kind) + rest
  {
  }

  lemma OneQuestion(b: Bytes, before: Bytes, q: Asked, rest: Bytes, more: nat)
    requires IsWireName(q.name, |b|) && b == before + (q.name + q.kind + rest)
    ensures SkipQuestions(b, |before|, more + 1) == SkipQuestions(b, |before + (q.name + q.kind)|, more)
    ensures b == before + (q.name + q.kind) + rest
  {
    QuestionStands(b, before, q.name, q.kind, rest);
    NameIsSkipped(b, |before|, |before| + |q.name|, q.name);
  }

  lemma {:induction false} QuestionsAreSkipped(b: Bytes, before: Bytes, questions: seq<Asked>, behind: Bytes)
    requires forall q | q in questions :: IsWireName(q.name, |b|)
    requires b == before + (QuestionOctets(questions) + behind)
    ensures SkipQuestions(b, |before|, |questions|) == Ok(|before| + |QuestionOctets(questions)|)
    decreases |questions|
  {
    if questions != [] {
      var (q, rest) := (questions[0], QuestionOctets(questions[1..]));
      Regroup(q.name + q.kind, rest, behind);
      OneQuestion(b, before, q, rest + behind, |questions| - 1);
      QuestionsAreSkipped(b, before + (q.name + q.kind), questions[1..], behind);
    }
  }

  /** An address record of the Internet: type 1, family 1, four octets. */
  predicate HoldsAddress(r: Record) { r.kind == 1 && r.family == 1 && |r.data| == 4 }

  /** The first address among the answers, if there is one. */
  function AddressOf(answers: seq<Written>): Option<Bytes> {
    if answers == [] then None
    else if HoldsAddress(answers[0].record) then Some(answers[0].record.data)
    else AddressOf(answers[1..])
  }

  lemma {:induction false} FirstWritten(answers: seq<Written>)
    ensures FirstAddress(RecordsOf(answers)) == AddressOf(answers)
    decreases |answers|
  {
    if answers != [] {
      FirstWritten(answers[1..]);
      assert RecordsOf(answers)[1..] == RecordsOf(answers[1..]);
    }
  }

  lemma ReadsWritten(identifier: Word16, b: Bytes, front: Bytes, answers: seq<Written>, behind: Bytes)
    requires GoodHeader(identifier, b) && Ipv4.Read16(b, 6) == |answers|
    requires SkipQuestions(b, HEADER, Ipv4.Read16(b, 4)) == Ok(|front|)
    requires b == front + (AnswerOctets(answers) + behind) && forall w | w in answers :: IsWireName(w.name, |b|)
    ensures Interpret(identifier, b) == match AddressOf(answers)
                                        case Some(address) => Ok(AResponse(0, |answers|, address))
                                        case None => Err(NoIpv4Answer)
  {
    HeaderTells(identifier, b);
    GoodPasses(identifier, b);
    AnswersAreRead(b, front, answers, behind);
    FirstWritten(answers);
  }

  /** A response written with any questions and answers, under any free flags and with anything behind it, gives
      the first address among the records written if it bears the identifier of the query, and the mismatch of
      the two if it bears another. */
  lemma ResponseIsRead(asked: Word16, identifier: Word16, f: Flags, questions: seq<Asked>, answers: seq<Written>,
                       behind: Bytes)
    requires AllGood(f) && |questions| <= 0xffff && |answers| <= 0xffff
    requires Readable(questions, answers, |ResponseOctets(identifier, f, questions, answers, behind)|)
    ensures Interpret(asked, ResponseOctets(identifier, f, questions, answers, behind))
            == if asked != identifier then Err(IdentifierMismatch(asked, identifier))
               else match AddressOf(answers)
                    case Some(address) => Ok(AResponse(0, |answers|, address))
                    case None => Err(NoIpv4Answer)
  {
    var header := HeaderOctets(identifier, f, |questions|, |answers|);
    var (asking, rest) := (QuestionOctets(questions), AnswerOctets(answers) + behind);
    var b := ResponseOctets(identifier, f, questions, answers, behind);
    assert b == header + (asking + rest);
    HeaderParts(identifier, f, |questions|, |answers|, asking + rest);
    if asked == identifier {
      HeaderIsGood(identifier, f, |questions|, |answers|, asking + rest);
      QuestionsAreSkipped(b, header, questions, rest);
      ReadsWritten(identifier, b, header + asking, answers, behind);
    } else {
      HeaderDecides(asked, b, IdentifierMismatch(asked, identifier));
    }
  }
}
