/** What LCP packets are on the wire, what the replies outside the negotiation contain, when the restart timer expires
    and how the machine leaves Closing. */
module LcpReplies {
  import opened Octets
  import opened LcpCodec
  import opened LcpPolicy
  import opened Rfc1661
  import opened LcpSpec
  import opened LcpRuns

  // ----- Packets and options as octets -----

  /** Code, identifier and the length of all of it in front of the data. */
  predicate Shows(b: Bytes, p: Packet) {
    && |b| == 4 + |p.data| && b[0] == p.code && b[1] == p.identifier
    && b[2..4] == BigEndian16(|b| % 0x1_0000) && b[4..] == p.data
  }

  lemma EncodedShows(p: Packet)
    ensures match EncodePacket(p)
            case Ok(b) => |b| <= 65535 && Shows(b, p)
            case Err(e) => 4 + |p.data| > 65535 && e == DataTooLong(|p.data|)
  {
  }

  lemma LengthShown(b: Bytes)
    requires |b| >= 4
    ensures b[2..4] == BigEndian16(ReadBigEndian16(b[2], b[3]))
  {
  }

  lemma ParsedShows(input: Bytes)
    requires ParsePacket(input).Ok?
    ensures var p := ParsePacket(input).value;
            4 + |p.data| <= |input| && 4 + |p.data| <= 65535 && Shows(input[..4 + |p.data|], p)
  {
    LengthShown(input);
    FrontShown(input, ReadBigEndian16(input[2], input[3]));
  }

  lemma FrontShown(input: Bytes, n: nat)
    requires 4 <= n <= |input|
    ensures var front := input[..n];
            |front| == n && front[0] == input[0] && front[1] == input[1] && front[2..4] == input[2..4]
            && front[4..] == input[4..n]
  {
  }

  lemma ShowsEncoding(b: Bytes, p: Packet)
    requires Shows(b, p) && |b| <= 65535
    ensures EncodePacket(p) == Ok(b)
  {
    assert b == [b[0], b[1]] + b[2..4] + b[4..];
  }

  /** A packet is read from octets exactly if they are its encoding with any padding behind it. */
  lemma PacketIsRead(input: Bytes, p: Packet)
    ensures ParsePacket(input) == Ok(p) <==> EncodePacket(p).Ok? && EncodePacket(p).value <= input
  {
    if ParsePacket(input) == Ok(p) {
      ParsedShows(input);
      ShowsEncoding(input[..4 + |p.data|], p);
    }
    if EncodePacket(p).Ok? && EncodePacket(p).value <= input {
      var b := EncodePacket(p).value;
      assert input == b + input[|b|..];
      PacketRoundTrip(p, input[|b|..]);
    }
  }

  /** The errors and when they occur. */
  lemma PacketErrors(input: Bytes)
    requires ParsePacket(input).Err?
    ensures match ParsePacket(input).error
            case HeaderTruncated(n) => n == |input| && n < 4
            case InvalidLength(declared, available) =>
              && available == |input| && 4 <= available && input[2..4] == BigEndian16(declared % 0x1_0000)
              && declared < 0x1_0000 && !(4 <= declared <= available)
  {
    if |input| >= 4 { LengthShown(input); }
  }

  /** One option: type, length of the whole, data. */
  lemma OptionShown(o: ConfigOption)
    ensures var b := EncodeOption(o); |b| >= 2 && b[0] == o.kind && b[1] == |b| && b[2..] == o.data
  {
  }

  /** Nothing that begins with an option. */
  predicate Broken(rest: Bytes, e: OptionParseError) {
    match e
    case OptionTruncated(n) => n == |rest| == 1
    case OptionLength(kind, length, available) =>
      |rest| >= 2 && rest[0] == kind && rest[1] == length && |rest| == available && !(2 <= length <= available)
  }

  lemma ParsedBehind(o: ConfigOption, more: Bytes)
    ensures ParseOptions(EncodeOption(o) + more) == Behind([o], ParseOptions(more))
  {
    var data := EncodeOption(o) + more;
    assert data[2..data[1]] == o.data && data[data[1]..] == more;
  }

  lemma FirstSplits(data: Bytes)
    requires data != [] && FirstOption(data).Ok?
    ensures data[1] <= |data| && data == EncodeOption(FirstOption(data).value) + data[data[1]..]
  {
    assert data[..2] == [data[0], data[1]];
    assert data == data[..2] + data[2..data[1]] + data[data[1]..];
  }

  lemma EncodedBehind(o: ConfigOption, front: seq<ConfigOption>, rest: Bytes)
    ensures EncodeOptions([o] + front) + rest == EncodeOption(o) + (EncodeOptions(front) + rest)
  {
    assert ([o] + front)[1..] == front;
  }

  /** A string is malformed exactly where, behind some options, no option begins. */
  lemma {:induction false} MalformedBehind(front: seq<ConfigOption>, rest: Bytes, e: OptionParseError)
    requires Broken(rest, e)
    ensures ParseOptions(EncodeOptions(front) + rest) == Err(e)
  {
    if front == [] {
      assert EncodeOptions(front) + rest == rest;
    } else {
      var more := EncodeOptions(front[1..]);
      MalformedBehind(front[1..], rest, e);
      ParsedBehind(front[0], more + rest);
      assert EncodeOptions(front) + rest == EncodeOption(front[0]) + (more + rest);
    }
  }

  lemma {:induction false} MalformedWhere(data: Bytes) returns (front: seq<ConfigOption>, rest: Bytes)
    requires ParseOptions(data).Err?
    ensures data == EncodeOptions(front) + rest && Broken(rest, ParseOptions(data).error)
  {
    if FirstOption(data).Err? {
      front, rest := [], data;
      assert EncodeOptions([]) + data == data;
    } else {
      var o := FirstOption(data).value;
      FirstSplits(data);
      front, rest := MalformedWhere(data[data[1]..]);
      EncodedBehind(o, front, rest);
      front := [o] + front;
    }
  }

  predicate HasNumber(o: ConfigOption) { o.kind == 5 && |o.data| == 4 }

  /** The number of a list is that of its first option that has one. */
  lemma {:induction false} NumberOfList(front: seq<ConfigOption>, rest: seq<ConfigOption>)
    requires forall k | 0 <= k < |front| :: !HasNumber(front[k])
    requires rest == [] || HasNumber(rest[0])
    ensures FirstMagic(front + rest) == if rest == [] then None else Some(ReadBigEndian32(rest[0].data))
  {
    if front == [] {
      assert front + rest == rest;
    } else {
      NumberOfList(front[1..], rest);
      assert (front + rest)[1..] == front[1..] + rest;
    }
  }

  // ----- Echo-Reply, Code-Reject, Protocol-Reject -----

  /** The front of some octets, as long as the limit allows. */
  predicate LongestFront(part: Bytes, whole: Bytes, limit: nat) { part <= whole && |part| == Min(|whole|, limit) }

  function PeerMru(m: Lcp): Word16 { if m.peer.Some? then m.peer.value.transmitMru else 1500 }

  function PeerNumber(m: Lcp): Word32 {
    if m.peer.Some? && m.peer.value.magicNumber.Some? then m.peer.value.magicNumber.value else 0
  }

  function OwnNumber(m: Lcp): Word32 { if m.acknowledgedMagic.Some? then m.acknowledgedMagic.value else 0 }

  /** One packet is sent and nothing ignored. */
  predicate Replies(s: Step, code: Octet, identifier: Octet) {
    && s.outcome.Done? && s.outcome.ignored.None? && |s.outcome.actions| == 1 && s.outcome.actions[0].SendPacket?
    && s.outcome.actions[0].packet.code == code && s.outcome.actions[0].packet.identifier == identifier
  }

  predicate Ignores(s: Step, m: Lcp, reason: IgnoreReason) {
    s.machine == m && s.outcome == Done([], Some(reason))
  }

  function Content(s: Step): Bytes
    requires s.outcome.Done? && |s.outcome.actions| == 1 && s.outcome.actions[0].SendPacket?
  {
    s.outcome.actions[0].packet.data
  }

  lemma ClipIsLongest(data: Bytes, limit: nat)
    ensures LongestFront(Clip(data, limit), data, limit)
  {
  }

  lemma SendingOne(p: Packet)
    requires 4 + |p.data| <= 65535
    ensures Sending([], p, []) == Done([SendPacket(p)], None)
  {
    assert [] + [SendPacket(p)] + [] == [SendPacket(p)];
  }

  /** An Echo-Request under the number of the peer is answered under the own one with as much of its data as the peer
      receives; any other is ignored. */
  lemma EchoIsAnswered(m: Lcp, packet: Packet, now: Millis, policy: Policy)
    requires m.state == Opened && packet.code == 9
    ensures var (s, data) := (ReceivePacket(m, packet, now, policy), packet.data);
            if |data| < 4 then Ignores(s, m, MalformedEchoRequest)
            else if data[..4] != BigEndian32(PeerNumber(m)) then
              s.outcome.Done? && s.outcome.ignored.Some? && s.outcome.ignored.value.UnexpectedMagicNumber?
              && Ignores(s, m, UnexpectedMagicNumber(PeerNumber(m), s.outcome.ignored.value.actual))
              && data[..4] == BigEndian32(s.outcome.ignored.value.actual)
            else
              && s.machine == m && Replies(s, 10, packet.identifier) && |Content(s)| >= 4
              && Content(s)[..4] == BigEndian32(OwnNumber(m))
              && LongestFront(Content(s)[4..], data[4..], Max(PeerMru(m), 8) - 8)
  {
    var data := packet.data;
    if |data| >= 4 {
      NumberShown(data[..4]);
      BigEndian32RoundTrip(PeerNumber(m));
      var kept := Clip(data[4..], Max(PeerMru(m), 8) - 8);
      ClipIsLongest(data[4..], Max(PeerMru(m), 8) - 8);
      BigEndian32RoundTrip(OwnNumber(m));
      var reply := Packet(ECHO_REPLY, packet.identifier, BigEndian32(OwnNumber(m)) + kept);
      assert reply.data[..4] == BigEndian32(OwnNumber(m)) && reply.data[4..] == kept;
      SendingOne(reply);
    }
  }

  lemma NumberShown(b: Bytes)
    requires |b| == 4
    ensures BigEndian32(ReadBigEndian32(b)) == b
  {
    var (high, low) := (ReadBigEndian16(b[0], b[1]), ReadBigEndian16(b[2], b[3]));
    assert ReadBigEndian32(b) / 0x1_0000 == high && ReadBigEndian32(b) % 0x1_0000 == low;
    assert BigEndian16(high) == [b[0], b[1]] && BigEndian16(low) == [b[2], b[3]];
  }

  /** A packet of unknown code comes back, header included, as far as the peer receives it, under a new identifier. */
  lemma UnknownCodeIsRejected(m: Lcp, input: Bytes, now: Millis, policy: Policy)
    requires m.state != Closed && m.state != Stopped && ParsePacket(input).Ok?
    requires var code := ParsePacket(input).value.code; code == 0 || code > 11
    ensures var (s, identifier) := (Receive(m, input, now, policy), (m.nextIdentifier + 1) % 256);
            && s.machine == m.(nextIdentifier := identifier) && Replies(s, 7, identifier)
            && LongestFront(Content(s), input[..4 + |ParsePacket(input).value.data|], Max(PeerMru(m), 8) - 4)
  {
    var packet := ParsePacket(input).value;
    var limit := Max(PeerMru(m), 8) - 4;
    ParsedShows(input);
    var whole := input[..4 + |packet.data|];
    assert whole == [packet.code, packet.identifier] + BigEndian16((4 + |packet.data|) % 0x1_0000) + packet.data by {
      assert whole == [whole[0], whole[1]] + whole[2..4] + whole[4..];
    }
    ClipIsLongest(whole, limit);
    SendingOne(Packet(CODE_REJECT, FreshIdentifier(m), Clip(whole, limit)));
  }

  /** While Opened, a packet of an unknown protocol comes back behind the protocol, as far as the peer receives it. */
  lemma ProtocolIsRejected(m: Lcp, protocol: Word16, information: Bytes)
    ensures var (s, identifier) := (RejectProtocol(m, protocol, information), (m.nextIdentifier + 1) % 256);
            if m.state != Opened then Ignores(s, m, NotConfiguring)
            else
              && s.machine == m.(nextIdentifier := identifier) && Replies(s, 8, identifier) && |Content(s)| >= 2
              && Content(s)[..2] == BigEndian16(protocol)
              && LongestFront(Content(s)[2..], information, Max(PeerMru(m), 6) - 6)
  {
    if m.state == Opened {
      var kept := Clip(information, Max(PeerMru(m), 6) - 6);
      ClipIsLongest(information, Max(PeerMru(m), 6) - 6);
      var reject := Packet(PROTOCOL_REJECT, FreshIdentifier(m), BigEndian16(protocol) + kept);
      assert reject.data[..2] == BigEndian16(protocol) && reject.data[2..] == kept;
      SendingOne(reject);
    }
  }
}
