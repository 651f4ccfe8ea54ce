/** LCP packets and configuration options as octets (sections 5 and 6 of RFC 1661). */
module LcpCodec {
  import opened Octets

  const HEADER_LENGTH := 4

  const CONFIGURE_REQUEST: Octet := 1
  const CONFIGURE_ACK: Octet := 2
  const CONFIGURE_NAK: Octet := 3
  const CONFIGURE_REJECT: Octet := 4
  const TERMINATE_REQUEST: Octet := 5
  const TERMINATE_ACK: Octet := 6
  const CODE_REJECT: Octet := 7
  const PROTOCOL_REJECT: Octet := 8
  const ECHO_REQUEST: Octet := 9
  const ECHO_REPLY: Octet := 10
  const DISCARD_REQUEST: Octet := 11

  predicate KnownCode(code: Octet) { CONFIGURE_REQUEST <= code <= DISCARD_REQUEST }

  datatype ParseError =
    | HeaderTruncated(actualLength: nat)
    | InvalidLength(declaredLength: nat, availableLength: nat)

  datatype EncodeError =
    | DataTooLong(dataLength: nat)
    | OutputTooSmall(required: nat, available: nat)

  datatype Packet = Packet(code: Octet, identifier: Octet, data: Bytes)

  /** Octets behind the declared length are padding. */
  function ParsePacket(input: Bytes): Result<Packet, ParseError> {
    if |input| < HEADER_LENGTH then Err(HeaderTruncated(|input|))
    else
      var declared := ReadBigEndian16(input[2], input[3]);
      if declared < HEADER_LENGTH || declared > |input| then Err(InvalidLength(declared, |input|))
      else Ok(Packet(input[0], input[1], input[HEADER_LENGTH..declared]))
  }

  function EncodePacket(packet: Packet): Result<Bytes, EncodeError> {
    var required := HEADER_LENGTH + |packet.data|;
    if required > 0xffff then Err(DataTooLong(|packet.data|))
    else Ok([packet.code, packet.identifier] + BigEndian16(required) + packet.data)
  }

  /** Writes the packet to the front of a caller's buffer and leaves the rest of it alone. */
  method EncodeInto(packet: Packet, output: array<Octet>) returns (r: Result<nat, EncodeError>)
    modifies output
    ensures match EncodePacket(packet)
            case Err(e) => r == Err(e) && output[..] == old(output[..])
            case Ok(bytes) =>
              if output.Length < |bytes|
              then r == Err(OutputTooSmall(|bytes|, output.Length)) && output[..] == old(output[..])
              else r == Ok(|bytes|) && output[..] == bytes + old(output[..])[|bytes|..]
  {
    var required := HEADER_LENGTH + |packet.data|;
    if required > 0xffff {
      return Err(DataTooLong(|packet.data|));
    }
    if output.Length < required {
      return Err(OutputTooSmall(required, output.Length));
    }
    output[0] := packet.code;
    output[1] := packet.identifier;
    output[2] := required / 0x100;
    output[3] := required % 0x100;
    forall j | 0 <= j < |packet.data| {
      output[HEADER_LENGTH + j] := packet.data[j];
    }
    return Ok(required);
  }

  /** Every packet that can be encoded parses back to itself, whatever padding follows. */
  lemma PacketRoundTrip(packet: Packet, padding: Bytes)
    requires EncodePacket(packet).Ok?
    ensures ParsePacket(EncodePacket(packet).value + padding) == Ok(packet)
  {
    var bytes := EncodePacket(packet).value;
    assert bytes[4..] == packet.data;
    assert (bytes + padding)[4..|bytes|] == packet.data;
  }

  // ----- Configuration options -----

  datatype OptionParseError =
    | OptionTruncated(remainingLength: nat)
    | OptionLength(optionType: Octet, declaredLength: nat, remainingLength: nat)

  /** An option's data is what its one-octet length, itself and the type included, can count. */
  datatype RawOption = RawOption(kind: Octet, data: Bytes)
  type ConfigOption = o: RawOption | |o.data| <= 253 witness RawOption(0, [])

  function EncodeOption(o: ConfigOption): Bytes { [o.kind, |o.data| + 2] + o.data }

  function EncodeOptions(options: seq<ConfigOption>): Bytes {
    if options == [] then [] else EncodeOption(options[0]) + EncodeOptions(options[1..])
  }

  /** The option at the front, or why there is none. */
  function FirstOption(data: Bytes): Result<ConfigOption, OptionParseError>
    requires data != []
  {
    if |data| < 2 then Err(OptionTruncated(|data|))
    else if data[1] < 2 || data[1] > |data| then Err(OptionLength(data[0], data[1], |data|))
    else Ok(RawOption(data[0], data[2..data[1]]))
  }

  function ParseOptions(data: Bytes): Result<seq<ConfigOption>, OptionParseError> {
    if data == [] then Ok([])
    else
      match FirstOption(data)
      case Err(e) => Err(e)
      case Ok(o) => Behind([o], ParseOptions(data[data[1]..]))
  }

  predicate WellFormed(data: Bytes) { ParseOptions(data).Ok? }

  /** The iterator over the options of a packet; a malformed option ends it. */
  class OptionIterator {
    var remaining: Bytes
    var failed: bool

    constructor (data: Bytes)
      ensures remaining == data && !failed
    {
      remaining, failed := data, false;
    }

    method Next() returns (item: Option<Result<ConfigOption, OptionParseError>>)
      modifies this
      ensures old(failed) || old(remaining) == [] ==> item == None && unchanged(this)
      ensures !old(failed) && old(remaining) != [] ==>
                && item == Some(FirstOption(old(remaining)))
                && failed == item.value.Err?
                && remaining == if failed then old(remaining) else old(remaining)[old(remaining)[1]..]
    {
      if failed || remaining == [] {
        return None;
      }
      var first := FirstOption(remaining);
      if first.Err? {
        failed := true;
      } else {
        remaining := remaining[remaining[1]..];
      }
      return Some(first);
    }
  }

  /** Drains the iterator, stopping at the first malformed option. */
  method CollectOptions(data: Bytes) returns (r: Result<seq<ConfigOption>, OptionParseError>)
    ensures r == ParseOptions(data)
  {
    var iterator_ := new OptionIterator(data);
    var options: seq<ConfigOption> := [];
    var item := iterator_.Next();
    ghost var rest := data;
    BehindNothing(ParseOptions(data));
    while item.Some?
      invariant fresh(iterator_)
      invariant item.None? ==> rest == [] && !iterator_.failed
      invariant item.Some? ==> rest != [] && item.value == FirstOption(rest)
      invariant item.Some? && item.value.Ok? ==> !iterator_.failed && iterator_.remaining == rest[rest[1]..]
      invariant ParseOptions(data) == Behind(options, ParseOptions(rest))
      decreases |rest|
    {
      if item.value.Err? {
        return Err(item.value.error);
      }
      BehindOne(options, item.value.value, ParseOptions(rest[rest[1]..]));
      options := options + [item.value.value];
      rest := rest[rest[1]..];
      item := iterator_.Next();
    }
    assert options + [] == options;
    return Ok(options);
  }

  /** A parse that continues behind options already collected. */
  function Behind(options: seq<ConfigOption>, rest: Result<seq<ConfigOption>, OptionParseError>)
    : Result<seq<ConfigOption>, OptionParseError>
  {
    if rest.Ok? then Ok(options + rest.value) else rest
  }

  lemma BehindNothing(rest: Result<seq<ConfigOption>, OptionParseError>)
    ensures Behind([], rest) == rest
  {
    if rest.Ok? {
      assert [] + rest.value == rest.value;
    }
  }

  lemma BehindOne(options: seq<ConfigOption>, o: ConfigOption, rest: Result<seq<ConfigOption>, OptionParseError>)
    ensures Behind(options, Behind([o], rest)) == Behind(options + [o], rest)
  {
    if rest.Ok? {
      assert options + ([o] + rest.value) == options + [o] + rest.value;
    }
  }

  lemma {:induction false} EncodedOptionsParse(options: seq<ConfigOption>)
    ensures ParseOptions(EncodeOptions(options)) == Ok(options)
  {
    if options != [] {
      var first := EncodeOption(options[0]);
      var data := EncodeOptions(options);
      EncodedOptionsParse(options[1..]);
      assert data[2..data[1]] == options[0].data;
      assert data[data[1]..] == EncodeOptions(options[1..]);
      assert [options[0]] + options[1..] == options;
    }
  }

  lemma {:induction false} ParsedOptionsEncode(data: Bytes)
    requires WellFormed(data)
    ensures EncodeOptions(ParseOptions(data).value) == data
  {
    if data != [] {
      var options := ParseOptions(data).value;
      ParsedOptionsEncode(data[data[1]..]);
      assert options[1..] == ParseOptions(data[data[1]..]).value;
      assert EncodeOption(options[0]) == data[..data[1]];
    }
  }

  lemma {:induction false} EncodedOptionsLength(options: seq<ConfigOption>)
    ensures |EncodeOptions(options)| <= 255 * |options|
  {
    if options != [] {
      EncodedOptionsLength(options[1..]);
    }
  }

  lemma {:induction false} EncodeOptionsAppend(a: seq<ConfigOption>, b: seq<ConfigOption>)
    ensures EncodeOptions(a + b) == EncodeOptions(a) + EncodeOptions(b)
  {
    if a == [] {
      assert a + b == b;
    } else {
      EncodeOptionsAppend(a[1..], b);
      assert (a + b)[1..] == a[1..] + b;
    }
  }
}
