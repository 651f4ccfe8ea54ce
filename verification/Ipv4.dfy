/** IPv4 packets with a 20-octet header when written and any header when read (RFC 791). */
module Ipv4 {
  import opened Octets
  import opened InternetChecksum

  const MINIMUM_HEADER := 20
  const PROTOCOL_UDP: Octet := 17

  type Address = b: Bytes | |b| == 4 witness [0, 0, 0, 0]

  datatype Header = Header(
    dscpEcn: Octet, identification: Word16, flagsFragmentOffset: Word16, ttl: Octet, protocol: Octet,
    source: Address, destination: Address)

  datatype ParseError =
    | TruncatedMinimumHeader
    | UnsupportedVersion(version: Octet)
    | InvalidHeaderLength(words: Octet)
    | TruncatedHeader(headerLength: nat, available: nat)
    | TotalLengthSmallerThanHeader(totalLength: nat, headerLength: nat)
    | TruncatedPacket(totalLength: nat, available: nat)
    | InvalidHeaderChecksum

  datatype EncodeError =
    | OutputTooSmall(required: nat, available: nat)
    | PacketTooLong(length: nat)
    | ReservedFlagSet

  /** What a parsed packet gives access to. */
  datatype Packet = Packet(header: Header, options: Bytes, payload: Bytes)

  function Read16(b: Bytes, offset: nat): Word16
    requires offset + 1 < |b|
  {
    ReadBigEndian16(b[offset], b[offset + 1])
  }

  function Contents(b: Bytes, headerLength: nat): Packet
    requires MINIMUM_HEADER <= headerLength <= |b|
  {
    Packet(Header(b[1], Read16(b, 4), Read16(b, 6), b[8], b[9], b[12..16], b[16..20]), b[20..headerLength],
        b[headerLength..])
  }

  function Parse(b: Bytes): Result<Packet, ParseError> {
    if |b| < MINIMUM_HEADER then Err(TruncatedMinimumHeader)
    else if b[0] / 0x10 != 4 then Err(UnsupportedVersion(b[0] / 0x10))
    else if b[0] % 0x10 < 5 then Err(InvalidHeaderLength(b[0] % 0x10))
    else
      var headerLength := b[0] % 0x10 * 4;
      if |b| < headerLength then Err(TruncatedHeader(headerLength, |b|))
      else
        var total := Read16(b, 2);
        if total < headerLength then Err(TotalLengthSmallerThanHeader(total, headerLength))
        else if |b| < total then Err(TruncatedPacket(total, |b|))
        else if Checksum(b[..headerLength]) != 0 then Err(InvalidHeaderChecksum)
        else Ok(Contents(b[..total], headerLength))
  }

  /** The header in front of its checksum, and behind it. */
  function Front(h: Header, total: Word16): Bytes {
    [0x45, h.dscpEcn] + BigEndian16(total) + BigEndian16(h.identification) + BigEndian16(h.flagsFragmentOffset)
    + [h.ttl, h.protocol]
  }

  function HeaderOctets(h: Header, total: Word16, checksum: Word16): Bytes {
    Front(h, total) + BigEndian16(checksum) + (h.source + h.destination)
  }

  function EncodedHeader(h: Header, total: Word16): Bytes {
    HeaderOctets(h, total, Checksum(HeaderOctets(h, total, 0)))
  }

  function Encode(h: Header, payload: Bytes, available: nat): Result<Bytes, EncodeError> {
    var total := MINIMUM_HEADER + |payload|;
    if total > 0xffff then Err(PacketTooLong(total))
    else if available < total then Err(OutputTooSmall(total, available))
    else if h.flagsFragmentOffset >= 0x8000 then Err(ReservedFlagSet)
    else Ok(EncodedHeader(h, total) + payload)
  }

  /** A header field by field. */
  predicate HasFields(b: Bytes, h: Header, total: Word16, checksum: Word16) {
    && |b| >= MINIMUM_HEADER
    && b[0] == 0x45 && b[1] == h.dscpEcn
    && [b[2], b[3]] == BigEndian16(total)
    && [b[4], b[5]] == BigEndian16(h.identification)
    && [b[6], b[7]] == BigEndian16(h.flagsFragmentOffset)
    && b[8] == h.ttl && b[9] == h.protocol
    && [b[10], b[11]] == BigEndian16(checksum)
    && b[12..16] == h.source && b[16..20] == h.destination
  }

  lemma HeaderShape(h: Header, total: Word16, checksum: Word16)
    ensures |Front(h, total)| == 10 && |HeaderOctets(h, total, checksum)| == MINIMUM_HEADER
  {
  }

  lemma FrontFields(b: Bytes, h: Header, total: Word16)
    requires |b| == 10
    requires b[0] == 0x45 && b[1] == h.dscpEcn && [b[2], b[3]] == BigEndian16(total)
    requires [b[4], b[5]] == BigEndian16(h.identification) && [b[6], b[7]] == BigEndian16(h.flagsFragmentOffset)
    requires b[8] == h.ttl && b[9] == h.protocol
    ensures b == Front(h, total)
  {
    assert b == [b[0], b[1]] + [b[2], b[3]] + [b[4], b[5]] + [b[6], b[7]] + [b[8], b[9]];
  }

  /** The fields and their places determine the header. */
  lemma FieldsDetermine(b: Bytes, h: Header, total: Word16, checksum: Word16)
    requires HasFields(b, h, total, checksum)
    ensures b[..MINIMUM_HEADER] == HeaderOctets(h, total, checksum)
  {
    FrontFields(b[..10], h, total);
    assert b[..MINIMUM_HEADER] == b[..10] + [b[10], b[11]] + (b[12..16] + b[16..20]);
  }

  lemma FrontHasFields(h: Header, total: Word16)
    ensures var b := Front(h, total);
            && |b| == 10 && b[0] == 0x45 && b[1] == h.dscpEcn && [b[2], b[3]] == BigEndian16(total)
            && [b[4], b[5]] == BigEndian16(h.identification) && [b[6], b[7]] == BigEndian16(h.flagsFragmentOffset)
            && b[8] == h.ttl && b[9] == h.protocol
  {
  }

  lemma HeaderHasFields(h: Header, total: Word16, checksum: Word16, behind: Bytes)
    ensures HasFields(HeaderOctets(h, total, checksum) + behind, h, total, checksum)
  {
    FrontHasFields(h, total);
    var b := Front(h, total) + BigEndian16(checksum) + (h.source + h.destination) + behind;
    assert b[..10] == Front(h, total) && [b[10], b[11]] == BigEndian16(checksum);
    assert b[12..16] == h.source && b[16..20] == h.destination;
    assert forall k | 0 <= k < 10 :: b[k] == b[..10][k];
  }

  // ----- Writing in place -----

  method Write16(output: array<Octet>, offset: nat, value: Word16)
    requires offset + 1 < output.Length
    modifies output
    ensures [output[offset], output[offset + 1]] == BigEndian16(value)
    ensures forall k | 0 <= k < output.Length && k != offset && k != offset + 1 :: output[k] == old(output[k])
  {
    output[offset] := value / 0x100;
    output[offset + 1] := value % 0x100;
  }

  method WriteOctets(output: array<Octet>, offset: nat, octets: Bytes)
    requires offset + |octets| <= output.Length
    modifies output
    ensures output[offset..offset + |octets|] == octets
    ensures forall k | 0 <= k < output.Length && !(offset <= k < offset + |octets|) :: output[k] == old(output[k])
  {
    for n := 0 to |octets|
      invariant output[offset..offset + n] == octets[..n]
      invariant forall k | 0 <= k < output.Length && !(offset <= k < offset + n) :: output[k] == old(output[k])
    {
      output[offset + n] := octets[n];
    }
  }

  method WriteAddresses(h: Header, output: array<Octet>)
    requires MINIMUM_HEADER <= output.Length
    modifies output
    ensures output[12..16] == h.source && output[16..20] == h.destination
    ensures forall k | 0 <= k < output.Length && !(12 <= k < 20) :: output[k] == old(output[k])
  {
    WriteOctets(output, 12, h.source);
    WriteOctets(output, 16, h.destination);
    assert output[12..16] == h.source;
  }

  method WriteHeader(h: Header, total: Word16, output: array<Octet>)
    requires MINIMUM_HEADER <= output.Length
    modifies output
    ensures HasFields(output[..], h, total, 0) && output[MINIMUM_HEADER..] == old(output[MINIMUM_HEADER..])
  {
    for n := 0 to MINIMUM_HEADER
      invariant forall k | n <= k < output.Length :: output[k] == old(output[k])
      invariant forall k | 0 <= k < n :: output[k] == 0
    {
      output[n] := 0;
    }
    output[0] := 0x45;
    output[1] := h.dscpEcn;
    Write16(output, 2, total);
    Write16(output, 4, h.identification);
    Write16(output, 6, h.flagsFragmentOffset);
    output[8] := h.ttl;
    output[9] := h.protocol;
    WriteAddresses(h, output);
  }

  /** The checksum over the header as written so far goes into the place left empty for it. */
  method WriteChecksum(ghost h: Header, ghost total: Word16, output: array<Octet>)
    requires MINIMUM_HEADER <= output.Length && HasFields(output[..], h, total, 0)
    modifies output
    ensures output[..MINIMUM_HEADER] == EncodedHeader(h, total)
    ensures output[MINIMUM_HEADER..] == old(output[MINIMUM_HEADER..])
  {
    FieldsDetermine(output[..], h, total, 0);
    assert output[..][..MINIMUM_HEADER] == output[..MINIMUM_HEADER];
    var checksum := ComputeChecksum(output[..MINIMUM_HEADER]);
    Write16(output, 10, checksum);
    assert output[12..16] == old(output[12..16]) && output[16..20] == old(output[16..20]);
    FieldsDetermine(output[..], h, total, checksum);
    assert output[..][..MINIMUM_HEADER] == output[..MINIMUM_HEADER];
  }

  method EncodePacket(h: Header, payload: Bytes, output: array<Octet>) returns (r: Result<nat, EncodeError>)
    modifies output
    ensures match Encode(h, payload, output.Length)
            case Err(e) => r == Err(e) && output[..] == old(output[..])
            case Ok(octets) => r == Ok(|octets|) && output[..] == octets + old(output[MINIMUM_HEADER + |payload|..])
  {
    var total := MINIMUM_HEADER + |payload|;
    if total > 0xffff {
      return Err(PacketTooLong(total));
    }
    if output.Length < total {
      return Err(OutputTooSmall(total, output.Length));
    }
    if h.flagsFragmentOffset >= 0x8000 {
      return Err(ReservedFlagSet);
    }
    HeaderShape(h, total, Checksum(HeaderOctets(h, total, 0)));
    WriteHeader(h, total, output);
    WriteChecksum(h, total, output);
    WritePayload(output, EncodedHeader(h, total), payload, old(output[total..]));
    r := Ok(total);
  }

  method WritePayload(output: array<Octet>, ghost front: Bytes, payload: Bytes, ghost behind: Bytes)
    requires |front| == MINIMUM_HEADER && output.Length == MINIMUM_HEADER + |payload| + |behind|
    requires output[..MINIMUM_HEADER] == front && output[MINIMUM_HEADER + |payload|..] == behind
    modifies output
    ensures output[..] == front + payload + behind
  {
    WriteOctets(output, MINIMUM_HEADER, payload);
    assert output[..MINIMUM_HEADER] == front && output[MINIMUM_HEADER + |payload|..] == behind;
    assert output[..] == output[..MINIMUM_HEADER] + output[MINIMUM_HEADER..MINIMUM_HEADER + |payload|]
                         + output[MINIMUM_HEADER + |payload|..];
  }

  // ----- Round trip -----

  lemma InsertedHeaderChecksum(h: Header, total: Word16)
    ensures Checksum(EncodedHeader(h, total)) == 0
  {
    HeaderShape(h, total, 0);
    InsertedChecksumVerifies(Front(h, total), h.source + h.destination);
  }

  lemma ReadWritten(w: Word16)
    ensures ReadBigEndian16(BigEndian16(w)[0], BigEndian16(w)[1]) == w
  {
  }

  /** A header written with the total length of what follows it is read back, whatever comes behind. */
  lemma ParseEncoded(h: Header, payload: Bytes, behind: Bytes)
    requires MINIMUM_HEADER + |payload| <= 0xffff
    ensures Parse(EncodedHeader(h, MINIMUM_HEADER + |payload|) + payload + behind) == Ok(Packet(h, [], payload))
  {
    var total := MINIMUM_HEADER + |payload|;
    var header := EncodedHeader(h, total);
    var b := header + payload + behind;
    HeaderShape(h, total, Checksum(HeaderOctets(h, total, 0)));
    InsertedHeaderChecksum(h, total);
    assert b[..MINIMUM_HEADER] == header && b[..total] == header + payload;
    HeaderHasFields(h, total, Checksum(HeaderOctets(h, total, 0)), payload);
    HeaderHasFields(h, total, Checksum(HeaderOctets(h, total, 0)), payload + behind);
    assert header + (payload + behind) == b;
    ReadWritten(total);
    FieldsAreContents(header + payload, h, total, Checksum(HeaderOctets(h, total, 0)));
    assert (header + payload)[MINIMUM_HEADER..] == payload;
  }

  lemma FieldsAreContents(b: Bytes, h: Header, total: Word16, checksum: Word16)
    requires HasFields(b, h, total, checksum)
    ensures Contents(b, MINIMUM_HEADER) == Packet(h, [], b[MINIMUM_HEADER..])
  {
    ReadWritten(h.identification);
    ReadWritten(h.flagsFragmentOffset);
  }
}
