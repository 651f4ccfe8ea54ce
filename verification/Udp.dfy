/** UDP datagrams over IPv4 (RFC 768): the pseudo-header sum, and the two meanings of zero. */
module Udp {
  import opened Octets
  import opened InternetChecksum
  import opened Ipv4

  const UDP_HEADER := 8

  datatype UdpParseError =
    | ShortHeader(available: nat)
    | InvalidLength(length: nat)
    | TruncatedDatagram(length: nat, available: nat)
    | InvalidChecksum

  datatype UdpEncodeError =
    | NoRoom(required: nat, available: nat)
    | DatagramTooLong(length: nat)

  datatype Datagram = Datagram(sourcePort: Word16, destinationPort: Word16, payload: Bytes, checksumPresent: bool)

  /** The pseudo-header and the datagram, summed. */
  function PseudoSum(source: Address, destination: Address, datagram: Bytes): nat {
    WordSum(source) + WordSum(destination) + PROTOCOL_UDP + |datagram| + WordSum(datagram)
  }

  function ParseDatagram(source: Address, destination: Address, b: Bytes): Result<Datagram, UdpParseError> {
    if |b| < UDP_HEADER then Err(ShortHeader(|b|))
    else
      var length := Read16(b, 4);
      if length < UDP_HEADER then Err(InvalidLength(length))
      else if |b| < length then Err(TruncatedDatagram(length, |b|))
      else
        var present := Read16(b, 6) != 0;
        if present && FoldSum(PseudoSum(source, destination, b[..length])) != 0xffff then Err(InvalidChecksum)
        else Ok(Datagram(Read16(b, 0), Read16(b, 2), b[UDP_HEADER..length], present))
  }

  function Ports(sourcePort: Word16, destinationPort: Word16, length: Word16): Bytes {
    BigEndian16(sourcePort) + BigEndian16(destinationPort) + BigEndian16(length)
  }

  /** A sum that complements to zero is sent as all ones, since zero stands for no checksum. */
  function SentChecksum(sum: Word16): (checksum: Word16)
    ensures checksum != 0
  {
    if sum == 0xffff then 0xffff else Complement(sum)
  }

  function ChecksumFor(source: Address, destination: Address, sourcePort: Word16, destinationPort: Word16,
                       payload: Bytes): Word16
    requires UDP_HEADER + |payload| <= 0xffff
  {
    var empty := Ports(sourcePort, destinationPort, UDP_HEADER + |payload|) + [0, 0] + payload;
    SentChecksum(FoldSum(PseudoSum(source, destination, empty)))
  }

  function EncodedDatagram(source: Address, destination: Address, sourcePort: Word16, destinationPort: Word16,
                           payload: Bytes): Bytes
    requires UDP_HEADER + |payload| <= 0xffff
  {
    Ports(sourcePort, destinationPort, UDP_HEADER + |payload|)
    + BigEndian16(ChecksumFor(source, destination, sourcePort, destinationPort, payload))
    + payload
  }

  function EncodeDatagramIn(source: Address, destination: Address, sourcePort: Word16, destinationPort: Word16,
                            payload: Bytes, available: nat): Result<Bytes, UdpEncodeError>
  {
    var length := UDP_HEADER + |payload|;
    if length > 0xffff then Err(DatagramTooLong(length))
    else if available < length then Err(NoRoom(length, available))
    else Ok(EncodedDatagram(source, destination, sourcePort, destinationPort, payload))
  }

  // ----- The loops -----

  method ComputePseudoSum(source: Address, destination: Address, datagram: Bytes) returns (r: Word16)
    requires |datagram| <= 0xffff
    ensures r == FoldSum(PseudoSum(source, destination, datagram))
  {
    WordSumIsBounded(source);
    WordSumIsBounded(destination);
    var sum := AddBytes(0, source);
    sum := AddBytes(sum, destination);
    sum := sum + PROTOCOL_UDP + |datagram|;
    sum := AddBytes(sum, datagram);
    r := FoldCarries(sum);
  }

  method WriteDatagram(sourcePort: Word16, destinationPort: Word16, payload: Bytes, output: array<Octet>)
    requires UDP_HEADER + |payload| <= 0xffff && UDP_HEADER + |payload| <= output.Length
    modifies output
    ensures output[..UDP_HEADER + |payload|]
            == Ports(sourcePort, destinationPort, UDP_HEADER + |payload|) + [0, 0] + payload
    ensures output[UDP_HEADER + |payload|..] == old(output[UDP_HEADER + |payload|..])
  {
    var length := UDP_HEADER + |payload|;
    for n := 0 to UDP_HEADER
      invariant forall k | UDP_HEADER <= k < output.Length :: output[k] == old(output[k])
      invariant forall k | 0 <= k < n :: output[k] == 0
    {
      output[n] := 0;
    }
    Write16(output, 0, sourcePort);
    Write16(output, 2, destinationPort);
    Write16(output, 4, length);
    WriteOctets(output, UDP_HEADER, payload);
    DatagramFromFields(output[..length], sourcePort, destinationPort, 0, payload);
  }

  lemma DatagramFromFields(b: Bytes, sourcePort: Word16, destinationPort: Word16, checksum: Word16, payload: Bytes)
    requires |b| == UDP_HEADER + |payload| <= 0xffff && b[UDP_HEADER..] == payload
    requires [b[0], b[1]] == BigEndian16(sourcePort) && [b[2], b[3]] == BigEndian16(destinationPort)
    requires [b[4], b[5]] == BigEndian16(|b|) && [b[6], b[7]] == BigEndian16(checksum)
    ensures b == Ports(sourcePort, destinationPort, |b|) + BigEndian16(checksum) + payload
  {
    assert b == [b[0], b[1]] + [b[2], b[3]] + [b[4], b[5]] + [b[6], b[7]] + b[UDP_HEADER..];
  }

  method EncodeDatagram(source: Address, destination: Address, sourcePort: Word16, destinationPort: Word16,
                        payload: Bytes, output: array<Octet>) returns (r: Result<nat, UdpEncodeError>)
    modifies output
    ensures match EncodeDatagramIn(source, destination, sourcePort, destinationPort, payload, output.Length)
            case Err(e) => r == Err(e) && output[..] == old(output[..])
            case Ok(octets) => r == Ok(|octets|) && output[..] == octets + old(output[UDP_HEADER + |payload|..])
  {
    var length := UDP_HEADER + |payload|;
    if length > 0xffff {
      return Err(DatagramTooLong(length));
    }
    if output.Length < length {
      return Err(NoRoom(length, output.Length));
    }
    WriteDatagram(sourcePort, destinationPort, payload, output);
    var sum := ComputePseudoSum(source, destination, output[..length]);
    var checksum := Complement(sum);
    if checksum == 0 {
      checksum := 0xffff;
    }
    InsertChecksum(output, Ports(sourcePort, destinationPort, length), checksum, payload);
    r := Ok(length);
  }

  method InsertChecksum(output: array<Octet>, ghost ports: Bytes, checksum: Word16, ghost payload: Bytes)
    requires |ports| == 6 && UDP_HEADER + |payload| <= output.Length
    requires output[..UDP_HEADER + |payload|] == ports + [0, 0] + payload
    modifies output
    ensures output[..] == ports + BigEndian16(checksum) + payload + old(output[UDP_HEADER + |payload|..])
  {
    ghost var length := UDP_HEADER + |payload|;
    assert output[..length][..6] == ports && output[..length][UDP_HEADER..] == payload;
    Write16(output, 6, checksum);
    assert output[..6] == ports && output[UDP_HEADER..length] == payload && output[length..] == old(output[length..]);
    assert output[..] == output[..6] + [output[6], output[7]] + output[UDP_HEADER..length] + output[length..];
  }

  // ----- Round trip -----

  /** Whatever the sum, the checksum sent verifies, and it is there to be verified. */
  lemma SentChecksumVerifies(rest: nat)
    ensures FoldSum(rest + SentChecksum(FoldSum(rest))) == 0xffff
  {
    if FoldSum(rest) == 0xffff { AllOnesStandForZero(rest); } else { ComplementCancels(rest); }
  }

  lemma PseudoSumOfParts(source: Address, destination: Address, ports: Bytes, checksum: Word16, payload: Bytes)
    requires |ports| == 6
    ensures PseudoSum(source, destination, ports + BigEndian16(checksum) + payload)
            == PseudoSum(source, destination, ports + [0, 0] + payload) + checksum
  {
    WordSumAround(ports, checksum / 0x100, checksum % 0x100, payload);
    WordSumAround(ports, 0, 0, payload);
  }

  lemma EncodedDatagramVerifies(source: Address, destination: Address, sourcePort: Word16, destinationPort: Word16,
                                payload: Bytes)
    requires UDP_HEADER + |payload| <= 0xffff
    ensures FoldSum(PseudoSum(source, destination,
            EncodedDatagram(source, destination, sourcePort, destinationPort, payload)))
            == 0xffff
  {
    var ports := Ports(sourcePort, destinationPort, UDP_HEADER + |payload|);
    var checksum := ChecksumFor(source, destination, sourcePort, destinationPort, payload);
    PseudoSumOfParts(source, destination, ports, checksum, payload);
    SentChecksumVerifies(PseudoSum(source, destination, ports + [0, 0] + payload));
  }

  lemma DatagramFields(source: Address, destination: Address, sourcePort: Word16, destinationPort: Word16,
                       payload: Bytes)
    requires UDP_HEADER + |payload| <= 0xffff
    ensures var b := EncodedDatagram(source, destination, sourcePort, destinationPort, payload);
            && |b| == UDP_HEADER + |payload| && b[UDP_HEADER..] == payload
            && [b[0], b[1]] == BigEndian16(sourcePort) && [b[2], b[3]] == BigEndian16(destinationPort)
            && [b[4], b[5]] == BigEndian16(|b|)
            && [b[6], b[7]] == BigEndian16(ChecksumFor(source, destination, sourcePort, destinationPort, payload))
  {
  }

  /** Every datagram that can be encoded is read back, whatever comes behind it, checksum checked. */
  lemma ParseEncodedDatagram(source: Address, destination: Address, sourcePort: Word16, destinationPort: Word16,
                             payload: Bytes, behind: Bytes)
    requires UDP_HEADER + |payload| <= 0xffff
    ensures ParseDatagram(source, destination,
                          EncodedDatagram(source, destination, sourcePort, destinationPort, payload) + behind)
            == Ok(Datagram(sourcePort, destinationPort, payload, true))
  {
    var b := EncodedDatagram(source, destination, sourcePort, destinationPort, payload);
    DatagramFields(source, destination, sourcePort, destinationPort, payload);
    EncodedDatagramVerifies(source, destination, sourcePort, destinationPort, payload);
    ReadWritten(sourcePort);
    ReadWritten(destinationPort);
    ReadWritten(|b|);
    ReadWritten(ChecksumFor(source, destination, sourcePort, destinationPort, payload));
    assert (b + behind)[..|b|] == b && (b + behind)[UDP_HEADER..|b|] == payload;
    assert forall k | 0 <= k < UDP_HEADER :: (b + behind)[k] == b[k];
  }
}
