/** Which packets and datagrams are taken and why the others are refused, told from their octets, and which changed
    octets the checksums let through. */
module InternetVerdicts {
  import opened Octets
  import opened InternetChecksum
  import Ipv4
  import Udp

  /** Two octets as a number, the first of them the high one. */
  function Number(b: Bytes, k: nat): nat
    requires k + 1 < |b|
  {
    var (high: nat, low: nat) := (b[k], b[k + 1]);
    high * 256 + low
  }

  // ----- Sums -----

  /** Zero in one's complement, all ones in sums that are not empty. */
  predicate SumsToZero(sum: nat) { sum > 0 && sum % 65535 == 0 }

  lemma FoldsToAllOnes(sum: nat)
    ensures FoldSum(sum) == 65535 <==> SumsToZero(sum)
  {
    FoldIsRemainder(sum);
  }

  /** A changed octet changes the sum by its difference, as high or low octet of its word. */
  lemma {:induction false} SumOfChange(b: Bytes, k: nat, o: Octet)
    requires k < |b|
    ensures WordSum(b[k := o]) == WordSum(b) + (o - b[k]) * if k % 2 == 0 then 256 else 1
    decreases |b|
  {
    var c := b[k := o];
    if k >= 2 {
      SumOfChange(b[2..], k - 2, o);
      assert c[2..] == b[2..][k - 2 := o];
    } else if |b| >= 2 {
      assert c[2..] == b[2..];
    }
  }

  lemma SumOfChangedWord(b: Bytes, k: nat, high: Octet, low: Octet)
    requires k + 1 < |b| && k % 2 == 0
    ensures WordSum(b[k := high][k + 1 := low]) == WordSum(b) - Number(b, k) + high * 256 + low
  {
    SumOfChange(b, k, high);
    SumOfChange(b[k := high], k + 1, low);
  }

  /** The octet behind an odd number of them counts as zero. */
  lemma {:induction false} OddIsPadded(b: Bytes)
    requires |b| % 2 == 1
    ensures WordSum(b + [0]) == WordSum(b)
    decreases |b|
  {
    if |b| > 1 {
      OddIsPadded(b[2..]);
      assert (b + [0])[2..] == b[2..] + [0];
    } else {
      assert (b + [0])[2..] == [];
    }
  }

  /** One word exchanged for another keeps a sum at zero only if the two are the zeros of one's complement. */
  predicate ZerosExchanged(sent: nat, received: nat) {
    (sent == 0 && received == 65535) || (sent == 65535 && received == 0)
  }

  lemma ExchangeDecides(rest: nat, sent: Word16, received: Word16)
    requires rest > 0 && SumsToZero(rest + sent)
    ensures SumsToZero(rest + received) <==> sent == received || ZerosExchanged(sent, received)
  {
  }

  lemma SmallChangeSpoils(sum: nat, other: nat)
    requires SumsToZero(sum) && sum != other && -65535 < sum - other < 65535
    ensures !SumsToZero(other)
  {
  }

  // ----- IPv4 -----

  function HeaderLength(b: Bytes): nat
    requires |b| >= 20
  {
    b[0] % 16 * 4
  }

  predicate HasHeader(b: Bytes) { |b| >= 20 && 0x45 <= b[0] <= 0x4f && HeaderLength(b) <= |b| }

  predicate HasLengths(b: Bytes) { HasHeader(b) && HeaderLength(b) <= Number(b, 2) <= |b| }

  predicate IsPacket(b: Bytes) { HasLengths(b) && SumsToZero(WordSum(b[..HeaderLength(b)])) }

  /** The errors and when they occur, each behind those the code looks for first. */
  predicate PacketFails(b: Bytes, e: Ipv4.ParseError) {
    match e
    case TruncatedMinimumHeader => |b| < 20
    case UnsupportedVersion(version) => |b| >= 20 && version == b[0] / 16 && version != 4
    case InvalidHeaderLength(words) => |b| >= 20 && 0x40 <= b[0] <= 0x44 && words == b[0] - 0x40
    case TruncatedHeader(length, available) =>
      && |b| >= 20 && 0x45 <= b[0] <= 0x4f
      && length == HeaderLength(b) && available == |b| && available < length
    case TotalLengthSmallerThanHeader(total, length) =>
      HasHeader(b) && total == Number(b, 2) && length == HeaderLength(b) && total < length
    case TruncatedPacket(total, available) =>
      && HasHeader(b) && total == Number(b, 2) && available == |b|
      && HeaderLength(b) <= total && available < total
    case InvalidHeaderChecksum => HasLengths(b) && !SumsToZero(WordSum(b[..HeaderLength(b)]))
  }

  /** What is read from the octets of a packet. */
  predicate Shows(b: Bytes, p: Ipv4.Packet)
    requires IsPacket(b)
  {
    && p.header.dscpEcn == b[1] && p.header.identification == Number(b, 4)
    && p.header.flagsFragmentOffset == Number(b, 6) && p.header.ttl == b[8] && p.header.protocol == b[9]
    && p.header.source == b[12..16] && p.header.destination == b[16..20]
    && p.options == b[20..HeaderLength(b)] && p.payload == b[HeaderLength(b)..Number(b, 2)]
  }

  lemma HeaderIsChecked(b: Bytes)
    requires HasLengths(b)
    ensures Checksum(b[..HeaderLength(b)]) == 0 <==> SumsToZero(WordSum(b[..HeaderLength(b)]))
  {
    FoldsToAllOnes(WordSum(b[..HeaderLength(b)]));
  }

  lemma ContentsShown(b: Bytes, total: nat)
    requires IsPacket(b) && total == Number(b, 2)
    ensures Shows(b, Ipv4.Contents(b[..total], HeaderLength(b)))
  {
  }

  /** A packet is read exactly if its version, its lengths and its checksum are right, and every error occurs for its
      own reason. */
  lemma PacketIsRead(b: Bytes)
    ensures match Ipv4.Parse(b)
            case Ok(p) => IsPacket(b) && Shows(b, p)
            case Err(e) => PacketFails(b, e)
  {
    if HasLengths(b) {
      HeaderIsChecked(b);
      if IsPacket(b) { ContentsShown(b, Number(b, 2)); }
    }
  }

  lemma NoPacketFails(b: Bytes, e: Ipv4.ParseError)
    requires IsPacket(b)
    ensures !PacketFails(b, e)
  {
  }

  lemma PacketsAreRead(b: Bytes)
    ensures Ipv4.Parse(b).Ok? <==> IsPacket(b)
  {
    PacketIsRead(b);
    if Ipv4.Parse(b).Err? && IsPacket(b) { NoPacketFails(b, Ipv4.Parse(b).error); }
  }

  lemma FirstOctetCounts(b: Bytes)
    requires |b| >= 2
    ensures WordSum(b) >= Number(b, 0)
  {
  }

  lemma ChangedHeader(b: Bytes, k: nat, high: Octet, low: Octet, length: nat)
    requires k % 2 == 0 && k + 1 < length <= |b|
    ensures var c := b[k := high][k + 1 := low];
            WordSum(c[..length]) == WordSum(b[..length]) - Number(b, k) + high * 256 + low
  {
    SumOfChangedWord(b[..length], k, high, low);
    assert b[k := high][k + 1 := low][..length] == b[..length][k := high][k + 1 := low];
  }

  lemma RestIsPositive(b: Bytes, k: nat)
    requires b != [] && b[0] > 0 && 0 < k && k % 2 == 0 && k + 1 < |b|
    ensures WordSum(b) > Number(b, k)
  {
    SumOfChangedWord(b, k, 0, 0);
    FirstOctetCounts(b[k := 0][k + 1 := 0]);
  }

  lemma HeaderSumDecides(b: Bytes, k: nat, high: Octet, low: Octet)
    requires IsPacket(b) && k % 2 == 0 && k < HeaderLength(b)
    requires (k == 0 ==> high == b[0]) && (high != b[k] || low != b[k + 1])
    ensures SumsToZero(WordSum(b[k := high][k + 1 := low][..HeaderLength(b)]))
            <==> ZerosExchanged(Number(b, k), high * 256 + low)
  {
    var header := b[..HeaderLength(b)];
    ChangedHeader(b, k, high, low, HeaderLength(b));
    if k > 0 {
      RestIsPositive(header, k);
      ExchangeDecides(WordSum(header) - Number(b, k), Number(b, k), high * 256 + low);
    } else {
      SmallChangeSpoils(WordSum(header), WordSum(b[k := high][k + 1 := low][..HeaderLength(b)]));
    }
  }

  /** A packet with one word of its header changed, the first octet apart, is refused unless the word was one zero of
      one's complement and is the other; as the total length even that is refused. */
  lemma HeaderWordIsProtected(b: Bytes, k: nat, high: Octet, low: Octet)
    requires Ipv4.Parse(b).Ok? && k % 2 == 0 && k < HeaderLength(b)
    requires (k == 0 ==> high == b[0]) && (high != b[k] || low != b[k + 1])
    ensures Ipv4.Parse(b[k := high][k + 1 := low]).Ok?
            <==> k != 2 && ZerosExchanged(Number(b, k), high * 256 + low)
  {
    PacketsAreRead(b);
    PacketsAreRead(b[k := high][k + 1 := low]);
    HeaderSumDecides(b, k, high, low);
  }

  /** What is written for a packet, and every error with its own condition. */
  predicate Written(o: Bytes, h: Ipv4.Header, payload: Bytes) {
    && |o| == 20 + |payload| && o[20..] == payload
    && o[0] == 0x45 && o[1] == h.dscpEcn && Number(o, 2) == |o| && Number(o, 4) == h.identification
    && Number(o, 6) == h.flagsFragmentOffset && o[8] == h.ttl && o[9] == h.protocol
    && o[12..16] == h.source && o[16..20] == h.destination
    && Number(o, 10) < 65535 && SumsToZero(WordSum(o[..20]))
  }

  predicate EncodingFails(length: nat, flags: Word16, available: nat, e: Ipv4.EncodeError) {
    match e
    case PacketTooLong(n) => n == length && n > 65535
    case OutputTooSmall(required, room) => required == length <= 65535 && room == available < length
    case ReservedFlagSet => length <= 65535 && length <= available && flags >= 0x8000
  }

  lemma WrittenNumber(w: Word16, b: Bytes, k: nat)
    requires k + 1 < |b| && [b[k], b[k + 1]] == BigEndian16(w)
    ensures Number(b, k) == w
  {
    assert [b[k], b[k + 1]][0] == b[k] && [b[k], b[k + 1]][1] == b[k + 1];
  }

  lemma HeaderShown(h: Ipv4.Header, total: Word16, checksum: Word16, b: Bytes)
    requires Ipv4.HasFields(b, h, total, checksum)
    ensures Number(b, 2) == total && Number(b, 4) == h.identification && Number(b, 6) == h.flagsFragmentOffset
    ensures Number(b, 10) == checksum
  {
    WrittenNumber(total, b, 2);
    WrittenNumber(h.identification, b, 4);
    WrittenNumber(h.flagsFragmentOffset, b, 6);
    WrittenNumber(checksum, b, 10);
  }

  lemma HeaderSumsToZero(h: Ipv4.Header, total: Word16)
    ensures SumsToZero(WordSum(Ipv4.EncodedHeader(h, total)))
    ensures Checksum(Ipv4.HeaderOctets(h, total, 0)) < 65535
  {
    Ipv4.InsertedHeaderChecksum(h, total);
    FoldsToAllOnes(WordSum(Ipv4.EncodedHeader(h, total)));
    Ipv4.FrontHasFields(h, total);
    FoldIsRemainder(WordSum(Ipv4.HeaderOctets(h, total, 0)));
    FirstOctetCounts(Ipv4.HeaderOctets(h, total, 0));
  }

  lemma EncodedIsWritten(h: Ipv4.Header, payload: Bytes)
    requires 20 + |payload| <= 65535
    ensures Written(Ipv4.EncodedHeader(h, 20 + |payload|) + payload, h, payload)
  {
    var total := 20 + |payload|;
    var checksum := Checksum(Ipv4.HeaderOctets(h, total, 0));
    var header := Ipv4.EncodedHeader(h, total);
    Ipv4.HeaderShape(h, total, checksum);
    Ipv4.HeaderHasFields(h, total, checksum, payload);
    HeaderShown(h, total, checksum, header + payload);
    HeaderSumsToZero(h, total);
    assert (header + payload)[..20] == header;
  }

  lemma PacketIsWritten(h: Ipv4.Header, payload: Bytes, available: nat)
    ensures match Ipv4.Encode(h, payload, available)
            case Ok(o) => Written(o, h, payload) && |o| <= available && |o| <= 65535 && h.flagsFragmentOffset < 0x8000
            case Err(e) => EncodingFails(20 + |payload|, h.flagsFragmentOffset, available, e)
  {
    if 20 + |payload| <= 65535 { EncodedIsWritten(h, payload); }
  }

  // ----- UDP -----

  /** What a checksum covers: the addresses, protocol and length in front, then the datagram. */
  function Covered(source: Ipv4.Address, destination: Ipv4.Address, datagram: Bytes): Bytes
    requires |datagram| <= 65535
  {
    source + destination + [0, 17, |datagram| / 256, |datagram| % 256] + datagram
  }

  lemma PseudoSumCovers(source: Ipv4.Address, destination: Ipv4.Address, datagram: Bytes)
    requires |datagram| <= 65535
    ensures Udp.PseudoSum(source, destination, datagram) == WordSum(Covered(source, destination, datagram))
  {
    var middle := [0, 17, |datagram| / 256, |datagram| % 256];
    WordSumAppend(source + destination + middle, datagram);
    WordSumAppend(source + destination, middle);
    WordSumAppend(source, destination);
    WordSumAppend([0, 17], [|datagram| / 256, |datagram| % 256]);
    assert middle == [0, 17] + [|datagram| / 256, |datagram| % 256];
    WordSumOfWord(0, 17);
    WordSumOfWord(|datagram| / 256, |datagram| % 256);
  }

  predicate HasLength(b: Bytes) { |b| >= 8 && 8 <= Number(b, 4) <= |b| }

  predicate Verifies(source: Ipv4.Address, destination: Ipv4.Address, b: Bytes)
    requires HasLength(b)
  {
    SumsToZero(WordSum(Covered(source, destination, b[..Number(b, 4)])))
  }

  /** A checksum of zero stands for none. */
  predicate IsDatagram(source: Ipv4.Address, destination: Ipv4.Address, b: Bytes) {
    HasLength(b) && (Number(b, 6) == 0 || Verifies(source, destination, b))
  }

  predicate DatagramFails(source: Ipv4.Address, destination: Ipv4.Address, b: Bytes, e: Udp.UdpParseError) {
    match e
    case ShortHeader(available) => available == |b| && |b| < 8
    case InvalidLength(length) => |b| >= 8 && length == Number(b, 4) && length < 8
    case TruncatedDatagram(length, available) =>
      |b| >= 8 && length == Number(b, 4) && length >= 8 && available == |b| && available < length
    case InvalidChecksum => HasLength(b) && Number(b, 6) != 0 && !Verifies(source, destination, b)
  }

  predicate Tells(b: Bytes, d: Udp.Datagram)
    requires HasLength(b)
  {
    && d.sourcePort == Number(b, 0) && d.destinationPort == Number(b, 2)
    && d.payload == b[8..Number(b, 4)] && (d.checksumPresent <==> Number(b, 6) != 0)
  }

  /** A datagram is read exactly if its length is right and its checksum is absent or right, and every error occurs for
      its own reason. */
  lemma DatagramIsRead(source: Ipv4.Address, destination: Ipv4.Address, b: Bytes)
    ensures match Udp.ParseDatagram(source, destination, b)
            case Ok(d) => IsDatagram(source, destination, b) && Tells(b, d)
            case Err(e) => DatagramFails(source, destination, b, e)
  {
    if HasLength(b) {
      PseudoSumCovers(source, destination, b[..Number(b, 4)]);
      FoldsToAllOnes(Udp.PseudoSum(source, destination, b[..Number(b, 4)]));
    }
  }

  lemma DatagramsAreRead(source: Ipv4.Address, destination: Ipv4.Address, b: Bytes)
    ensures Udp.ParseDatagram(source, destination, b).Ok? <==> IsDatagram(source, destination, b)
  {
    DatagramIsRead(source, destination, b);
  }

  lemma CoveredChange(source: Ipv4.Address, destination: Ipv4.Address, b: Bytes, k: nat, o: Octet)
    requires k < |b| <= 65535
    ensures WordSum(Covered(source, destination, b[k := o]))
            == WordSum(Covered(source, destination, b)) + (o - b[k]) * if k % 2 == 0 then 256 else 1
  {
    SumOfChange(b, k, o);
    PseudoSumCovers(source, destination, b);
    PseudoSumCovers(source, destination, b[k := o]);
  }

  lemma ProtocolCounts(source: Ipv4.Address, destination: Ipv4.Address, b: Bytes)
    requires |b| <= 65535
    ensures WordSum(Covered(source, destination, b)) > WordSum(b)
  {
    PseudoSumCovers(source, destination, b);
  }

  /** One octet of a datagram with a checksum changed, its length field apart: refused, unless the checksum is gone. */
  lemma DatagramOctetIsProtected(source: Ipv4.Address, destination: Ipv4.Address, b: Bytes, k: nat, o: Octet)
    requires Udp.ParseDatagram(source, destination, b).Ok? && Number(b, 6) != 0
    requires k < Number(b, 4) && k != 4 && k != 5 && o != b[k]
    ensures Udp.ParseDatagram(source, destination, b[k := o]).Ok? <==> Number(b[k := o], 6) == 0
  {
    var (c, length) := (b[k := o], Number(b, 4));
    DatagramsAreRead(source, destination, b);
    DatagramsAreRead(source, destination, c);
    assert c[..length] == b[..length][k := o];
    CoveredChange(source, destination, b[..length], k, o);
    SmallChangeSpoils(WordSum(Covered(source, destination, b[..length])),
        WordSum(Covered(source, destination, c[..length])));
  }

  lemma CoveredWord(source: Ipv4.Address, destination: Ipv4.Address, b: Bytes, k: nat, high: Octet, low: Octet)
    requires k % 2 == 0 && k + 1 < |b| <= 65535
    ensures WordSum(Covered(source, destination, b[k := high][k + 1 := low]))
            == WordSum(Covered(source, destination, b)) - Number(b, k) + high * 256 + low
    ensures WordSum(Covered(source, destination, b)) > Number(b, k)
  {
    CoveredChange(source, destination, b, k, high);
    CoveredChange(source, destination, b[k := high], k + 1, low);
    SumOfChangedWord(b, k, 0, 0);
    ProtocolCounts(source, destination, b);
  }

  /** One word changed: refused, unless the checksum is gone or one zero of one's complement became the other. */
  lemma DatagramWordIsProtected(source: Ipv4.Address, destination: Ipv4.Address, b: Bytes, k: nat, c: Bytes)
    requires Udp.ParseDatagram(source, destination, b).Ok? && Number(b, 6) != 0
    requires k % 2 == 0 && k + 1 < Number(b, 4) && k != 4
    requires |c| == |b| && c != b && forall j | 0 <= j < |b| && j != k && j != k + 1 :: c[j] == b[j]
    ensures Udp.ParseDatagram(source, destination, c).Ok?
            <==> Number(c, 6) == 0 || ZerosExchanged(Number(b, k), Number(c, k))
  {
    DatagramsAreRead(source, destination, b);
    DatagramsAreRead(source, destination, c);
    ChangedWordDecides(source, destination, b[..Number(b, 4)], k, c[..Number(b, 4)]);
    WordsDiffer(b, k, c);
  }

  lemma WordsDiffer(b: Bytes, k: nat, c: Bytes)
    requires k + 1 < |b| == |c| && c != b && forall j | 0 <= j < |b| && j != k && j != k + 1 :: c[j] == b[j]
    ensures Number(c, k) != Number(b, k)
  {
  }

  lemma ChangedWordDecides(source: Ipv4.Address, destination: Ipv4.Address, b: Bytes, k: nat, c: Bytes)
    requires k % 2 == 0 && k + 1 < |b| == |c| <= 65535
    requires forall j | 0 <= j < |b| && j != k && j != k + 1 :: c[j] == b[j]
    requires SumsToZero(WordSum(Covered(source, destination, b)))
    ensures SumsToZero(WordSum(Covered(source, destination, c)))
            <==> Number(c, k) == Number(b, k) || ZerosExchanged(Number(b, k), Number(c, k))
  {
    assert c == b[k := c[k]][k + 1 := c[k + 1]];
    CoveredWord(source, destination, b, k, c[k], c[k + 1]);
    ExchangeDecides(WordSum(Covered(source, destination, b)) - Number(b, k), Number(b, k), Number(c, k));
  }

  /** What is written for a datagram: its checksum is never absent. */
  predicate DatagramWritten(o: Bytes, source: Ipv4.Address, destination: Ipv4.Address, sourcePort: Word16,
                            destinationPort: Word16, payload: Bytes) {
    && |o| == 8 + |payload| && o[8..] == payload && Number(o, 0) == sourcePort && Number(o, 2) == destinationPort
    && Number(o, 4) == |o| && Number(o, 6) != 0 && Verifies(source, destination, o)
  }

  lemma EncodedDatagramIsWritten(source: Ipv4.Address, destination: Ipv4.Address, sourcePort: Word16,
                                 destinationPort: Word16, payload: Bytes)
    requires 8 + |payload| <= 65535
    ensures DatagramWritten(Udp.EncodedDatagram(source, destination, sourcePort, destinationPort, payload),
                            source, destination, sourcePort, destinationPort, payload)
  {
    var b := Udp.EncodedDatagram(source, destination, sourcePort, destinationPort, payload);
    Udp.DatagramFields(source, destination, sourcePort, destinationPort, payload);
    WrittenNumber(sourcePort, b, 0);
    WrittenNumber(destinationPort, b, 2);
    WrittenNumber(|b|, b, 4);
    WrittenNumber(Udp.ChecksumFor(source, destination, sourcePort, destinationPort, payload), b, 6);
    Udp.EncodedDatagramVerifies(source, destination, sourcePort, destinationPort, payload);
    FoldsToAllOnes(Udp.PseudoSum(source, destination, b));
    PseudoSumCovers(source, destination, b);
    assert b[..|b|] == b;
  }

  lemma DatagramIsWritten(source: Ipv4.Address, destination: Ipv4.Address, sourcePort: Word16,
                          destinationPort: Word16, payload: Bytes, available: nat)
    ensures match Udp.EncodeDatagramIn(source, destination, sourcePort, destinationPort, payload, available)
            case Ok(o) =>
              && DatagramWritten(o, source, destination, sourcePort, destinationPort, payload)
              && |o| <= available && |o| <= 65535
            case Err(DatagramTooLong(n)) => n == 8 + |payload| && n > 65535
            case Err(NoRoom(required, room)) =>
              required == 8 + |payload| && required <= 65535 && room == available && available < required
  {
    if 8 + |payload| <= 65535 {
      EncodedDatagramIsWritten(source, destination, sourcePort, destinationPort, payload);
    }
  }
}
