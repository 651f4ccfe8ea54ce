/** A UDP payload down the whole stack and up again: UDP in IPv4 in an async PPP frame. */
module PppStack {
  import opened Octets
  import opened AsyncFraming
  import AsyncCodec
  import InternetChecksum
  import Ipv4
  import Udp
  import V = InternetVerdicts

  const MRU := 1500

  /** Address and control octets and the protocol number of IPv4. */
  const IP_FRAME: Bytes := [0xff, 0x03, 0x00, 0x21]

  /** The header the client sends datagrams with. */
  function UdpHeader(source: Ipv4.Address, destination: Ipv4.Address): Ipv4.Header {
    Ipv4.Header(0, 0, 0, 64, Ipv4.PROTOCOL_UDP, source, destination)
  }

  function FrameOf(source: Ipv4.Address, destination: Ipv4.Address, sourcePort: Word16, destinationPort: Word16,
                   payload: Bytes): Bytes
    requires |payload| <= MRU - 28
  {
    var datagram := Udp.EncodedDatagram(source, destination, sourcePort, destinationPort, payload);
    Udp.DatagramFields(source, destination, sourcePort, destinationPort, payload);
    IP_FRAME + (Ipv4.EncodedHeader(UdpHeader(source, destination), 20 + |datagram|) + datagram)
  }

  /** What the receiver makes of a frame: addresses and datagram, if it is a good UDP packet. */
  function Delivered(frame: Bytes): Option<(Ipv4.Header, Udp.Datagram)> {
    if |frame| < 4 || frame[..4] != IP_FRAME then None
    else
      match Ipv4.Parse(frame[4..])
      case Err(_) => None
      case Ok(packet) =>
        if packet.header.protocol != Ipv4.PROTOCOL_UDP then None
        else
          match Udp.ParseDatagram(packet.header.source, packet.header.destination, packet.payload)
          case Err(_) => None
          case Ok(datagram) => Some((packet.header, datagram))
  }

  /** Address, control and protocol of IPv4, a good packet for UDP and a datagram good between its addresses. */
  predicate Bears(frame: Bytes, h: Ipv4.Header, d: Udp.Datagram) {
    && |frame| >= 4 && frame[..4] == [0xff, 0x03, 0x00, 0x21]
    && var b := frame[4..];
       && V.IsPacket(b) && b[9] == 17
       && var payload := b[V.HeaderLength(b)..V.Number(b, 2)];
          && V.IsDatagram(b[12..16], b[16..20], payload) && V.Tells(payload, d)
          && V.Shows(b, Ipv4.Packet(h, b[20..V.HeaderLength(b)], payload))
  }

  /** What is delivered is what the octets of the frame carry. */
  lemma DeliveredIsCarried(frame: Bytes)
    requires Delivered(frame).Some?
    ensures Bears(frame, Delivered(frame).value.0, Delivered(frame).value.1)
  {
    var packet := Ipv4.Parse(frame[4..]).value;
    V.PacketIsRead(frame[4..]);
    V.DatagramIsRead(packet.header.source, packet.header.destination, packet.payload);
  }

  /** And whatever good it carries is delivered. */
  lemma CarriedIsDelivered(frame: Bytes, h: Ipv4.Header, d: Udp.Datagram)
    requires Bears(frame, h, d)
    ensures Delivered(frame) == Some((h, d))
  {
    var b := frame[4..];
    V.PacketIsRead(b);
    V.PacketsAreRead(b);
    var packet := Ipv4.Parse(b).value;
    V.DatagramIsRead(packet.header.source, packet.header.destination, packet.payload);
    V.DatagramsAreRead(packet.header.source, packet.header.destination, packet.payload);
  }

  lemma FrameIsDelivered(source: Ipv4.Address, destination: Ipv4.Address, sourcePort: Word16,
                         destinationPort: Word16, payload: Bytes)
    requires |payload| <= MRU - 28
    ensures Delivered(FrameOf(source, destination, sourcePort, destinationPort, payload))
            == Some((UdpHeader(source, destination), Udp.Datagram(sourcePort, destinationPort, payload, true)))
  {
    var frame := FrameOf(source, destination, sourcePort, destinationPort, payload);
    var datagram := Udp.EncodedDatagram(source, destination, sourcePort, destinationPort, payload);
    Udp.DatagramFields(source, destination, sourcePort, destinationPort, payload);
    Ipv4.ParseEncoded(UdpHeader(source, destination), datagram, []);
    Udp.ParseEncodedDatagram(source, destination, sourcePort, destinationPort, payload, []);
    assert frame[..4] == IP_FRAME;
    assert frame[4..] == Ipv4.EncodedHeader(UdpHeader(source, destination), 20 + |datagram|) + datagram + [];
    assert datagram + [] == datagram;
  }

  lemma FrameLength(source: Ipv4.Address, destination: Ipv4.Address, sourcePort: Word16, destinationPort: Word16,
                    payload: Bytes)
    requires |payload| <= MRU - 28
    ensures |FrameOf(source, destination, sourcePort, destinationPort, payload)| == 32 + |payload|
  {
    var datagram := Udp.EncodedDatagram(source, destination, sourcePort, destinationPort, payload);
    Udp.DatagramFields(source, destination, sourcePort, destinationPort, payload);
    var h := UdpHeader(source, destination);
    Ipv4.HeaderShape(h, 20 + |datagram|, InternetChecksum.Checksum(Ipv4.HeaderOctets(h, 20 + |datagram|, 0)));
  }

  /** The last event while `wire` comes in behind `before`. */
  function LastEvent(before: Bytes, wire: Bytes, receive: Word32, max: nat): Option<Event> {
    var events := AsyncCodec.Decode(AsyncCodec.Decode(AsyncCodec.RESET, before, receive, max).0, wire, receive, max).1;
    if events == [] then None else Some(events[|events| - 1])
  }

  lemma FrameCrosses(before: Bytes, frame: Bytes, send: Word32, receive: Word32, max: nat)
    requires SubMap(receive, send) && MINIMUM_LENGTH <= |frame| + FCS_LENGTH <= max
    ensures LastEvent(before, EncodeAsync(frame, send), receive, max) == Some(Frame(frame))
  {
    AsyncCodec.FrameIsReceived(before, frame, send, receive, max);
  }

  /** Any payload that fits the MRU crosses any line whose sender escapes what the receiver drops,
      whatever the receiver heard before: the last event is the frame, and what it delivers is
      the payload with its ports and addresses. */
  lemma PayloadCrossesTheStack(before: Bytes, send: Word32, receive: Word32, max: nat,
                               source: Ipv4.Address, destination: Ipv4.Address,
                               sourcePort: Word16, destinationPort: Word16, payload: Bytes)
    requires SubMap(receive, send) && |payload| <= MRU - 28 && MRU + 6 <= max
    ensures var frame := FrameOf(source, destination, sourcePort, destinationPort, payload);
            && LastEvent(before, EncodeAsync(frame, send), receive, max) == Some(Frame(frame))
            && Delivered(frame) == Some((UdpHeader(source, destination),
                                         Udp.Datagram(sourcePort, destinationPort, payload, true)))
  {
    FrameLength(source, destination, sourcePort, destinationPort, payload);
    FrameIsDelivered(source, destination, sourcePort, destinationPort, payload);
    FrameCrosses(before, FrameOf(source, destination, sourcePort, destinationPort, payload), send, receive, max);
  }
}
