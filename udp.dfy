/** UDP (RFC 768, "Format"): an 8-byte header of four network-order 16-bit
    words - source port, destination port, length, checksum - decoded from
    the payload of an IPv4 datagram. */
module Udp {
  import opened Bytes
  import opened Ipv4

  const UDP_HEADER_LEN: nat := 8

  datatype UdpHeader = UdpHeader(sourcePort: u16, destPort: u16, length: u16, checksum: u16)

  /** A decoded packet; `data_len` is `|data|`. */
  datatype UdpPacket = UdpPacket(header: UdpHeader, data: seq<byte>)

  function ParseUdpHeader(bytes: seq<byte>): (h: UdpHeader)
    requires |bytes| >= UDP_HEADER_LEN
    ensures h.sourcePort == bytes[0] as int * 256 + bytes[1] as int
    ensures h.destPort == bytes[2] as int * 256 + bytes[3] as int
    ensures h.length == bytes[4] as int * 256 + bytes[5] as int
    ensures h.checksum == bytes[6] as int * 256 + bytes[7] as int
  {
    UdpHeader(ReadU16(bytes, 0), ReadU16(bytes, 2), ReadU16(bytes, 4), ReadU16(bytes, 6))
  }

  function EncodeUdpHeader(h: UdpHeader): (s: seq<byte>)
    ensures |s| == UDP_HEADER_LEN
  {
    ToBigEndian16(h.sourcePort) + ToBigEndian16(h.destPort)
    + ToBigEndian16(h.length) + ToBigEndian16(h.checksum)
  }

  /** The fragment an IP header describes is not the first-and-only one:
      More-Fragments is set or the fragment offset is non-zero. */
  predicate IsFragment(ip: Ipv4Header)
  {
    FlagsOffsetSplit(ip.fragmentOffsetFlags);
    MoreFragments(Flags(ip.fragmentOffsetFlags)) || FragmentOffset(ip.fragmentOffsetFlags) != 0
  }

  /** The length rule: the UDP length must equal the IP payload length,
      except that a fragment may announce more than this fragment carries. */
  predicate UdpLengthAccepted(udpLength: nat, ipDataLen: nat, ip: Ipv4Header)
  {
    udpLength == ipDataLen || (udpLength > ipDataLen && IsFragment(ip))
  }

  /** `ipv4_datagram_to_udp_packet`: None for a NULL datagram, a protocol
      other than UDP, a payload shorter than the UDP header, or a length the
      rule rejects. The packet data is the IP payload after the header, sized
      from the IP length rather than from the UDP length field. */
  function DatagramToUdpPacket(datagram: Option<Ipv4Datagram>): (r: Option<UdpPacket>)
    ensures r.Some? <==>
      && datagram.Some?
      && datagram.value.header.protocol == IPV4_PROTOCOL_UDP
      && |datagram.value.data| >= UDP_HEADER_LEN
      && UdpLengthAccepted(ParseUdpHeader(datagram.value.data).length, |datagram.value.data|, datagram.value.header)
    ensures r.Some? ==>
      && r.value.header == ParseUdpHeader(datagram.value.data)
      && |r.value.data| == |datagram.value.data| - UDP_HEADER_LEN
      && r.value.data == datagram.value.data[UDP_HEADER_LEN..]
  {
    match datagram
    case None => None
    case Some(d) =>
      if d.header.protocol != IPV4_PROTOCOL_UDP then None
      else if |d.data| < UDP_HEADER_LEN then None
      else
        var h := ParseUdpHeader(d.data);
        if h.length != |d.data| && (h.length < |d.data| || !IsFragment(d.header)) then None
        else Some(UdpPacket(h, d.data[UDP_HEADER_LEN..]))
  }

  /** A whole (unfragmented) datagram is rejected exactly when its UDP
      length disagrees with the IP payload length. */
  lemma UnfragmentedLengthMustMatch(d: Ipv4Datagram)
    requires d.header.protocol == IPV4_PROTOCOL_UDP && |d.data| >= UDP_HEADER_LEN
    requires Flags(d.header.fragmentOffsetFlags) % 2 == 0
    requires FragmentOffset(d.header.fragmentOffsetFlags) == 0
    ensures DatagramToUdpPacket(Some(d)).Some? <==> ParseUdpHeader(d.data).length == |d.data|
  {
    FlagsOffsetSplit(d.header.fragmentOffsetFlags);
    FlagMasks(Flags(d.header.fragmentOffsetFlags));
  }

  /** An accepted packet re-encodes to exactly the IP payload it came from. */
  lemma EncodeDecodeUdp(d: Ipv4Datagram)
    requires DatagramToUdpPacket(Some(d)).Some?
    ensures
      var p := DatagramToUdpPacket(Some(d)).value;
      EncodeUdpHeader(p.header) + p.data == d.data
  {
    var p := DatagramToUdpPacket(Some(d)).value;
    assert ToBigEndian16(p.header.sourcePort) == d.data[0..2];
    assert ToBigEndian16(p.header.destPort) == d.data[2..4];
    assert ToBigEndian16(p.header.length) == d.data[4..6];
    assert ToBigEndian16(p.header.checksum) == d.data[6..8];
    assert d.data == d.data[0..2] + d.data[2..4] + d.data[4..6] + d.data[6..8] + d.data[8..];
  }

  /** A packet whose length field matches its size survives a round trip
      through an unfragmented UDP datagram. */
  lemma DecodeEncodeUdp(p: UdpPacket, ip: Ipv4Header, options: seq<byte>)
    requires ip.protocol == IPV4_PROTOCOL_UDP
    requires p.header.length == UDP_HEADER_LEN + |p.data|
    ensures DatagramToUdpPacket(Some(Ipv4Datagram(ip, options, EncodeUdpHeader(p.header) + p.data))) == Some(p)
  {
    var s := EncodeUdpHeader(p.header) + p.data;
    assert s[0..2] == ToBigEndian16(p.header.sourcePort);
    assert s[2..4] == ToBigEndian16(p.header.destPort);
    assert s[4..6] == ToBigEndian16(p.header.length);
    assert s[6..8] == ToBigEndian16(p.header.checksum);
    assert ParseUdpHeader(s) == p.header;
    assert s[UDP_HEADER_LEN..] == p.data;
  }
}
