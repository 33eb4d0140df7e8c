/** IPv4 (RFC 791 section 3.1): the packed 20-byte fixed header, the
    nibble and flags/fragment-offset bit layout, and the validating decoder
    that turns an Ethernet frame into a datagram. Bit fields are read with
    explicit shifts and masks over network-order bytes. */
module Ipv4 {
  import opened Bytes
  import opened Ethernet

  const IP_ADDRESS_LENGTH: nat := 4
  const IPV4_PROTOCOL_UDP: byte := 0x11
  const IPV4_PROTOCOL_TCP: byte := 0x06
  const IPV4_MASK_FLAG_MORE_FRAGMENTS: bv8 := 0x01
  const IPV4_MASK_FLAG_DONT_FRAGMENT: bv8 := 0x02

  /** Size of the packed fixed header, and the offsets of its fields. */
  const IPV4_HEADER_LEN: nat := 20
  const TOTAL_LENGTH_OFFSET: nat := 2
  const IDENTIFICATION_OFFSET: nat := 4
  const FLAGS_OFFSET: nat := 6
  const TTL_OFFSET: nat := 8
  const PROTOCOL_OFFSET: nat := 9
  const CHECKSUM_OFFSET: nat := 10
  const SOURCE_ADDRESS_OFFSET: nat := 12
  const DESTINATION_ADDRESS_OFFSET: nat := 16

  type IpAddr = s: seq<byte> | |s| == IP_ADDRESS_LENGTH witness [0, 0, 0, 0]
  type nibble = x: int | 0 <= x < 16

  /** The fixed header in host order. `fragmentOffsetFlags` is the 16-bit
      word at offset 6 after byte-order correction. */
  datatype Ipv4Header = Ipv4Header(
    version: nibble,
    headerLength: nibble,
    typeOfService: byte,
    totalLength: u16,
    identification: u16,
    fragmentOffsetFlags: u16,
    timeToLive: byte,
    protocol: byte,
    checksum: u16,
    sourceAddress: IpAddr,
    destinationAddress: IpAddr)

  /** A decoded datagram; `option_len` is `|options|` and `data_len` is `|data|`. */
  datatype Ipv4Datagram = Ipv4Datagram(header: Ipv4Header, options: seq<byte>, data: seq<byte>)

  // ---- bit layout -------------------------------------------------------

  /** High nibble of byte 0 (`b0 >> 4`). */
  function Version(b0: byte): (v: nibble)
  {
    b0 / 0x10
  }

  /** Low nibble of byte 0 (`b0 & 0x0F`): header length in 32-bit words. */
  function HeaderLengthWords(b0: byte): (ihl: nibble)
  {
    b0 % 0x10
  }

  /** The 3-bit flags: the top three bits of the host-order word (`word >> 13`). */
  function Flags(word: u16): (f: nat)
  {
    word / 0x2000
  }

  /** The 13-bit fragment offset: the low thirteen bits of the host-order
      word (`word & 0x1FFF`). */
  function FragmentOffset(word: u16): (o: nat)
  {
    word % 0x2000
  }

  predicate MoreFragments(flags: nat)
    requires flags < 8
  {
    (flags as bv8) & IPV4_MASK_FLAG_MORE_FRAGMENTS != 0
  }

  predicate DontFragment(flags: nat)
    requires flags < 8
  {
    (flags as bv8) & IPV4_MASK_FLAG_DONT_FRAGMENT != 0
  }

  /** Byte 0 splits into version (high nibble) and IHL (low nibble) and nothing is lost. */
  lemma NibbleSplit(b0: byte)
    ensures Version(b0) * 16 + HeaderLengthWords(b0) == b0
  {
  }

  /** The flags/offset word splits into 3 flag bits over 13 offset bits and nothing is lost. */
  lemma FlagsOffsetSplit(word: u16)
    ensures Flags(word) < 8 && FragmentOffset(word) < 0x2000
    ensures Flags(word) * 0x2000 + FragmentOffset(word) == word
  {
  }

  /** More-Fragments is the lowest flag bit and Don't-Fragment the next one. */
  lemma FlagMasks(flags: nat)
    requires flags < 8
    ensures MoreFragments(flags) <==> flags % 2 == 1
    ensures DontFragment(flags) <==> (flags / 2) % 2 == 1
  {
    if flags == 0 {} else if flags == 1 {} else if flags == 2 {} else if flags == 3 {}
    else if flags == 4 {} else if flags == 5 {} else if flags == 6 {} else {}
  }

  // ---- packed header ----------------------------------------------------

  /** The header as `memcpy` plus `ntohs` leave it: single bytes verbatim,
      the four 16-bit words byte-swapped. */
  function ParseHeader(bytes: seq<byte>): (h: Ipv4Header)
    requires |bytes| >= IPV4_HEADER_LEN
    ensures h.version * 16 + h.headerLength == bytes[0]
    ensures h.totalLength == bytes[2] as int * 256 + bytes[3] as int
    ensures h.typeOfService == bytes[1]
    ensures h.identification == bytes[4] as int * 256 + bytes[5] as int
    ensures h.fragmentOffsetFlags == bytes[6] as int * 256 + bytes[7] as int
    ensures h.timeToLive == bytes[8] && h.protocol == bytes[9]
    ensures h.checksum == bytes[10] as int * 256 + bytes[11] as int
    ensures h.sourceAddress == bytes[12..16] && h.destinationAddress == bytes[16..20]
  {
    NibbleSplit(bytes[0]);
    Ipv4Header(
      Version(bytes[0]),
      HeaderLengthWords(bytes[0]),
      bytes[1],
      ReadU16(bytes, TOTAL_LENGTH_OFFSET),
      ReadU16(bytes, IDENTIFICATION_OFFSET),
      ReadU16(bytes, FLAGS_OFFSET),
      bytes[TTL_OFFSET],
      bytes[PROTOCOL_OFFSET],
      ReadU16(bytes, CHECKSUM_OFFSET),
      bytes[SOURCE_ADDRESS_OFFSET..SOURCE_ADDRESS_OFFSET + 4],
      bytes[DESTINATION_ADDRESS_OFFSET..DESTINATION_ADDRESS_OFFSET + 4])
  }

  /** The 20-byte wire image of a header. */
  function EncodeHeader(h: Ipv4Header): (s: seq<byte>)
    ensures |s| == IPV4_HEADER_LEN
  {
    [h.version * 16 + h.headerLength, h.typeOfService]
    + ToBigEndian16(h.totalLength) + ToBigEndian16(h.identification)
    + ToBigEndian16(h.fragmentOffsetFlags)
    + [h.timeToLive, h.protocol] + ToBigEndian16(h.checksum)
    + h.sourceAddress + h.destinationAddress
  }

  lemma ParseEncodeHeader(h: Ipv4Header)
    ensures ParseHeader(EncodeHeader(h)) == h
  {
    var s := EncodeHeader(h);
    NibbleSplit(s[0]);
    assert s[2..4] == ToBigEndian16(h.totalLength);
    assert s[4..6] == ToBigEndian16(h.identification);
    assert s[6..8] == ToBigEndian16(h.fragmentOffsetFlags);
    assert s[10..12] == ToBigEndian16(h.checksum);
    assert s[12..16] == h.sourceAddress;
    assert s[16..20] == h.destinationAddress;
  }

  lemma EncodeParseHeader(bytes: seq<byte>)
    requires |bytes| == IPV4_HEADER_LEN
    ensures EncodeHeader(ParseHeader(bytes)) == bytes
  {
    var h := ParseHeader(bytes);
    var first := [h.version * 16 + h.headerLength, h.typeOfService];
    var middle := [h.timeToLive, h.protocol];
    assert first == bytes[0..2];
    assert middle == bytes[8..10];
    assert h.totalLength == ReadU16(bytes, TOTAL_LENGTH_OFFSET);
    assert h.identification == ReadU16(bytes, IDENTIFICATION_OFFSET);
    assert h.fragmentOffsetFlags == ReadU16(bytes, FLAGS_OFFSET);
    assert h.checksum == ReadU16(bytes, CHECKSUM_OFFSET);
    assert EncodeHeader(h) == first + ToBigEndian16(h.totalLength) + ToBigEndian16(h.identification)
      + ToBigEndian16(h.fragmentOffsetFlags) + middle + ToBigEndian16(h.checksum)
      + h.sourceAddress + h.destinationAddress;
    HeaderFields(bytes);
  }

  /** A 20-byte header is the concatenation of its field slices. */
  lemma HeaderFields(bytes: seq<byte>)
    requires |bytes| == IPV4_HEADER_LEN
    ensures bytes == bytes[0..2] + bytes[2..4] + bytes[4..6] + bytes[6..8] + bytes[8..10]
                     + bytes[10..12] + bytes[12..16] + bytes[16..20]
  {
  }

  /** The header is read from the first 20 bytes alone. */
  lemma ParseHeaderPrefix(bytes: seq<byte>)
    requires |bytes| >= IPV4_HEADER_LEN
    ensures ParseHeader(bytes[..IPV4_HEADER_LEN]) == ParseHeader(bytes)
  {
    var prefix := bytes[..IPV4_HEADER_LEN];
    assert prefix[12..16] == bytes[12..16];
    assert prefix[16..20] == bytes[16..20];
  }

  // ---- decoder ----------------------------------------------------------

  /** Header length in bytes: IHL counts 32-bit words. */
  function HeaderLen(h: Ipv4Header): nat
  {
    h.headerLength * 4
  }

  /** The total-length rule: the header's total length must equal the frame
      payload length, except that a payload of exactly the Ethernet minimum
      (46 bytes) may carry a shorter datagram followed by link-layer padding. */
  predicate TotalLengthAccepted(totalLength: nat, payloadLen: nat)
  {
    totalLength == payloadLen
    || (payloadLen == ETHERNET_MINIMUM_DATA_LEN && totalLength <= ETHERNET_MINIMUM_DATA_LEN)
  }

  /** Every check `ipv4_datagram_from_ethernet_frame` makes (and the one its
      padding branch misses, see `AsWrittenDataLen`), in order. */
  predicate Accepts(frame: EthernetFrame)
  {
    && frame.header.ethertype == ETHERTYPE_IPV4
    && |frame.data| >= IPV4_HEADER_LEN
    && var h := ParseHeader(frame.data);
       && IPV4_HEADER_LEN <= HeaderLen(h) <= |frame.data|
       && TotalLengthAccepted(h.totalLength, |frame.data|)
       && HeaderLen(h) <= h.totalLength
  }

  /** `ipv4_datagram_from_ethernet_frame`: None for a NULL frame, a
      non-IPv4 EtherType, a payload shorter than the fixed header, an IHL
      outside [20, payload] bytes, or a total length the rule rejects. The
      options are the bytes between the fixed header and `header_len`; the
      payload runs from `header_len` to `total_length`. */
  function DatagramFromEthernetFrame(frame: Option<EthernetFrame>): (r: Option<Ipv4Datagram>)
    ensures r.Some? <==> frame.Some? && Accepts(frame.value)
    ensures r.Some? ==>
      var payload := frame.value.data;
      var hl := HeaderLen(r.value.header);
      && r.value.header == ParseHeader(payload)
      && IPV4_HEADER_LEN <= hl <= r.value.header.totalLength <= |payload|
      && |r.value.options| == hl - IPV4_HEADER_LEN
      && r.value.options == payload[IPV4_HEADER_LEN..hl]
      && |r.value.data| == r.value.header.totalLength - hl
      && r.value.data == payload[hl..r.value.header.totalLength]
  {
    match frame
    case None => None
    case Some(f) =>
      if f.header.ethertype != ETHERTYPE_IPV4 then None
      else if |f.data| < IPV4_HEADER_LEN then None
      else
        var h := ParseHeader(f.data);
        var hl := HeaderLen(h);
        if hl < IPV4_HEADER_LEN || hl > |f.data| then None
        else if !TotalLengthAccepted(h.totalLength, |f.data|) then None
        else if h.totalLength < hl then None
        else Some(Ipv4Datagram(h, f.data[IPV4_HEADER_LEN..hl], f.data[hl..h.totalLength]))
  }

  /** The wire image of a datagram: header, options, payload. */
  function EncodeDatagram(d: Ipv4Datagram): (s: seq<byte>)
    ensures |s| == IPV4_HEADER_LEN + |d.options| + |d.data|
  {
    EncodeHeader(d.header) + d.options + d.data
  }

  /** An accepted datagram re-encodes to the first `total_length` bytes of
      the frame payload: all of it, or all but the link-layer padding. */
  lemma DecodedDatagramIsPayloadPrefix(f: EthernetFrame)
    requires Accepts(f)
    ensures
      var d := DatagramFromEthernetFrame(Some(f)).value;
      EncodeDatagram(d) == f.data[..d.header.totalLength]
  {
    var d := DatagramFromEthernetFrame(Some(f)).value;
    var hl := HeaderLen(d.header);
    var tl := d.header.totalLength;
    EncodeParseHeader(f.data[..IPV4_HEADER_LEN]);
    ParseHeaderPrefix(f.data);
    assert EncodeHeader(d.header) == f.data[..IPV4_HEADER_LEN];
    assert f.data[..tl] == f.data[..IPV4_HEADER_LEN] + f.data[IPV4_HEADER_LEN..hl] + f.data[hl..tl];
  }

  /** Decoding after encoding gives back the datagram, for every datagram
      whose header describes it consistently. */
  lemma DecodeEncodeDatagram(d: Ipv4Datagram, ethernetHeader: EthernetHeader)
    requires ethernetHeader.ethertype == ETHERTYPE_IPV4
    requires HeaderLen(d.header) == IPV4_HEADER_LEN + |d.options|
    requires d.header.totalLength == HeaderLen(d.header) + |d.data|
    ensures DatagramFromEthernetFrame(Some(EthernetFrame(ethernetHeader, EncodeDatagram(d)))) == Some(d)
  {
    var s := EncodeDatagram(d);
    var hl := HeaderLen(d.header);
    ParseEncodeHeader(d.header);
    assert s[..IPV4_HEADER_LEN] == EncodeHeader(d.header);
    ParseHeaderPrefix(s);
    assert ParseHeader(s) == d.header;
    assert |s| == d.header.totalLength;
    assert s[IPV4_HEADER_LEN..hl] == d.options;
    assert s[hl..] == d.data;
    assert s[hl..d.header.totalLength] == d.data;
    assert Accepts(EthernetFrame(ethernetHeader, s));
  }

  // ---- total-length underflow in the padding branch ---------------------

  /** `data_len` exactly as line 74 computes it: `total_length - header_len`
      in `size_t`, which wraps modulo 2^64 when the total length is smaller
      than the header. Returns None where the code rejects. */
  function AsWrittenDataLen(f: EthernetFrame): (r: Option<u64>)
    ensures r.Some? ==> f.header.ethertype == ETHERTYPE_IPV4 && |f.data| >= IPV4_HEADER_LEN
  {
    if f.header.ethertype != ETHERTYPE_IPV4 || |f.data| < IPV4_HEADER_LEN then None
    else
      var h := ParseHeader(f.data);
      var hl := HeaderLen(h);
      if hl < IPV4_HEADER_LEN || hl > |f.data| then None
      else if !TotalLengthAccepted(h.totalLength, |f.data|) then None
      else Some((h.totalLength - hl) % TWO_TO_64)
  }

  /** A 46-byte padded payload whose header says IHL = 6 (24 bytes) and
      total length 20. */
  function PaddedUnderflowFrame(): EthernetFrame
  {
    var payload := [0x46, 0, 0, 20] + seq(42, _ => 0);
    EthernetFrame(EthernetHeader([0, 0, 0, 0, 0, 0], [0, 0, 0, 0, 0, 0], ETHERTYPE_IPV4), payload)
  }

  /** As written, that frame passes every check and `data_len` wraps to
      2^64 - 4, so the copy on line 94 would read far past the 46-byte
      payload; the decoder as modelled rejects it. */
  lemma PaddingUnderflow()
    ensures AsWrittenDataLen(PaddedUnderflowFrame()) == Some(TWO_TO_64 - 4)
    ensures TWO_TO_64 - 4 > |PaddedUnderflowFrame().data|
    ensures DatagramFromEthernetFrame(Some(PaddedUnderflowFrame())) == None
  {
    var f := PaddedUnderflowFrame();
    NibbleSplit(f.data[0]);
    assert ParseHeader(f.data).headerLength == 6;
    assert ParseHeader(f.data).totalLength == 20;
  }

  /** Wherever the corrected decoder accepts, the as-written length agrees
      with it and never wraps. */
  lemma AsWrittenAgreesWhenAccepted(f: EthernetFrame)
    requires Accepts(f)
    ensures AsWrittenDataLen(f) == Some(|DatagramFromEthernetFrame(Some(f)).value.data|)
  {
    var h := ParseHeader(f.data);
    var n := h.totalLength - HeaderLen(h);
    assert 0 <= n < TWO_TO_64;
    assert |DatagramFromEthernetFrame(Some(f)).value.data| == n;
  }

  // ---- examples ---------------------------------------------------------

  /** A frame carrying `payload` under the IPv4 EtherType. */
  function Ipv4Frame(payload: seq<byte>): EthernetFrame
  {
    EthernetFrame(EthernetHeader([0, 0, 0, 0, 0, 0], [0, 0, 0, 0, 0, 0], ETHERTYPE_IPV4), payload)
  }

  /** A 20-byte header (IHL 5) claiming total length 100 over a 60-byte
      payload is rejected; claiming 28 over a padded 46-byte payload is
      accepted and yields 8 bytes of data. */
  lemma TotalLengthExamples()
    ensures DatagramFromEthernetFrame(Some(Ipv4Frame([0x45, 0, 0, 100] + seq(56, _ => 0)))) == None
    ensures
      var r := DatagramFromEthernetFrame(Some(Ipv4Frame([0x45, 0, 0, 28] + seq(42, _ => 0))));
      r.Some? && |r.value.data| == 8 && r.value.options == []
  {
    var long := [0x45, 0, 0, 100] + seq(56, _ => 0);
    var padded := [0x45, 0, 0, 28] + seq(42, _ => 0);
    NibbleSplit(0x45);
    assert ParseHeader(long).headerLength == 5 && ParseHeader(long).totalLength == 100;
    assert ParseHeader(padded).headerLength == 5 && ParseHeader(padded).totalLength == 28;
  }
}
