/** Ethernet II framing (IEEE 802.3 clause 3 MAC frame without preamble and
    FCS): a packed 14-byte header - destination address at offset 0, source
    address at offset 6, EtherType at offset 12 in network byte order -
    followed by the payload. */
module Ethernet {
  import opened Bytes

  const MAC_LENGTH: nat := 6
  const ETHERNET_MINIMUM_DATA_LEN: nat := 46
  const ETHERTYPE_IPV4: u16 := 0x0800
  const ETHERTYPE_IPV6: u16 := 0x86DD

  /** Offsets of the packed header fields, and the header size. */
  const DESTINATION_OFFSET: nat := 0
  const SOURCE_OFFSET: nat := 6
  const ETHERTYPE_OFFSET: nat := 12
  const ETHERNET_HEADER_LEN: nat := 14

  type MacAddress = s: seq<byte> | |s| == MAC_LENGTH witness [0, 0, 0, 0, 0, 0]

  datatype EthernetHeader = EthernetHeader(destination: MacAddress, source: MacAddress, ethertype: u16)

  /** A decoded frame owns a copy of the payload; `data_len` is `|data|`. */
  datatype EthernetFrame = EthernetFrame(header: EthernetHeader, data: seq<byte>)

  /** The packed layout is contiguous: the three fields tile the 14 header bytes. */
  lemma HeaderLayout()
    ensures DESTINATION_OFFSET + MAC_LENGTH == SOURCE_OFFSET
    ensures SOURCE_OFFSET + MAC_LENGTH == ETHERTYPE_OFFSET
    ensures ETHERTYPE_OFFSET + 2 == ETHERNET_HEADER_LEN
  {
  }

  /** The wire image of a frame: header fields at their offsets, then the payload. */
  function EncodeFrame(f: EthernetFrame): (s: seq<byte>)
    ensures |s| == ETHERNET_HEADER_LEN + |f.data|
  {
    f.header.destination + f.header.source + ToBigEndian16(f.header.ethertype) + f.data
  }

  /** `ethernet_frame_from_dynamic_buffer`: `buffer` is the used part
      `data[0..size)` of a byte buffer, or None for a NULL buffer. A buffer
      shorter than the header is rejected; any EtherType is accepted. */
  function FrameFromDynamicBuffer(buffer: Option<seq<byte>>): (r: Option<EthernetFrame>)
    ensures r.Some? <==> buffer.Some? && |buffer.value| >= ETHERNET_HEADER_LEN
    ensures r.Some? ==>
      && r.value.header.destination == buffer.value[DESTINATION_OFFSET..SOURCE_OFFSET]
      && r.value.header.source == buffer.value[SOURCE_OFFSET..ETHERTYPE_OFFSET]
      && r.value.header.ethertype == buffer.value[12] as int * 256 + buffer.value[13] as int
      && |r.value.data| == |buffer.value| - ETHERNET_HEADER_LEN
      && r.value.data == buffer.value[ETHERNET_HEADER_LEN..]
  {
    match buffer
    case None => None
    case Some(bytes) =>
      if |bytes| < ETHERNET_HEADER_LEN then None
      else
        var header := EthernetHeader(bytes[0..6], bytes[6..12], ReadU16(bytes, ETHERTYPE_OFFSET));
        Some(EthernetFrame(header, bytes[ETHERNET_HEADER_LEN..]))
  }

  /** `buffer_to_ethernet_frame`, the older revision of the same decoder. */
  function BufferToEthernetFrame(buffer: Option<seq<byte>>): (r: Option<EthernetFrame>)
    ensures buffer.None? ==> r.None?
    ensures buffer.Some? && |buffer.value| < ETHERNET_HEADER_LEN ==> r.None?
  {
    if buffer.None? || |buffer.value| < ETHERNET_HEADER_LEN then None
    else
      var bytes := buffer.value;
      var ethertype := BigEndian16(bytes[ETHERTYPE_OFFSET], bytes[ETHERTYPE_OFFSET + 1]);
      Some(EthernetFrame(EthernetHeader(bytes[..MAC_LENGTH], bytes[MAC_LENGTH..2 * MAC_LENGTH], ethertype),
                         bytes[ETHERNET_HEADER_LEN..]))
  }

  /** Both revisions decode every buffer identically. */
  lemma RevisionsAgree(buffer: Option<seq<byte>>)
    ensures BufferToEthernetFrame(buffer) == FrameFromDynamicBuffer(buffer)
  {
  }

  /** Decoding inverts encoding: every frame survives a round trip through its wire image. */
  lemma DecodeEncode(f: EthernetFrame)
    ensures FrameFromDynamicBuffer(Some(EncodeFrame(f))) == Some(f)
  {
    var s := EncodeFrame(f);
    assert s[0..6] == f.header.destination;
    assert s[6..12] == f.header.source;
    assert s[12..14] == ToBigEndian16(f.header.ethertype);
    assert s[14..] == f.data;
  }

  /** Encoding inverts decoding: an accepted buffer is exactly the wire image of its frame. */
  lemma EncodeDecode(bytes: seq<byte>)
    requires FrameFromDynamicBuffer(Some(bytes)).Some?
    ensures EncodeFrame(FrameFromDynamicBuffer(Some(bytes)).value) == bytes
  {
    var f := FrameFromDynamicBuffer(Some(bytes)).value;
    assert ToBigEndian16(f.header.ethertype) == bytes[12..14];
    assert bytes == bytes[0..6] + bytes[6..12] + bytes[12..14] + bytes[14..];
  }
}
