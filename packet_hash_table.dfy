/** The earlier revision of the flow index: one global table of capacity
    100, created on first use, keyed by the same 8-byte address pair and
    hashed and matched exactly as the flow counter's table is (FlowHash). */
module PacketHashTable {
  import opened Bytes
  import opened Ipv4
  import opened FlowHash
  import HashTable
  import PacketCounter

  const PACKET_HASH_TABLE_CAPACITY: nat := 100

  /** `key_from_ip`: no key when either address is missing; otherwise the
      source address followed by the destination address. */
  function KeyFromIp(src: Option<IpAddr>, dest: Option<IpAddr>): (key: Option<FlowKey>)
    ensures key.Some? <==> src.Some? && dest.Some?
    ensures key.Some? ==>
      key.value[..IP_ADDRESS_LENGTH] == src.value && key.value[IP_ADDRESS_LENGTH..] == dest.value
  {
    if src.None? || dest.None? then None else Some(MakeKey(src.value, dest.value))
  }

  /** Both revisions build the same key for a datagram's address pair, so
      the two indexes agree on which datagrams belong to one flow. */
  lemma KeyFromIpAgreesWithCounter(d: Ipv4Datagram)
    ensures KeyFromIp(Some(d.header.sourceAddress), Some(d.header.destinationAddress))
            == PacketCounter.KeyFromDatagram(Some(d))
  {
    var k := KeyFromIp(Some(d.header.sourceAddress), Some(d.header.destinationAddress)).value;
    var c := PacketCounter.KeyFromDatagram(Some(d)).value;
    assert k == k[..IP_ADDRESS_LENGTH] + k[IP_ADDRESS_LENGTH..];
    assert c == c[..IP_ADDRESS_LENGTH] + c[IP_ADDRESS_LENGTH..];
  }

  /** Keys from two present address pairs are equal exactly when both
      addresses are: a flow and its reverse are indexed apart. */
  lemma KeyFromIpInjective(a: IpAddr, b: IpAddr, c: IpAddr, d: IpAddr)
    ensures KeyFromIp(Some(a), Some(b)) == KeyFromIp(Some(c), Some(d)) <==> a == c && b == d
  {
    MakeKeyInjective(a, b, c, d);
  }

  /** The global `packet_hash_table`, NULL until initialised. Its node
      release callback frees only the key, so the table owns no data. */
  class GlobalIndex<V> {
    var table: HashTable.Table?<FlowKey, V>

    constructor ()
      ensures table == null
    {
      table := null;
    }

    /** `init_packet_hash_table`: creates the table (capacity 100, the
        FNV-1a hash, the key-match and release callbacks) only while the
        global is still NULL, so calling it again changes nothing. */
    method InitPacketHashTable()
      modifies this
      ensures old(table) != null ==> table == old(table)
      ensures old(table) == null ==>
        && table != null && fresh(table) && table.Valid()
        && table.capacity == PACKET_HASH_TABLE_CAPACITY && table.hash == PacketCounter.FlowHashFunc
        && table.size == 0 && table.contents == map[] && table.hasFreeData
    {
      if table == null {
        PacketCounter.FlowHashInRange(PACKET_HASH_TABLE_CAPACITY);
        table := HashTable.Create(PACKET_HASH_TABLE_CAPACITY, Some(PacketCounter.FlowHashFunc), true, true);
      }
    }
  }
}
