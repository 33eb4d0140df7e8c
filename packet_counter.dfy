/** The flow counter: for every (source, destination) address pair seen in
    a UDP datagram it keeps one record with a packet count. Records form a
    list, newest first, and a hash table indexes them by the pair's 8-byte
    key. */
module PacketCounter {
  import opened Bytes
  import opened Ipv4
  import opened FlowHash
  import HashTable

  const HASH_TABLE_INITIAL_CAPACITY: nat := 10

  /** `packet_node_t`: one flow and how many of its packets were counted. */
  class FlowRecord {
    const src: IpAddr
    const dest: IpAddr
    var refCounter: nat

    constructor (src: IpAddr, dest: IpAddr)
      ensures this.src == src && this.dest == dest && refCounter == 1
    {
      this.src := src;
      this.dest := dest;
      refCounter := 1;
    }

    function Key(): FlowKey
    {
      MakeKey(src, dest)
    }
  }

  /** The hash callback the counter installs: `hash_table_hash_func`. */
  const FlowHashFunc: (FlowKey, nat) --> nat :=
    (k: FlowKey, n: nat) requires 0 < n <= MAX_HASH_SIZE => HashIndex(k, n)

  lemma FlowHashInRange(n: nat)
    requires 0 < n <= MAX_HASH_SIZE
    ensures HashTable.HashInRange(FlowHashFunc, n)
  {
  }

  /** `key_from_ip`: no key without a datagram; otherwise the source
      address followed by the destination address. */
  function KeyFromDatagram(datagram: Option<Ipv4Datagram>): (key: Option<FlowKey>)
    ensures key.Some? <==> datagram.Some?
    ensures key.Some? ==>
      && key.value[..IP_ADDRESS_LENGTH] == datagram.value.header.sourceAddress
      && key.value[IP_ADDRESS_LENGTH..] == datagram.value.header.destinationAddress
  {
    match datagram
    case None => None
    case Some(d) => Some(MakeKey(d.header.sourceAddress, d.header.destinationAddress))
  }

  function Sum(s: seq<nat>): nat
  {
    if s == [] then 0 else s[0] + Sum(s[1..])
  }

  /** Counting one more packet for one record adds one to the total. */
  lemma {:induction false} SumIncrement(s: seq<nat>, i: nat)
    requires i < |s|
    ensures Sum(s[i := s[i] + 1]) == Sum(s) + 1
  {
    if i > 0 {
      SumIncrement(s[1..], i - 1);
      assert s[i := s[i] + 1][1..] == s[1..][i - 1 := s[i] + 1];
    }
  }

  /** The packet count of every record, in list order. */
  ghost function Counts(records: seq<FlowRecord>): (c: seq<nat>)
    reads records
    ensures |c| == |records|
  {
    if records == [] then [] else [records[0].refCounter] + Counts(records[1..])
  }

  lemma {:induction false} CountsAt(records: seq<FlowRecord>)
    ensures forall i :: 0 <= i < |records| ==> Counts(records)[i] == records[i].refCounter
  {
    if records != [] {
      CountsAt(records[1..]);
    }
  }

  /** The flow key of every record, in list order (keys are constant, so
      this reads no record's mutable state). */
  function FlowKeys(records: seq<FlowRecord>): (keys: seq<FlowKey>)
    ensures |keys| == |records|
  {
    if records == [] then [] else [records[0].Key()] + FlowKeys(records[1..])
  }

  lemma {:induction false} FlowKeysAt(records: seq<FlowRecord>)
    ensures forall i :: 0 <= i < |records| ==> FlowKeys(records)[i] == records[i].Key()
  {
    if records != [] {
      FlowKeysAt(records[1..]);
    }
  }

  /** No key occurs twice. */
  predicate Distinct(keys: seq<FlowKey>)
  {
    forall i, j :: 0 <= i < j < |keys| ==> keys[i] != keys[j]
  }

  predicate AllPositive(counts: seq<nat>)
  {
    forall i :: 0 <= i < |counts| ==> counts[i] >= 1
  }

  /** The count paired with the first occurrence of `key`, 0 if none. */
  function CountFor(keys: seq<FlowKey>, counts: seq<nat>, key: FlowKey): nat
    requires |keys| == |counts|
  {
    if keys == [] then 0
    else if keys[0] == key then counts[0]
    else CountFor(keys[1..], counts[1..], key)
  }

  /** A key that does not occur has count 0. */
  lemma {:induction false} CountForAbsent(keys: seq<FlowKey>, counts: seq<nat>, key: FlowKey)
    requires |keys| == |counts| && key !in keys
    ensures CountFor(keys, counts, key) == 0
  {
    if keys != [] {
      CountForAbsent(keys[1..], counts[1..], key);
    }
  }

  /** Pushing a new key with its count leaves every other key's count. */
  lemma CountForPush(keys: seq<FlowKey>, counts: seq<nat>, key: FlowKey, c: nat, k: FlowKey)
    requires |keys| == |counts| && key !in keys
    ensures CountFor([key] + keys, [c] + counts, k) == if k == key then c else CountFor(keys, counts, k)
  {
    assert ([key] + keys)[1..] == keys && ([c] + counts)[1..] == counts;
  }

  /** With distinct keys, adding one to the count at `i` adds one to the
      count of that position's key and to no other. */
  lemma {:induction false} CountForBump(keys: seq<FlowKey>, counts: seq<nat>, i: nat, k: FlowKey)
    requires |keys| == |counts| && i < |keys| && Distinct(keys)
    ensures CountFor(keys, counts[i := counts[i] + 1], k)
            == CountFor(keys, counts, k) + if k == keys[i] then 1 else 0
  {
    if keys[0] != k {
      if i == 0 {
        assert counts[i := counts[i] + 1][1..] == counts[1..];
      } else {
        assert Distinct(keys[1..]);
        assert counts[i := counts[i] + 1][1..] == counts[1..][i - 1 := counts[i] + 1];
        CountForBump(keys[1..], counts[1..], i - 1, k);
      }
    } else if i > 0 {
      assert keys[i] != keys[0];
    }
  }

  /** The index the list calls for: each record under its own key. */
  function MapOf(records: seq<FlowRecord>): (index: map<FlowKey, FlowRecord>)
  {
    if records == [] then map[] else MapOf(records[1..])[records[0].Key() := records[0]]
  }

  /** Exactly the listed flows are indexed. */
  lemma {:induction false} MapOfKeys(records: seq<FlowRecord>, key: FlowKey)
    ensures key in MapOf(records) <==> key in FlowKeys(records)
  {
    if records != [] {
      MapOfKeys(records[1..], key);
    }
  }

  /** Every indexed record is in the list under its own key. */
  lemma {:induction false} MapOfAt(records: seq<FlowRecord>, k: FlowKey)
    requires k in MapOf(records)
    ensures MapOf(records)[k] in records && MapOf(records)[k].Key() == k
  {
    if records[0].Key() != k {
      MapOfAt(records[1..], k);
    }
  }

  /** With distinct flows, the index finds each record under its key. */
  lemma {:induction false} MapOfFinds(records: seq<FlowRecord>, i: nat)
    requires Distinct(FlowKeys(records)) && i < |records|
    ensures records[i].Key() in MapOf(records) && MapOf(records)[records[i].Key()] == records[i]
  {
    FlowKeysAt(records);
    MapOfKeys(records, records[i].Key());
    if i > 0 {
      assert FlowKeys(records[1..]) == FlowKeys(records)[1..];
      MapOfFinds(records[1..], i - 1);
    }
  }

  /** The count at a position holding a key no earlier position holds. */
  lemma {:induction false} CountForAt(keys: seq<FlowKey>, counts: seq<nat>, i: nat)
    requires |keys| == |counts| && i < |keys| && Distinct(keys)
    ensures CountFor(keys, counts, keys[i]) == counts[i]
  {
    if i > 0 {
      assert keys[0] != keys[i];
      assert Distinct(keys[1..]);
      CountForAt(keys[1..], counts[1..], i - 1);
    }
  }

  lemma DistinctPush(keys: seq<FlowKey>, key: FlowKey)
    requires Distinct(keys) && key !in keys
    ensures Distinct([key] + keys)
  {
    var ks := [key] + keys;
    forall i, j | 0 <= i < j < |ks| ensures ks[i] != ks[j] {
      assert ks[j] == keys[j - 1];
    }
  }

  /** The count list is the sequence that agrees with every record's count. */
  lemma {:induction false} CountsAre(records: seq<FlowRecord>, c: seq<nat>)
    requires |c| == |records|
    requires forall j :: 0 <= j < |records| ==> c[j] == records[j].refCounter
    ensures Counts(records) == c
  {
    if records != [] {
      CountsAre(records[1..], c[1..]);
    }
  }

  /** Pushing a flow with count 1 adds one packet in total and one to that
      flow, keeps the flows distinct and every count positive. */
  lemma PushedTotals(keys: seq<FlowKey>, counts: seq<nat>, key: FlowKey)
    requires |keys| == |counts| && Distinct(keys) && AllPositive(counts) && key !in keys
    ensures Distinct([key] + keys) && AllPositive([1] + counts)
    ensures Sum([1] + counts) == Sum(counts) + 1
    ensures forall k :: CountFor([key] + keys, [1] + counts, k) == CountFor(keys, counts, k) + if k == key then 1 else 0
  {
    DistinctPush(keys, key);
    assert ([1] + counts)[1..] == counts;
    forall k ensures CountFor([key] + keys, [1] + counts, k) == CountFor(keys, counts, k) + if k == key then 1 else 0 {
      CountForPush(keys, counts, key, 1, k);
      if k == key {
        CountForAbsent(keys, counts, key);
      }
    }
  }

  /** One more packet for the flow at `i` adds one in total and one to that
      flow only, and keeps every count positive. */
  lemma BumpedTotals(keys: seq<FlowKey>, counts: seq<nat>, i: nat)
    requires |keys| == |counts| && Distinct(keys) && AllPositive(counts) && i < |keys|
    ensures AllPositive(counts[i := counts[i] + 1])
    ensures Sum(counts[i := counts[i] + 1]) == Sum(counts) + 1
    ensures forall k :: CountFor(keys, counts[i := counts[i] + 1], k) == CountFor(keys, counts, k) + if k == keys[i] then 1 else 0
  {
    SumIncrement(counts, i);
    forall k ensures CountFor(keys, counts[i := counts[i] + 1], k) == CountFor(keys, counts, k) + if k == keys[i] then 1 else 0 {
      CountForBump(keys, counts, i, k);
    }
  }

  class Counter {
    /** The record list, newest first (`linked_list`). */
    var records: seq<FlowRecord>
    const table: HashTable.Table<FlowKey, FlowRecord>

    /** One record per flow, the table indexing each record under its own
        key and nothing else; every record counts at least one datagram. */
    ghost predicate Valid()
      reads this, table, table.buckets, records
    {
      && table.Valid()
      && table.capacity == HASH_TABLE_INITIAL_CAPACITY
      && table.hasFreeData
      && Distinct(FlowKeys(records))
      && table.contents == MapOf(records)
      && table.size == |records|
      && AllPositive(Counts(records))
    }

    /** How many datagrams the records count together: the total that
        `print_packet_counter_linked_list` adds up. */
    ghost function Total(): nat
      reads this, records
    {
      Sum(Counts(records))
    }

    /** Packets counted so far for the flow with this key. */
    ghost function CountOf(key: FlowKey): nat
      reads this, records
    {
      CountFor(FlowKeys(records), Counts(records), key)
    }

    /** The count of a flow is the one its indexed record holds, so looking
        the key up in the table reaches that flow's count. */
    lemma {:induction false} CountOfIndexed(key: FlowKey)
      requires Valid()
      ensures key in table.contents ==> CountOf(key) == table.contents[key].refCounter
      ensures key !in table.contents ==> CountOf(key) == 0
    {
      if key in table.contents {
        MapOfAt(records, key);
        var i :| 0 <= i < |records| && records[i] == table.contents[key];
        FlowKeysAt(records);
        CountsAt(records);
        CountForAt(FlowKeys(records), Counts(records), i);
      } else {
        MapOfKeys(records, key);
        CountForAbsent(FlowKeys(records), Counts(records), key);
      }
    }

    /** `packet_counter_create`: an empty counter over a table of capacity
        10 whose release callback frees keys only. */
    constructor ()
      ensures Valid() && fresh(table) && fresh(table.buckets)
      ensures records == [] && Total() == 0
      ensures forall k :: CountOf(k) == 0
    {
      FlowHashInRange(HASH_TABLE_INITIAL_CAPACITY);
      table := new HashTable.Table(HASH_TABLE_INITIAL_CAPACITY, FlowHashFunc, true);
      records := [];
    }

    /** `packet_counter_increase`: a NULL datagram changes nothing. The first
        datagram of a flow pushes a record with count 1 onto the list and
        indexes it; a later one adds one to that flow's record and leaves the
        list and the table as they are. */
    method Increase(datagram: Option<Ipv4Datagram>)
      requires Valid()
      modifies this, table, table.buckets, records
      ensures Valid()
      ensures datagram.None? ==> records == old(records) && Total() == old(Total())
                                 && forall k :: CountOf(k) == old(CountOf(k))
      ensures datagram.Some? ==>
        var key := MakeKey(datagram.value.header.sourceAddress, datagram.value.header.destinationAddress);
        && Total() == old(Total()) + 1
        && (forall k :: CountOf(k) == old(CountOf(k)) + if k == key then 1 else 0)
        && (key !in old(table.contents) ==>
              && |records| == |old(records)| + 1 && records[1..] == old(records) && fresh(records[0])
              && records[0].Key() == key && records[0].refCounter == 1
              && table.size == old(table.size) + 1)
        && (key in old(table.contents) ==> records == old(records) && table.size == old(table.size))
    {
      if datagram.None? {
        return;
      }
      var h := datagram.value.header;
      var key := KeyFromDatagram(datagram);
      var result := table.Search(key);
      if result.None? {
        AddFlow(h.sourceAddress, h.destinationAddress);
      } else {
        MapOfAt(records, key.value);
        BumpFlow(key.value, result.value);
      }
    }

    /** The first datagram of a flow: a record with count 1 goes to the
        head of the list and is indexed under the flow's key. */
    method AddFlow(src: IpAddr, dest: IpAddr)
      requires Valid() && MakeKey(src, dest) !in table.contents
      modifies this, table, table.buckets
      ensures Valid()
      ensures Total() == old(Total()) + 1
      ensures forall k :: CountOf(k) == old(CountOf(k)) + if k == MakeKey(src, dest) then 1 else 0
      ensures |records| == |old(records)| + 1 && records[1..] == old(records) && fresh(records[0])
      ensures records[0].Key() == MakeKey(src, dest) && records[0].refCounter == 1
      ensures table.size == old(table.size) + 1
    {
      var key := MakeKey(src, dest);
      ghost var keys, counts := FlowKeys(records), Counts(records);
      MapOfKeys(records, key);
      var r := new FlowRecord(src, dest);
      var _ := table.Insert(Some(key), Some(r));
      assert Counts(records) == counts;
      PushedTotals(keys, counts, key);
      records := [r] + records;
      assert records[1..] == old(records);
      assert FlowKeys(records) == [key] + keys;
      assert Counts(records) == [1] + counts;
      assert MapOf(records) == MapOf(old(records))[key := r];
    }

    /** A later datagram of a known flow: its record counts one more. */
    method BumpFlow(key: FlowKey, r: FlowRecord)
      requires Valid() && key in table.contents && table.contents[key] == r
      requires r in records
      modifies r
      ensures Valid()
      ensures Total() == old(Total()) + 1
      ensures forall k :: CountOf(k) == old(CountOf(k)) + if k == key then 1 else 0
      ensures records == old(records) && table.size == old(table.size)
    {
      MapOfAt(records, key);
      ghost var i :| 0 <= i < |records| && records[i] == r;
      ghost var keys, before := FlowKeys(records), Counts(records);
      FlowKeysAt(records);
      CountsAt(records);
      BumpedTotals(keys, before, i);
      r.refCounter := r.refCounter + 1;
      ghost var after := before[i := before[i] + 1];
      forall j | 0 <= j < |records| ensures after[j] == records[j].refCounter {
        if j != i {
          assert keys[j] != keys[i];
        }
      }
      CountsAre(records, after);
    }

    /** `packet_counter_free`: the table is torn down first, its release
        callback freeing only each node's key (`releasedKeys`, one per
        flow), then the list is handed over to be freed record by record
        (`releasedRecords`, newest first). */
    method Free() returns (releasedKeys: seq<FlowKey>, releasedRecords: seq<FlowRecord>)
      requires Valid()
      modifies this, table, table.buckets
      ensures |releasedKeys| == |old(records)|
      ensures releasedKeys == KeysOf(old(HashTable.Flatten(table.buckets[..])))
      ensures releasedRecords == old(records)
      ensures records == [] && table.size == 0
    {
      var released := table.DeleteTable();
      releasedKeys := KeysOf(released);
      releasedRecords := records;
      records := [];
    }
  }

  /** The keys of a sequence of table entries, in order. */
  function KeysOf(entries: seq<HashTable.Entry<FlowKey, FlowRecord>>): (keys: seq<FlowKey>)
    ensures |keys| == |entries|
    ensures forall i :: 0 <= i < |entries| ==> keys[i] == entries[i].key
  {
    if entries == [] then [] else [entries[0].key] + KeysOf(entries[1..])
  }
}
