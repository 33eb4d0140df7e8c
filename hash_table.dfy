/** The chained hash table: a fixed number of buckets, each a chain of
    key/data nodes kept newest first, a pluggable hash callback that picks
    the bucket, a match callback that compares keys, and an optional release
    callback that receives every node taken out of the table. The capacity
    is fixed when the table is created; nothing ever rehashes.

    A chain is represented here by the sequence of its entries in chain
    order; the pointer manipulation on chains is the subject of
    SinglyLinkedList. The match callback is abstracted to key equality. */
module HashTable {
  import opened Bytes

  datatype Entry<K, V> = Entry(key: K, data: V)

  /** `hash_table_create_node`: a node for a key and its data; NULL when
      either of them is NULL. */
  function CreateNode<K, V>(key: Option<K>, data: Option<V>): (r: Option<Entry<K, V>>)
    ensures r.Some? <==> key.Some? && data.Some?
    ensures r.Some? ==> r.value.key == key.value && r.value.data == data.value
  {
    if key.None? || data.None? then None else Some(Entry(key.value, data.value))
  }

  /** Position of the first entry of `bucket` whose key is `key`, or
      `|bucket|` when there is none: where the chain search stops. */
  function KeyIndex<K(==), V>(bucket: seq<Entry<K, V>>, key: K): (j: nat)
    ensures j <= |bucket|
    ensures j < |bucket| ==> bucket[j].key == key
  {
    if bucket == [] then 0
    else if bucket[0].key == key then 0
    else 1 + KeyIndex(bucket[1..], key)
  }

  /** No entry before the stopping position has the key. */
  lemma {:induction false} KeyIndexFirst<K, V>(bucket: seq<Entry<K, V>>, key: K)
    ensures forall i :: 0 <= i < KeyIndex(bucket, key) ==> bucket[i].key != key
  {
    if bucket != [] && bucket[0].key != key {
      KeyIndexFirst(bucket[1..], key);
    }
  }

  /** The data of the first entry with `key`, if any. */
  function Find<K(==), V>(bucket: seq<Entry<K, V>>, key: K): (r: Option<V>)
    ensures r.Some? ==> Entry(key, r.value) in bucket
  {
    var j := KeyIndex(bucket, key);
    if j < |bucket| then Some(bucket[j].data) else None
  }

  /** A chain search finds something exactly when some entry has the key. */
  lemma FindSome<K, V>(bucket: seq<Entry<K, V>>, key: K)
    ensures Find(bucket, key).Some? <==> exists i :: 0 <= i < |bucket| && bucket[i].key == key
  {
    KeyIndexFirst(bucket, key);
  }

  /** No key occurs twice in a chain. */
  ghost predicate UniqueKeys<K, V>(bucket: seq<Entry<K, V>>)
  {
    forall a, b :: 0 <= a < b < |bucket| ==> bucket[a].key != bucket[b].key
  }

  /** In a chain without repeated keys, every entry is the one found for its key. */
  lemma FindEntry<K, V>(bucket: seq<Entry<K, V>>, i: nat)
    requires UniqueKeys(bucket) && i < |bucket|
    ensures Find(bucket, bucket[i].key) == Some(bucket[i].data)
  {
    KeyIndexFirst(bucket, bucket[i].key);
  }

  /** A new node at the head of a chain is found for its key and hides
      nothing else. */
  lemma FindPrepend<K, V>(bucket: seq<Entry<K, V>>, e: Entry<K, V>, key: K)
    ensures Find([e] + bucket, key) == if key == e.key then Some(e.data) else Find(bucket, key)
  {
    assert ([e] + bucket)[1..] == bucket;
  }

  /** Overwriting the data of the entry found for `key` changes the answer
      for `key` only. */
  lemma {:induction false} FindOverwrite<K, V>(bucket: seq<Entry<K, V>>, key: K, d: V, other: K)
    requires KeyIndex(bucket, key) < |bucket|
    ensures
      var j := KeyIndex(bucket, key);
      Find(bucket[j := Entry(bucket[j].key, d)], other) == if other == key then Some(d) else Find(bucket, other)
  {
    var j := KeyIndex(bucket, key);
    var b' := bucket[j := Entry(bucket[j].key, d)];
    if j > 0 {
      FindOverwrite(bucket[1..], key, d, other);
      assert b'[1..] == bucket[1..][j - 1 := Entry(bucket[j].key, d)];
    }
  }

  /** Unlinking the entry found for `key` from a chain without repeated keys
      makes `key` absent and changes no other answer. */
  lemma {:induction false} FindRemove<K, V>(bucket: seq<Entry<K, V>>, key: K, other: K)
    requires UniqueKeys(bucket)
    requires KeyIndex(bucket, key) < |bucket|
    ensures
      var j := KeyIndex(bucket, key);
      Find(bucket[..j] + bucket[j + 1..], other) == if other == key then None else Find(bucket, other)
  {
    var j := KeyIndex(bucket, key);
    if j == 0 {
      assert bucket[..0] + bucket[1..] == bucket[1..];
      if other == key {
        assert forall i :: 0 <= i < |bucket[1..]| ==> bucket[1..][i].key != key by {
          forall i | 0 <= i < |bucket[1..]| ensures bucket[1..][i].key != key {
            assert bucket[1..][i] == bucket[i + 1];
          }
        }
      }
    } else {
      assert UniqueKeys(bucket[1..]);
      FindRemove(bucket[1..], key, other);
      assert bucket[..j] + bucket[j + 1..] == [bucket[0]] + (bucket[1..][..j - 1] + bucket[1..][j..]);
      FindPrepend(bucket[1..][..j - 1] + bucket[1..][j..], bucket[0], other);
    }
  }

  /** The chain after `hash_table_insert_node`: the data of an existing
      key's entry replaced in place, or a new entry at the head. */
  function Upsert<K(==), V>(bucket: seq<Entry<K, V>>, k: K, d: V): seq<Entry<K, V>>
  {
    var j := KeyIndex(bucket, k);
    if j < |bucket| then bucket[j := Entry(bucket[j].key, d)] else [Entry(k, d)] + bucket
  }

  /** Upsert makes the chain answer `d` for `k` and leaves every other
      answer, keeps keys unique and adds no key that hashes elsewhere. */
  lemma UpsertFacts<K, V>(bucket: seq<Entry<K, V>>, k: K, d: V, hash: (K, nat) --> nat, n: nat, idx: nat)
    requires UniqueKeys(bucket)
    requires forall a :: 0 <= a < |bucket| ==> hash.requires(bucket[a].key, n) && hash(bucket[a].key, n) == idx
    requires hash.requires(k, n) && hash(k, n) == idx
    ensures forall other :: Find(Upsert(bucket, k, d), other) == if other == k then Some(d) else Find(bucket, other)
    ensures UniqueKeys(Upsert(bucket, k, d))
    ensures forall a :: 0 <= a < |Upsert(bucket, k, d)| ==>
              hash.requires(Upsert(bucket, k, d)[a].key, n) && hash(Upsert(bucket, k, d)[a].key, n) == idx
  {
    var j := KeyIndex(bucket, k);
    var nb := Upsert(bucket, k, d);
    if j < |bucket| {
      forall other ensures Find(nb, other) == if other == k then Some(d) else Find(bucket, other) {
        FindOverwrite(bucket, k, d, other);
      }
      assert forall a :: 0 <= a < |nb| ==> nb[a].key == bucket[a].key;
    } else {
      forall other ensures Find(nb, other) == if other == k then Some(d) else Find(bucket, other) {
        FindPrepend(bucket, Entry(k, d), other);
      }
      KeyIndexFirst(bucket, k);
      assert forall a :: 0 < a < |nb| ==> nb[a] == bucket[a - 1];
    }
  }

  /** All entries of all buckets, bucket by bucket, each chain in order. */
  function Flatten<K, V>(buckets: seq<seq<Entry<K, V>>>): (all: seq<Entry<K, V>>)
    ensures buckets == [] ==> all == []
  {
    if buckets == [] then [] else buckets[0] + Flatten(buckets[1..])
  }

  /** Flattening splits around any one bucket. */
  lemma {:induction false} FlattenSplit<K, V>(buckets: seq<seq<Entry<K, V>>>, i: nat)
    requires i < |buckets|
    ensures Flatten(buckets) == Flatten(buckets[..i]) + buckets[i] + Flatten(buckets[i + 1..])
  {
    if i > 0 {
      FlattenSplit(buckets[1..], i - 1);
      assert buckets[1..][..i - 1] == buckets[1..i];
      assert buckets[1..][i..] == buckets[i + 1..];
      assert buckets[..i][1..] == buckets[1..i];
    } else {
      assert buckets[1..] == buckets[i + 1..];
    }
  }

  /** Replacing one bucket changes the number of entries by the difference
      of the two chain lengths. */
  lemma FlattenUpdate<K, V>(buckets: seq<seq<Entry<K, V>>>, i: nat, b: seq<Entry<K, V>>)
    requires i < |buckets|
    ensures |Flatten(buckets[i := b])| == |Flatten(buckets)| - |buckets[i]| + |b|
  {
    FlattenSplit(buckets, i);
    FlattenSplit(buckets[i := b], i);
    assert buckets[i := b][..i] == buckets[..i];
    assert buckets[i := b][i + 1..] == buckets[i + 1..];
  }

  /** Buckets that are all empty hold no entries. */
  lemma {:induction false} FlattenEmpty<K, V>(buckets: seq<seq<Entry<K, V>>>)
    requires forall i :: 0 <= i < |buckets| ==> buckets[i] == []
    ensures Flatten(buckets) == []
  {
    if buckets != [] {
      FlattenEmpty(buckets[1..]);
    }
  }

  /** The hash callback accepts every key for this capacity and names a bucket. */
  ghost predicate HashInRange<K(!new)>(hash: (K, nat) --> nat, capacity: nat)
  {
    forall k :: hash.requires(k, capacity) && hash(k, capacity) < capacity
  }

  /** Every entry of `buckets` sits in the bucket its key hashes to, and no
      chain repeats a key. */
  ghost predicate WellPlaced<K(!new), V>(buckets: seq<seq<Entry<K, V>>>, hash: (K, nat) --> nat)
  {
    && HashInRange(hash, |buckets|)
    && (forall i, j :: 0 <= i < |buckets| && 0 <= j < |buckets[i]| ==> hash(buckets[i][j].key, |buckets|) == i)
    && (forall i :: 0 <= i < |buckets| ==> UniqueKeys(buckets[i]))
  }

  /** A bucket may be replaced by any chain of entries that belong to it and
      repeat no key. */
  lemma ReplaceBucket<K(!new), V>(buckets: seq<seq<Entry<K, V>>>, hash: (K, nat) --> nat, idx: nat, b: seq<Entry<K, V>>)
    requires WellPlaced(buckets, hash) && idx < |buckets|
    requires forall j :: 0 <= j < |b| ==> hash(b[j].key, |buckets|) == idx
    requires UniqueKeys(b)
    ensures WellPlaced(buckets[idx := b], hash)
  {
  }

  /** Unlinking one entry keeps a chain free of repeated keys, and every
      remaining entry came from the chain. */
  lemma RemoveAt<K, V>(bucket: seq<Entry<K, V>>, j: nat)
    requires UniqueKeys(bucket) && j < |bucket|
    ensures UniqueKeys(bucket[..j] + bucket[j + 1..])
    ensures forall a :: 0 <= a < |bucket| - 1 ==> (bucket[..j] + bucket[j + 1..])[a] == if a < j then bucket[a] else bucket[a + 1]
  {
    var r := bucket[..j] + bucket[j + 1..];
    assert forall a :: 0 <= a < |r| ==> r[a] == if a < j then bucket[a] else bucket[a + 1];
  }

  /** With every bucket before `i` drained, the head of bucket `i` is the
      first of all entries, and the rest follow once it is removed. */
  lemma DrainStep<K, V>(buckets: seq<seq<Entry<K, V>>>, i: nat)
    requires i < |buckets| && buckets[i] != []
    requires forall b :: 0 <= b < i ==> buckets[b] == []
    ensures Flatten(buckets) == [buckets[i][0]] + Flatten(buckets[i := buckets[i][1..]])
  {
    var after := buckets[i := buckets[i][1..]];
    FlattenSplit(buckets, i);
    FlattenSplit(after, i);
    assert after[..i] == buckets[..i];
    assert after[i + 1..] == buckets[i + 1..];
    FlattenEmpty(buckets[..i]);
  }

  /** What a map holds for `k`, as an optional value. */
  function Get<K, V>(m: map<K, V>, k: K): (r: Option<V>)
    ensures r.Some? <==> k in m
    ensures r.Some? ==> r.value == m[k]
  {
    if k in m then Some(m[k]) else None
  }

  class Table<K(==,!new), V> {
    const capacity: nat
    const hash: (K, nat) --> nat
    const hasFreeData: bool
    const buckets: array<seq<Entry<K, V>>>
    var size: nat
    /** The key-to-data mapping the table represents. */
    ghost var contents: map<K, V>

    /** Every entry sits in the bucket its key hashes to, no chain repeats a
        key, `size` counts the entries, and searching a key's bucket finds
        exactly what `contents` maps it to. */
    ghost predicate Valid()
      reads this, buckets
    {
      && capacity > 0
      && buckets.Length == capacity
      && WellPlaced(buckets[..], hash)
      && size == |Flatten(buckets[..])|
      && (forall k :: Find(buckets[Index(k)], k) == Get(contents, k))
    }

    /** The bucket a key belongs to. */
    function Index(key: K): (i: nat)
      requires HashInRange(hash, capacity)
      ensures i < capacity
    {
      hash(key, capacity)
    }

    constructor (capacity: nat, hash: (K, nat) --> nat, hasFreeData: bool)
      requires capacity > 0 && HashInRange(hash, capacity)
      ensures Valid() && fresh(buckets)
      ensures this.capacity == capacity && this.hash == hash && this.hasFreeData == hasFreeData
      ensures size == 0 && contents == map[]
      ensures forall i :: 0 <= i < buckets.Length ==> buckets[i] == []
    {
      this.capacity := capacity;
      this.hash := hash;
      this.hasFreeData := hasFreeData;
      buckets := new seq<Entry<K, V>>[capacity](_ => []);
      size := 0;
      contents := map[];
      new;
      FlattenEmpty(buckets[..]);
    }

    /** `hash_table_search`: NULL for a NULL key, otherwise the data of the
        first node in the key's bucket whose key matches: the data the
        table maps the key to. */
    method Search(key: Option<K>) returns (r: Option<V>)
      requires Valid()
      ensures key.None? ==> r.None?
      ensures key.Some? ==> r == Get(contents, key.value)
      ensures r.Some? ==> Entry(key.value, r.value) in buckets[Index(key.value)]
    {
      if key.None? {
        return None;
      }
      var bucket := buckets[hash(key.value, capacity)];
      r := Find(bucket, key.value);
    }

    /** `hash_table_insert_node`: refuses a NULL key or NULL data. An
        existing key has its data replaced in place, keeping the stored key
        and the size; a new key gets a node at the head of its bucket and the
        size grows by one. No other bucket changes. */
    method Insert(key: Option<K>, data: Option<V>) returns (ok: bool)
      requires Valid()
      modifies this, buckets
      ensures Valid()
      ensures ok == (key.Some? && data.Some?)
      ensures !ok ==> size == old(size) && contents == old(contents) && buckets[..] == old(buckets[..])
      ensures ok ==> contents == old(contents)[key.value := data.value]
      ensures ok ==> size == old(size) + (if key.value in old(contents) then 0 else 1)
      ensures ok && key.value !in old(contents) ==>
        buckets[Index(key.value)] == [Entry(key.value, data.value)] + old(buckets[Index(key.value)])
      ensures ok && key.value in old(contents) ==>
        var j := KeyIndex(old(buckets[Index(key.value)]), key.value);
        buckets[Index(key.value)] == old(buckets[Index(key.value)])[j := Entry(old(buckets[Index(key.value)])[j].key, data.value)]
      ensures forall i :: 0 <= i < buckets.Length && (key.None? || i != Index(key.value)) ==> buckets[i] == old(buckets[i])
    {
      if key.None? || data.None? {
        return false;
      }
      var k, d := key.value, data.value;
      var idx := hash(k, capacity);
      var bucket := buckets[idx];
      var j := KeyIndex(bucket, k);
      assert Find(buckets[Index(k)], k) == Get(contents, k);
      var newBucket := Upsert(bucket, k, d);
      UpsertFacts(bucket, k, d, hash, capacity, idx);
      ReplaceBucket(buckets[..], hash, idx, newBucket);
      FlattenUpdate(buckets[..], idx, newBucket);
      buckets[idx] := newBucket;
      assert buckets[..] == old(buckets[..])[idx := newBucket];
      if j == |bucket| {
        size := size + 1;
      }
      contents := contents[k := d];
      ok := true;
      forall other ensures Find(buckets[Index(other)], other) == Get(contents, other) {
        assert Find(old(buckets[Index(other)]), other) == Get(old(contents), other);
      }
    }

    /** `hash_table_delete_node`: false for a NULL or absent key. A present
        key's node is unlinked from its bucket, handed to the release
        callback (`released`) when there is one, and the size drops by one. */
    method Delete(key: Option<K>) returns (ok: bool, released: Option<Entry<K, V>>)
      requires Valid()
      modifies this, buckets
      ensures Valid()
      ensures ok == (key.Some? && key.value in old(contents))
      ensures !ok ==> size == old(size) && contents == old(contents) && buckets[..] == old(buckets[..]) && released.None?
      ensures ok ==> contents == old(contents) - {key.value}
      ensures ok ==> size == old(size) - 1
      ensures ok ==>
        var j := KeyIndex(old(buckets[Index(key.value)]), key.value);
        && buckets[Index(key.value)] == old(buckets[Index(key.value)])[..j] + old(buckets[Index(key.value)])[j + 1..]
        && released == if hasFreeData then Some(old(buckets[Index(key.value)])[j]) else None
      ensures forall i :: 0 <= i < buckets.Length && (key.None? || i != Index(key.value)) ==> buckets[i] == old(buckets[i])
    {
      released := None;
      if key.None? {
        return false, None;
      }
      var k := key.value;
      var idx := hash(k, capacity);
      var bucket := buckets[idx];
      var j := KeyIndex(bucket, k);
      assert Find(buckets[Index(k)], k) == Get(contents, k);
      if j == |bucket| {
        return false, None;
      }
      var newBucket := bucket[..j] + bucket[j + 1..];
      forall other ensures Find(newBucket, other) == if other == k then None else Find(bucket, other) {
        FindRemove(bucket, k, other);
      }
      RemoveAt(bucket, j);
      ReplaceBucket(buckets[..], hash, idx, newBucket);
      FlattenUpdate(buckets[..], idx, newBucket);
      buckets[idx] := newBucket;
      assert buckets[..] == old(buckets[..])[idx := newBucket];
      size := size - 1;
      contents := contents - {k};
      if hasFreeData {
        released := Some(bucket[j]);
      }
      ok := true;
    }

    /** `hash_table_delete_table`: drains every bucket from the head,
        handing each node to the release callback (`released`, in bucket
        order and chain order) and counting the size down to zero. */
    method DeleteTable() returns (released: seq<Entry<K, V>>)
      requires Valid()
      modifies this, buckets
      ensures size == 0
      ensures forall i :: 0 <= i < buckets.Length ==> buckets[i] == []
      ensures released == if hasFreeData then old(Flatten(buckets[..])) else []
    {
      ghost var all := Flatten(buckets[..]);
      ghost var drained: seq<Entry<K, V>> := [];
      released := [];
      var i := 0;
      while i < capacity
        invariant 0 <= i <= capacity == buckets.Length
        invariant forall b :: 0 <= b < i ==> buckets[b] == []
        invariant all == drained + Flatten(buckets[..])
        invariant size == |Flatten(buckets[..])|
        invariant released == if hasFreeData then drained else []
      {
        while buckets[i] != []
          invariant forall b :: 0 <= b < i ==> buckets[b] == []
          invariant all == drained + Flatten(buckets[..])
          invariant size == |Flatten(buckets[..])|
          invariant released == if hasFreeData then drained else []
          decreases |buckets[i]|
        {
          var node := buckets[i][0];
          ghost var before := buckets[..];
          DrainStep(before, i);
          buckets[i] := buckets[i][1..];
          assert buckets[..] == before[i := before[i][1..]];
          drained := drained + [node];
          if hasFreeData {
            released := released + [node];
          }
          size := size - 1;
        }
        i := i + 1;
      }
      FlattenEmpty(buckets[..]);
    }
  }

  /** `hash_table_create`: NULL for a zero capacity or a missing hash or
      match callback; otherwise an empty table of exactly that capacity. */
  method Create<K(==,!new), V>(capacity: nat, hash: Option<(K, nat) --> nat>, hasMatch: bool, hasFreeData: bool)
    returns (t: Table?<K, V>)
    requires capacity > 0 && hash.Some? ==> HashInRange(hash.value, capacity)
    ensures t == null <==> capacity == 0 || hash.None? || !hasMatch
    ensures t != null ==> fresh(t) && t.Valid() && t.capacity == capacity && t.size == 0
                          && t.hasFreeData == hasFreeData && t.contents == map[]
                          && t.hash == hash.value
  {
    if capacity == 0 || hash.None? || !hasMatch {
      return null;
    }
    t := new Table(capacity, hash.value, hasFreeData);
  }
}
