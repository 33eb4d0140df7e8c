/** The flow index's key and hash: a key is the 8 bytes source address ++
    destination address; the hash is 64-bit FNV-1a over those bytes,
    re-mixed while it falls in the incomplete last block of size
    `true_hash_size` (a rejection loop against modulo bias), then reduced
    modulo that size; keys match when `memcmp` finds their 8 bytes equal. */
module FlowHash {
  import opened Bytes
  import opened Ipv4

  const KEY_LENGTH: nat := 2 * IP_ADDRESS_LENGTH

  /** A flow key: exactly the bytes the hash and the match read. */
  type FlowKey = s: seq<byte> | |s| == KEY_LENGTH witness [0, 0, 0, 0, 0, 0, 0, 0]

  const FNV1A_INIT: u64 := 0xcbf2_9ce4_8422_2325
  const FNV1A_PRIME: u64 := 0x100_0000_01b3

  /** The largest table size for which the rejection loop is modelled;
      both tables that use this hash are far smaller. */
  const MAX_HASH_SIZE: nat := 0x10_0000

  /** The key of the flow from `src` to `dest`. */
  function MakeKey(src: IpAddr, dest: IpAddr): (key: FlowKey)
    ensures key[..IP_ADDRESS_LENGTH] == src && key[IP_ADDRESS_LENGTH..] == dest
  {
    src + dest
  }

  /** Keys identify flows: two keys are equal exactly when both addresses
      are, so a flow and its reverse have different keys. */
  lemma MakeKeyInjective(a: IpAddr, b: IpAddr, c: IpAddr, d: IpAddr)
    ensures MakeKey(a, b) == MakeKey(c, d) <==> a == c && b == d
  {
    if MakeKey(a, b) == MakeKey(c, d) {
      assert a == MakeKey(a, b)[..IP_ADDRESS_LENGTH] == MakeKey(c, d)[..IP_ADDRESS_LENGTH] == c;
      assert b == MakeKey(a, b)[IP_ADDRESS_LENGTH..] == MakeKey(c, d)[IP_ADDRESS_LENGTH..] == d;
    }
  }

  lemma DirectionMatters(a: IpAddr, b: IpAddr)
    requires a != b
    ensures MakeKey(a, b) != MakeKey(b, a)
  {
    MakeKeyInjective(a, b, b, a);
  }

  /** Bitwise XOR of two bytes. */
  function Xor8(a: byte, b: byte): byte
  {
    ((a as bv8) ^ (b as bv8)) as byte
  }

  /** XOR of a 64-bit word with a byte: only the low 8 bits change. */
  function XorByte(h: u64, b: byte): (r: u64)
    ensures r / 256 == h / 256
  {
    var q, x := h / 256, Xor8(h % 256, b);
    HighPart(h);
    NewLowByte(q, x);
    q * 256 + x
  }

  /** A 64-bit word splits into its low byte and 56 high bits. */
  lemma HighPart(h: u64)
    ensures h / 256 <= 0xff_ffff_ffff_ffff
  {
    assert h == h / 256 * 256 + h % 256;
  }

  /** Putting a byte below 56 high bits gives a 64-bit word with those high bits. */
  lemma NewLowByte(q: nat, x: byte)
    requires q <= 0xff_ffff_ffff_ffff
    ensures q * 256 + x < TWO_TO_64 && (q * 256 + x) / 256 == q
  {
    DivModUnique(q * 256 + x, 256, q, x);
  }

  /** One FNV-1a step: XOR in the byte, multiply by the prime, wrap to 64 bits. */
  function FnvStep(h: u64, b: byte): u64
  {
    (XorByte(h, b) * FNV1A_PRIME) % TWO_TO_64
  }

  /** FNV-1a over `s`, folding from the offset basis left to right. */
  function Fnv1a(s: seq<byte>): u64
  {
    if s == [] then FNV1A_INIT else FnvStep(Fnv1a(s[..|s| - 1]), s[|s| - 1])
  }

  /** The published FNV-1a 64-bit value of the one-byte string "a". */
  lemma Fnv1aOfA()
    ensures Fnv1a([0x61]) == 0xaf63_dc4c_8601_ec8c
  {
    assert [0x61][..0] == [];
    var x := 0xcbf2_9ce4_8422_2344;
    DivModUnique(FNV1A_INIT, 256, 0xcb_f29c_e484_2223, 0x25);
    assert Xor8(0x25, 0x61) == 0x44;
    assert XorByte(FNV1A_INIT, 0x61) == x;
    var p := x * FNV1A_PRIME;
    assert p == 0xcb_f29c_e5de * TWO_TO_64 + 0xaf63_dc4c_8601_ec8c;
    DivModUnique(p, TWO_TO_64, 0xcb_f29c_e5de, 0xaf63_dc4c_8601_ec8c);
  }

  /** The largest multiple of `size` not above UINT64_MAX: hashes at or
      above it lie in an incomplete block and are re-mixed. */
  function Threshold(size: nat): (t: nat)
    requires size > 0
    ensures UINT64_MAX - size < t <= UINT64_MAX
  {
    var q := UINT64_MAX / size;
    assert UINT64_MAX == q * size + UINT64_MAX % size;
    q * size
  }

  /** The threshold is a whole number of blocks of `size`, so the hashes
      below it fall equally often into every bucket. */
  lemma ThresholdIsMultiple(size: nat)
    requires size > 0
    ensures Threshold(size) % size == 0
    ensures Threshold(size) / size == UINT64_MAX / size
  {
    DivModUnique(Threshold(size), size, UINT64_MAX / size, 0);
  }

  /** The re-mix of the rejection loop: `hash * prime + basis`, wrapped. */
  function Remix(h: u64): u64
  {
    (h * FNV1A_PRIME + FNV1A_INIT) % TWO_TO_64
  }

  /** The rejection loop run for at most `fuel` re-mixes: the first value
      below the threshold, or None if the fuel runs out first. */
  function Settle(h: u64, threshold: nat, fuel: nat): (r: Option<u64>)
    ensures r.Some? ==> r.value < threshold
    ensures h < threshold ==> r == Some(h)
    decreases fuel
  {
    if h < threshold then Some(h)
    else if fuel == 0 then None
    else Settle(Remix(h), threshold, fuel - 1)
  }

  /** For table sizes up to MAX_HASH_SIZE a single re-mix always lands
      below the threshold: a rejected hash is `2^64 - k` with `k <= size`,
      and its re-mix is `basis - k * prime`, which is below the threshold. */
  lemma {:induction false} RemixOnce(h: u64, size: nat)
    requires 0 < size <= MAX_HASH_SIZE
    requires h >= Threshold(size)
    ensures Remix(h) < Threshold(size)
  {
    var k := TWO_TO_64 - h;
    assert 1 <= k <= size;
    assert k * FNV1A_PRIME <= MAX_HASH_SIZE * FNV1A_PRIME < FNV1A_INIT;
    var low := FNV1A_INIT - k * FNV1A_PRIME;
    calc {
      h * FNV1A_PRIME + FNV1A_INIT;
      (TWO_TO_64 - k) * FNV1A_PRIME + FNV1A_INIT;
      FNV1A_PRIME * TWO_TO_64 + low;
    }
    DivModUnique(h * FNV1A_PRIME + FNV1A_INIT, TWO_TO_64, FNV1A_PRIME, low);
  }

  /** The rejection loop settles after at most one re-mix. */
  lemma SettlesWithinOne(h: u64, size: nat)
    requires 0 < size <= MAX_HASH_SIZE
    ensures Settle(h, Threshold(size), 1).Some?
  {
    if h >= Threshold(size) {
      RemixOnce(h, size);
    }
  }

  /** The bucket index `hash_table_hash_func` returns for `key`. */
  function HashIndex(key: FlowKey, size: nat): (index: nat)
    requires 0 < size <= MAX_HASH_SIZE
    ensures index < size
  {
    SettlesWithinOne(Fnv1a(key), size);
    Settle(Fnv1a(key), Threshold(size), 1).value % size
  }

  /** `hash_table_hash_func`: FNV-1a over the 8 key bytes, the rejection
      loop, then the reduction modulo the table size. */
  method HashTableHashFunc(key: FlowKey, trueHashSize: u64) returns (index: u64)
    requires 0 < trueHashSize <= MAX_HASH_SIZE
    ensures index == HashIndex(key, trueHashSize)
    ensures index < trueHashSize
  {
    var hash: u64 := FNV1A_INIT;
    var i := 0;
    while i < KEY_LENGTH
      invariant 0 <= i <= KEY_LENGTH
      invariant hash == Fnv1a(key[..i])
    {
      assert key[..i + 1][..i] == key[..i];
      hash := FnvStep(hash, key[i]);
      i := i + 1;
    }
    assert key[..KEY_LENGTH] == key;
    SettlesWithinOne(hash, trueHashSize);
    ghost var fuel: nat := 1;
    ghost var threshold := Threshold(trueHashSize);
    while hash >= (UINT64_MAX / trueHashSize) * trueHashSize
      invariant Settle(hash, threshold, fuel) == Settle(Fnv1a(key), threshold, 1)
      invariant Settle(hash, threshold, fuel).Some?
      decreases fuel
    {
      hash := Remix(hash);
      fuel := fuel - 1;
    }
    index := hash % trueHashSize;
  }

  /** `memcmp` over the first `n` bytes: zero when they agree, otherwise
      the difference of the first pair of bytes that differ. */
  function Memcmp(a: seq<byte>, b: seq<byte>, n: nat): (c: int)
    requires n <= |a| && n <= |b|
    ensures c == 0 <==> a[..n] == b[..n]
  {
    if n == 0 then 0
    else if a[0] != b[0] then a[0] as int - b[0] as int
    else
      assert a[..n] == [a[0]] + a[1..][..n - 1] && b[..n] == [b[0]] + b[1..][..n - 1];
      Memcmp(a[1..], b[1..], n - 1)
  }

  /** A non-zero `memcmp` is the difference at the first differing position. */
  lemma {:induction false} MemcmpFirstDifference(a: seq<byte>, b: seq<byte>, n: nat)
    requires n <= |a| && n <= |b|
    requires Memcmp(a, b, n) != 0
    ensures exists i :: 0 <= i < n && a[..i] == b[..i] && Memcmp(a, b, n) == a[i] as int - b[i] as int
  {
    if a[0] != b[0] {
      assert a[..0] == b[..0];
    } else {
      MemcmpFirstDifference(a[1..], b[1..], n - 1);
      var i :| 0 <= i < n - 1 && a[1..][..i] == b[1..][..i] && Memcmp(a[1..], b[1..], n - 1) == a[1..][i] as int - b[1..][i] as int;
      assert a[..i + 1] == [a[0]] + a[1..][..i] && b[..i + 1] == [b[0]] + b[1..][..i];
    }
  }

  /** `hash_table_match_func`: no match for a NULL stored key or a NULL
      search key; otherwise a match exactly when the 8 key bytes agree. */
  function MatchFunc(nodeKey: Option<FlowKey>, key: Option<FlowKey>): (m: bool)
    ensures m <==> nodeKey.Some? && key.Some? && nodeKey.value == key.value
  {
    if nodeKey.None? || key.None? then false
    else
      assert nodeKey.value[..KEY_LENGTH] == nodeKey.value && key.value[..KEY_LENGTH] == key.value;
      Memcmp(nodeKey.value, key.value, KEY_LENGTH) == 0
  }
}
