/** A growable byte buffer: `data` holds `capacity` bytes of which the first
    `size` are in use. Appends grow the capacity by doubling and copy the new
    bytes in place after the used part. */
module DynamicBuffer {
  import opened Bytes

  function Pow2(k: nat): (p: nat)
    ensures p >= 1
  {
    if k == 0 then 1 else 2 * Pow2(k - 1)
  }

  /** `capacity` doubled `k` times. */
  function Doubled(capacity: nat, k: nat): nat
  {
    if k == 0 then capacity else 2 * Doubled(capacity, k - 1)
  }

  lemma {:induction false} DoubledIsPowerMultiple(capacity: nat, k: nat)
    ensures Doubled(capacity, k) == capacity * Pow2(k)
  {
    if k > 0 {
      DoubledIsPowerMultiple(capacity, k - 1);
      calc {
        Doubled(capacity, k);
        2 * (capacity * Pow2(k - 1));
        { assert 2 * (capacity * Pow2(k - 1)) == capacity * (2 * Pow2(k - 1)); }
        capacity * Pow2(k);
      }
    }
  }

  lemma {:induction false} DoubledShift(capacity: nat, k: nat)
    ensures Doubled(2 * capacity, k) == Doubled(capacity, k + 1)
  {
    if k > 0 {
      DoubledShift(capacity, k - 1);
    }
  }

  /** How many doublings take `capacity` to at least `needed`. */
  function DoublingSteps(capacity: nat, needed: nat): nat
    requires capacity > 0
    decreases if capacity < needed then needed - capacity else 0
  {
    if capacity >= needed then 0 else 1 + DoublingSteps(2 * capacity, needed)
  }

  /** The capacity the growth loop of `add_data` settles on. */
  function GrownCapacity(capacity: nat, needed: nat): (r: nat)
    requires capacity > 0
    ensures r >= needed && r >= capacity
    ensures r > capacity ==> r < 2 * needed
    decreases if capacity < needed then needed - capacity else 0
  {
    if capacity >= needed then capacity else GrownCapacity(2 * capacity, needed)
  }

  /** The grown capacity is `capacity * 2^k` for the least `k` that reaches `needed`. */
  lemma {:induction false} GrownCapacityIsLeastDoubling(capacity: nat, needed: nat)
    requires capacity > 0
    ensures GrownCapacity(capacity, needed) == capacity * Pow2(DoublingSteps(capacity, needed))
    ensures forall j :: 0 <= j < DoublingSteps(capacity, needed) ==> Doubled(capacity, j) < needed
    decreases if capacity < needed then needed - capacity else 0
  {
    GrownIsDoubled(capacity, needed);
    DoubledIsPowerMultiple(capacity, DoublingSteps(capacity, needed));
  }

  lemma {:induction false} GrownIsDoubled(capacity: nat, needed: nat)
    requires capacity > 0
    ensures GrownCapacity(capacity, needed) == Doubled(capacity, DoublingSteps(capacity, needed))
    ensures forall j :: 0 <= j < DoublingSteps(capacity, needed) ==> Doubled(capacity, j) < needed
    decreases if capacity < needed then needed - capacity else 0
  {
    if capacity < needed {
      var k := DoublingSteps(2 * capacity, needed);
      GrownIsDoubled(2 * capacity, needed);
      DoubledShift(capacity, k);
      forall j | 0 <= j < k + 1
        ensures Doubled(capacity, j) < needed
      {
        if j > 0 {
          DoubledShift(capacity, j - 1);
        }
      }
    }
  }

  class Buffer {
    var data: array<byte>
    var size: nat
    var capacity: nat

    ghost predicate Valid()
      reads this
    {
      0 < capacity && data.Length == capacity && size <= capacity
    }

    /** The bytes in use. */
    ghost function Contents(): seq<byte>
      reads this, data
      requires Valid()
    {
      data[..size]
    }

    constructor (initialCapacity: nat)
      requires initialCapacity > 0
      ensures Valid() && fresh(data)
      ensures size == 0 && capacity == initialCapacity && Contents() == []
    {
      data := new byte[initialCapacity];
      size := 0;
      capacity := initialCapacity;
    }

    /** `resize_buffer`: a zero capacity is refused and nothing changes;
        otherwise the buffer moves to a fresh array of `newCapacity` bytes
        that keeps every byte both arrays have room for. */
    method ResizeBuffer(newCapacity: nat) returns (ok: bool)
      requires Valid()
      requires newCapacity >= size
      modifies this
      ensures Valid()
      ensures ok == (newCapacity != 0)
      ensures ok ==> capacity == newCapacity && fresh(data) && size == old(size)
      ensures ok ==> var kept := if old(capacity) < newCapacity then old(capacity) else newCapacity;
                     data[..kept] == old(data[..kept])
      ensures !ok ==> data == old(data) && size == old(size) && capacity == old(capacity)
    {
      if newCapacity == 0 {
        return false;
      }
      var kept := if capacity < newCapacity then capacity else newCapacity;
      var newData := new byte[newCapacity];
      var i := 0;
      while i < kept
        modifies newData
        invariant 0 <= i <= kept
        invariant newData[..i] == data[..i]
      {
        newData[i] := data[i];
        i := i + 1;
      }
      data := newData;
      capacity := newCapacity;
      ok := true;
    }

    /** The copy at the end of `add_data`, once the bytes fit: they follow
        the used part, which grows by their number. */
    method Append(src: array<byte>, n: nat)
      requires Valid() && size + n <= capacity && n <= src.Length && src != data
      modifies this, data
      ensures Valid() && data == old(data) && capacity == old(capacity)
      ensures Contents() == old(Contents()) + src[..n]
    {
      ghost var before := data[..size];
      Memcpy(data, size, src, n);
      assert data[..size + n] == before + src[..n] by {
        assert data[..size + n] == data[..size] + data[size..size + n];
      }
      size := size + n;
    }

    /** `add_data`: refuses a NULL source or an empty append and changes
        nothing; otherwise doubles the capacity until the bytes fit
        (reallocating only when it grew) and copies them after the used part. */
    method AddData(src: array?<byte>, dataSize: nat) returns (ok: bool)
      requires Valid()
      requires src != null ==> dataSize <= src.Length && src != data
      modifies this, data
      ensures Valid()
      ensures ok == (src != null && dataSize != 0)
      ensures ok ==> Contents() == old(Contents()) + src[..dataSize]
      ensures ok ==> capacity == GrownCapacity(old(capacity), old(size) + dataSize)
      ensures ok && old(size) + dataSize <= old(capacity) ==> data == old(data)
      ensures !ok ==> data == old(data) && size == old(size) && capacity == old(capacity)
                      && data[..] == old(data[..])
    {
      if src == null || dataSize == 0 {
        return false;
      }
      var needed := size + dataSize;
      var newCapacity := GrownTo(capacity, needed);
      if newCapacity > capacity {
        ghost var all := data[..capacity];
        var resized := ResizeBuffer(newCapacity);
        assert data[..size] == data[..|all|][..size];
      }
      Append(src, dataSize);
      ok := true;
    }
  }

  /** The growth loop of `add_data`: double until `needed` fits. */
  method GrownTo(capacity: nat, needed: nat) returns (newCapacity: nat)
    requires capacity > 0
    ensures newCapacity == GrownCapacity(capacity, needed)
  {
    newCapacity := capacity;
    while newCapacity < needed
      invariant newCapacity >= capacity
      invariant GrownCapacity(newCapacity, needed) == GrownCapacity(capacity, needed)
      decreases needed - newCapacity
    {
      newCapacity := newCapacity * 2;
    }
  }

  /** `memcpy(dst + at, src, n)`: the `n` bytes from `at` on become the
      first `n` bytes of `src`; every other byte of `dst` stays. */
  method Memcpy(dst: array<byte>, at: nat, src: array<byte>, n: nat)
    requires at + n <= dst.Length && n <= src.Length && dst != src
    modifies dst
    ensures dst[at..at + n] == src[..n]
    ensures dst[..at] == old(dst[..at]) && dst[at + n..] == old(dst[at + n..])
  {
    var i := 0;
    while i < n
      invariant 0 <= i <= n
      invariant dst[at..at + i] == src[..i]
      invariant dst[..at] == old(dst[..at]) && dst[at + n..] == old(dst[at + n..])
    {
      dst[at + i] := src[i];
      i := i + 1;
    }
  }

  /** `create_dynamic_buffer`: NULL for a zero capacity, otherwise an empty
      buffer of exactly that capacity. */
  method CreateDynamicBuffer(initialCapacity: nat) returns (buf: Buffer?)
    ensures buf == null <==> initialCapacity == 0
    ensures buf != null ==> fresh(buf) && fresh(buf.data) && buf.Valid()
                            && buf.size == 0 && buf.capacity == initialCapacity
  {
    if initialCapacity == 0 {
      return null;
    }
    buf := new Buffer(initialCapacity);
  }
}
