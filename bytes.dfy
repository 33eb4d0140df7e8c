/** Machine-level value types shared by every layer: octets, 16- and 64-bit
    unsigned words, an optional value standing for a possibly-NULL pointer,
    and network (big-endian) byte order. */
module Bytes {

  type byte = x: int | 0 <= x < 256
  type u16 = x: int | 0 <= x < 0x1_0000
  type u64 = x: int | 0 <= x < 0x1_0000_0000_0000_0000

  const TWO_TO_64: int := 0x1_0000_0000_0000_0000
  const UINT64_MAX: u64 := 0xFFFF_FFFF_FFFF_FFFF

  /** A value that may be absent: the model of a pointer that may be NULL. */
  datatype Option<+T> = None | Some(value: T)

  /** Host-order value of two bytes read in network order, as `ntohs` gives it. */
  function BigEndian16(hi: byte, lo: byte): (w: u16)
    ensures w / 256 == hi && w % 256 == lo
  {
    hi * 256 + lo
  }

  /** The two network-order bytes of a 16-bit word (the inverse of BigEndian16). */
  function ToBigEndian16(w: u16): (s: seq<byte>)
    ensures |s| == 2
  {
    [w / 256, w % 256]
  }

  lemma BigEndian16RoundTrip(w: u16)
    ensures BigEndian16(ToBigEndian16(w)[0], ToBigEndian16(w)[1]) == w
  {
  }

  /** A 16-bit word read from offset `at` of `s` in network order. */
  function ReadU16(s: seq<byte>, at: nat): (w: u16)
    requires at + 2 <= |s|
    ensures ToBigEndian16(w) == s[at..at + 2]
  {
    BigEndian16(s[at], s[at + 1])
  }

  lemma MulMono(a: int, b: int, m: nat)
    requires a <= b
    ensures a * m <= b * m
  {
    assert b * m - a * m == (b - a) * m;
  }

  /** Quotient and remainder are the only ones: `x == q * m + r` with
      `0 <= r < m` fixes both. */
  lemma DivModUnique(x: int, m: nat, q: int, r: int)
    requires m > 0 && 0 <= r < m && x == q * m + r
    ensures x % m == r && x / m == q
  {
    var q', r' := x / m, x % m;
    assert x == q' * m + r';
    if q' > q {
      assert (q + 1) * m == q * m + m;
      MulMono(q + 1, q', m);
    } else if q' < q {
      assert (q' + 1) * m == q' * m + m;
      MulMono(q' + 1, q, m);
    }
  }

  /** A negative value converted to a 64-bit unsigned word wraps around
      once: `(size_t)x == x + 2^64`. */
  lemma WrapNegative(x: int)
    requires -TWO_TO_64 <= x < 0
    ensures x % TWO_TO_64 == x + TWO_TO_64
  {
    DivModUnique(x, TWO_TO_64, -1, x + TWO_TO_64);
  }
}
