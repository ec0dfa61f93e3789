/** Fixed-width C integers on top of Dafny's unbounded `int`.
    The firmware relies on 32- and 64-bit unsigned wrap-around (timestamp
    differences, counters, the NTP era offset); every such wrap is written
    out with the functions below. */
module Bits {

  const TWO_8: int := 0x100
  const TWO_32: int := 0x1_0000_0000
  const TWO_64: int := 0x1_0000_0000_0000_0000

  type uint8 = x: int | 0 <= x < 0x100
  type uint32 = x: int | 0 <= x < 0x1_0000_0000
  type uint64 = x: int | 0 <= x < 0x1_0000_0000_0000_0000

  /** Conversion of any integer to `uint32_t` (reduction modulo 2^32). */
  function Wrap32(x: int): (r: uint32)
    ensures 0 <= x < TWO_32 ==> r == x
    ensures (x - r) % TWO_32 == 0
  {
    x % TWO_32
  }

  /** Conversion of any integer to `uint64_t` (reduction modulo 2^64). */
  function Wrap64(x: int): (r: uint64)
    ensures 0 <= x < TWO_64 ==> r == x
    ensures (x - r) % TWO_64 == 0
  {
    x % TWO_64
  }

  /** Storing a `uint32_t` into a 32-bit signed field (two's complement, as GCC does). */
  function Int32(x: uint32): (r: int)
    ensures -0x8000_0000 <= r < 0x8000_0000
    ensures Wrap32(r) == x
    ensures r < 0 <==> x >= 0x8000_0000
  {
    if x < 0x8000_0000 then x else x - TWO_32
  }

  /** Big-endian (network order) bytes of a 32-bit value: what `htonl` leaves in memory. */
  function BigEndian32(x: uint32): (r: seq<uint8>)
    ensures |r| == 4
  {
    [x / 0x100_0000, x / 0x1_0000 % 0x100, x / 0x100 % 0x100, x % 0x100]
  }

  /** The value of four network-order bytes: what `ntohl` yields. */
  function FromBigEndian32(b: seq<uint8>): (x: uint32)
    requires |b| == 4
  {
    (b[0] as int) * 0x100_0000 + (b[1] as int) * 0x1_0000 + (b[2] as int) * 0x100 + b[3] as int
  }

  /** Quotient and remainder by 2^8, 2^16 and 2^24 of a value written in that base. */
  lemma Split8(q: int, r: int)
    requires 0 <= r < 0x100
    ensures (q * 0x100 + r) / 0x100 == q && (q * 0x100 + r) % 0x100 == r
  {
  }

  lemma Split16(q: int, r: int)
    requires 0 <= r < 0x1_0000
    ensures (q * 0x1_0000 + r) / 0x1_0000 == q
  {
  }

  lemma Split24(q: int, r: int)
    requires 0 <= r < 0x100_0000
    ensures (q * 0x100_0000 + r) / 0x100_0000 == q
  {
  }

  lemma BigEndian32RoundTrip(x: uint32)
    ensures FromBigEndian32(BigEndian32(x)) == x
  {
    var b3 := x % 0x100;
    var a := x / 0x100;
    var b2 := a % 0x100;
    var e := a / 0x100;
    var b1 := e % 0x100;
    var f := e / 0x100;
    assert x == a * 0x100 + b3;
    assert a == e * 0x100 + b2;
    assert e == f * 0x100 + b1;
    assert x == e * 0x1_0000 + (b2 * 0x100 + b3);
    Split16(e, b2 * 0x100 + b3);
    assert x == f * 0x100_0000 + (b1 * 0x1_0000 + b2 * 0x100 + b3);
    Split24(f, b1 * 0x1_0000 + b2 * 0x100 + b3);
    assert BigEndian32(x) == [f, b1, b2, b3];
  }

  lemma FromBigEndian32RoundTrip(b: seq<uint8>)
    requires |b| == 4
    ensures BigEndian32(FromBigEndian32(b)) == b
  {
    var x := FromBigEndian32(b);
    var b0, b1, b2, b3 := b[0] as int, b[1] as int, b[2] as int, b[3] as int;
    var q2 := b0 * 0x100 + b1;
    var q1 := q2 * 0x100 + b2;
    assert x == q1 * 0x100 + b3;
    assert x == q2 * 0x1_0000 + (b2 * 0x100 + b3);
    assert x == b0 * 0x100_0000 + (b1 * 0x1_0000 + b2 * 0x100 + b3);
    Split8(q1, b3);
    Split8(q2, b2);
    Split8(b0, b1);
    Split16(q2, b2 * 0x100 + b3);
    Split24(b0, b1 * 0x1_0000 + b2 * 0x100 + b3);
    assert BigEndian32(x) == [b0, b1, b2, b3];
  }

  /** Incrementing a 32-bit counter that holds `n` modulo 2^32. */
  lemma Wrap32Increment(n: nat)
    ensures Wrap32(n % TWO_32 + 1) == (n + 1) % TWO_32
  {
    var q := n / TWO_32;
    assert n == q * TWO_32 + n % TWO_32;
    if n % TWO_32 + 1 == TWO_32 {
      assert n + 1 == (q + 1) * TWO_32;
    } else {
      assert n + 1 == q * TWO_32 + (n % TWO_32 + 1);
    }
  }
}
