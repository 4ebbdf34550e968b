/** Fixed-width, variable-length and length-prefixed coding of integers and byte strings (util/coding.cc),
    and the masking of stored checksums (util/crc32c.h). */
module Coding {
  import opened Basics

  const TWO32: nat := 0x1_0000_0000
  const TWO64: nat := 0x1_0000_0000_0000_0000

  type U32 = n: nat | n < TWO32
  type U64 = n: nat | n < TWO64

  // ---------- fixed width, little endian ----------

  function Fixed(n: nat, width: nat): (r: Bytes)
    ensures |r| == width
  {
    if width == 0 then [] else [n % 256] + Fixed(n / 256, width - 1)
  }

  function UnFixed(bytes: Bytes): nat {
    if bytes == [] then 0 else bytes[0] + 256 * UnFixed(bytes[1..])
  }

  function Pow256(width: nat): (r: nat)
    ensures r > 0
  {
    if width == 0 then 1 else 256 * Pow256(width - 1)
  }

  lemma {:induction false} FixedRoundTrip(n: nat, width: nat)
    requires n < Pow256(width)
    ensures UnFixed(Fixed(n, width)) == n
  {
    if width > 0 {
      assert n / 256 < Pow256(width - 1);
      FixedRoundTrip(n / 256, width - 1);
      assert Fixed(n, width)[1..] == Fixed(n / 256, width - 1);
    }
  }

  lemma {:induction false} UnFixedBound(bytes: Bytes)
    ensures UnFixed(bytes) < Pow256(|bytes|)
  {
    if bytes != [] { UnFixedBound(bytes[1..]); }
  }

  function Fixed32(n: U32): (r: Bytes)
    ensures |r| == 4
  {
    Fixed(n, 4)
  }

  function UnFixed32(bytes: Bytes): (r: U32)
    requires |bytes| == 4
  {
    UnFixedBound(bytes);
    assert Pow256(4) == TWO32;
    UnFixed(bytes)
  }

  lemma Fixed32RoundTrip(n: U32)
    ensures UnFixed32(Fixed32(n)) == n
  {
    assert Pow256(4) == TWO32;
    FixedRoundTrip(n, 4);
  }

  function Fixed64(n: U64): (r: Bytes)
    ensures |r| == 8
  {
    Fixed(n, 8)
  }

  function UnFixed64(bytes: Bytes): (r: U64)
    requires |bytes| == 8
  {
    UnFixedBound(bytes);
    assert Pow256(8) == TWO64;
    UnFixed(bytes)
  }

  lemma Fixed64RoundTrip(n: U64)
    ensures UnFixed64(Fixed64(n)) == n
  {
    assert Pow256(8) == TWO64;
    FixedRoundTrip(n, 8);
  }

  /** An array of 32-bit words. */
  function FixedAll(ns: seq<U32>): (r: Bytes)
    ensures |r| == 4 * |ns|
  {
    if ns == [] then [] else FixedAll(ns[..|ns| - 1]) + Fixed32(ns[|ns| - 1])
  }

  lemma {:induction false} FixedAllAt(ns: seq<U32>, j: nat)
    requires j < |ns|
    ensures FixedAll(ns)[4 * j..4 * j + 4] == Fixed32(ns[j])
    decreases |ns|
  {
    hide Fixed32;
    if j < |ns| - 1 {
      FixedAllAt(ns[..|ns| - 1], j);
    }
  }

  // ---------- variable length ----------

  /** Groups of seven bits, the least significant first, all but the last marked. */
  function Varint(n: nat): (r: Bytes)
    ensures |r| > 0
  {
    if n < 128 then [n] else [n % 128 + 128] + Varint(n / 128)
  }

  /** The value of the groups at the front of `input`, of which at most `limit` are read, and what follows them. */
  function UnVarint(input: Bytes, limit: nat): (r: Option<(nat, Bytes)>)
    ensures r.Some? ==> |r.value.1| < |input|
  {
    if limit == 0 || input == [] then None
    else if input[0] < 128 then Some((input[0], input[1..]))
    else
      match UnVarint(input[1..], limit - 1)
      case None => None
      case Some(p) => Some((input[0] - 128 + 128 * p.0, p.1))
  }

  function Pow128(n: nat): (r: nat)
    ensures r > 0
  {
    if n == 0 then 1 else 128 * Pow128(n - 1)
  }

  lemma {:induction false} VarintRoundTrip(n: nat, rest: Bytes, limit: nat)
    requires n < Pow128(limit) && limit > 0
    ensures UnVarint(Varint(n) + rest, limit) == Some((n, rest))
  {
    if n < 128 {
      assert ([n] + rest)[1..] == rest;
    } else {
      assert n / 128 < Pow128(limit - 1);
      assert limit > 1;
      VarintRoundTrip(n / 128, rest, limit - 1);
      assert (Varint(n) + rest)[1..] == Varint(n / 128) + rest;
    }
  }

  /** At most five groups; bits beyond the width are lost. */
  function GetVarint32(input: Bytes): (r: Option<(U32, Bytes)>)
    ensures r.Some? ==> |r.value.1| < |input|
  {
    match UnVarint(input, 5)
    case None => None
    case Some(p) => Some((p.0 % TWO32, p.1))
  }

  /** At most ten groups. */
  function GetVarint64(input: Bytes): (r: Option<(U64, Bytes)>)
    ensures r.Some? ==> |r.value.1| < |input|
  {
    match UnVarint(input, 10)
    case None => None
    case Some(p) => Some((p.0 % TWO64, p.1))
  }

  lemma Varint32RoundTrip(n: U32, rest: Bytes)
    ensures GetVarint32(Varint(n) + rest) == Some((n, rest))
  {
    assert Pow128(5) >= TWO32;
    VarintRoundTrip(n, rest, 5);
  }

  lemma Varint64RoundTrip(n: U64, rest: Bytes)
    ensures GetVarint64(Varint(n) + rest) == Some((n, rest))
  {
    assert Pow128(10) >= TWO64;
    VarintRoundTrip(n, rest, 10);
  }

  // ---------- length prefix ----------

  function LengthPrefixed(value: Bytes): Bytes {
    Varint(|value| % TWO32) + value
  }

  function GetLengthPrefixed(input: Bytes): (r: Option<(Bytes, Bytes)>)
    ensures r.Some? ==> |r.value.1| < |input|
  {
    match GetVarint32(input)
    case None => None
    case Some((len, rest)) => if |rest| >= len then Some((rest[..len], rest[len..])) else None
  }

  lemma LengthPrefixedRoundTrip(value: Bytes, rest: Bytes)
    requires |value| < TWO32
    ensures GetLengthPrefixed(LengthPrefixed(value) + rest) == Some((value, rest))
  {
    assert LengthPrefixed(value) + rest == Varint(|value|) + (value + rest);
    Varint32RoundTrip(|value|, value + rest);
  }

  // ---------- checksum masking ----------

  const MASK_DELTA: nat := 0xa282ead8

  /** Rotates right by 15 bits and adds a constant. */
  function Mask(crc: U32): U32 {
    (crc / 0x8000 + (crc % 0x8000) * 0x20000 + MASK_DELTA) % TWO32
  }

  function Unmask(masked: U32): U32 {
    var rot := (masked + TWO32 - MASK_DELTA) % TWO32;
    rot / 0x20000 + (rot % 0x20000) * 0x8000
  }

  lemma UnmaskMask(crc: U32)
    ensures Unmask(Mask(crc)) == crc
  {
    var rot := crc / 0x8000 + (crc % 0x8000) * 0x20000;
    assert rot < TWO32;
    assert (Mask(crc) + TWO32 - MASK_DELTA) % TWO32 == rot;
    assert rot / 0x20000 == crc % 0x8000 && rot % 0x20000 == crc / 0x8000;
  }
}
