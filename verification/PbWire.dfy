/** The wire format of nanopb. */
module PbWire {
  // Integers of every kind, tags, length-delimited records and the skipping of unknown fields
  // (pb_encode.c lines 574-680 and 732-808, pb_decode.c lines 182-395 and 1240-1389).

  import opened Basics
  import opened Coding
  import opened PbFields

  // ---------- 32-bit varints ----------

  /** Seven bits put behind the groups already read, as far as they lie in the first 32. */
  function Shifted(result: U32, low: nat, group: nat): U32 {
    if 7 * group >= 32 then result else (result + low * Pow128(group)) % TWO32
  }

  /** The groups after the first one, whose value so far is `result`; `group` of them have been read. Bits past 32
      must be zeros, or ones if the number is negative. */
  function MoreGroups(input: Bytes, result: U32, group: nat): (r: Option<(U32, Bytes)>)
    ensures r.Some? ==> |r.value.1| < |input|
  {
    if input == [] then None
    else
      var byte := input[0];
      var bitpos := 7 * group;
      if bitpos >= 32 && byte % 128 != 0 &&
         (result < 0x8000_0000 || byte != if bitpos < 63 then 0xFF else 0x01) then None
      else
        var now := Shifted(result, byte % 128, group);
        if byte >= 128 then MoreGroups(input[1..], now, group + 1)
        else if bitpos == 28 && byte / 16 % 8 != 0 then None
        else Some((now, input[1..]))
  }

  function UnVarint32(input: Bytes): (r: Option<(U32, Bytes)>)
    ensures r.Some? ==> |r.value.1| < |input|
  {
    if input == [] then None
    else if input[0] < 128 then Some((input[0], input[1..]))
    else MoreGroups(input[1..], input[0] % 128, 1)
  }

  lemma Pow128s()
    ensures Pow128(0) == 1 && Pow128(1) == 0x80 && Pow128(2) == 0x4000 && Pow128(3) == 0x20_0000
    ensures Pow128(4) == 0x1000_0000 && Pow128(5) == 0x8_0000_0000 && Pow128(9) == 0x8000_0000_0000_0000
  {
    assert Pow128(6) == 0x400_0000_0000;
    assert Pow128(7) == 0x2_0000_0000_0000;
    assert Pow128(8) == 0x100_0000_0000_0000;
  }

  /** One turn of the loop over an encoded number: its last group, or a marked one. */
  lemma OneGroup(m: nat, result: U32, group: nat, rest: Bytes)
    requires group > 0
    ensures m < 128 && group <= 4 ==>
      MoreGroups(Varint(m) + rest, result, group) ==
      if group == 4 && m >= 16 then None else Some((Shifted(result, m, group), rest))
    ensures 0 < m < 128 && 4 < group <= 8 ==> MoreGroups(Varint(m) + rest, result, group) == None
    ensures m >= 128 ==>
      MoreGroups(Varint(m) + rest, result, group) == None ||
      MoreGroups(Varint(m) + rest, result, group) ==
      MoreGroups(Varint(m / 128) + rest, Shifted(result, m % 128, group), group + 1)
    ensures m >= 128 && group <= 4 ==>
      MoreGroups(Varint(m) + rest, result, group) ==
      MoreGroups(Varint(m / 128) + rest, Shifted(result, m % 128, group), group + 1)
  {
    hide Shifted;
    var input := Varint(m) + rest;
    if m < 128 {
      assert input[1..] == rest;
    } else {
      assert input[1..] == Varint(m / 128) + rest;
    }
  }

  lemma {:induction false} GroupsRead(n: nat, m: nat, result: U32, group: nat, rest: Bytes)
    requires 1 <= group <= 4 && m > 0 && result < Pow128(group) && n == result + m * Pow128(group) && n < TWO32
    ensures MoreGroups(Varint(m) + rest, result, group) == Some((n, rest))
    decreases m
  {
    hide Pow128, MoreGroups, Varint, Shifted;
    NextGroup(m, result, group);
    OneGroup(m, result, group, rest);
    if m >= 128 {
      GroupsRead(n, m / 128, Shifted(result, m % 128, group), group + 1, rest);
    }
  }

  lemma NextGroup(m: nat, result: U32, group: nat)
    requires 1 <= group <= 4 && m > 0 && result < Pow128(group) && result + m * Pow128(group) < TWO32
    ensures m < 128 ==> Shifted(result, m, group) == result + m * Pow128(group)
    ensures m < 128 && group == 4 ==> m < 16
    ensures m >= 128 ==> group < 4 && Shifted(result, m % 128, group) < Pow128(group + 1)
    ensures result + m * Pow128(group) == Shifted(result, m % 128, group) + m / 128 * Pow128(group + 1)
  {
    hide Pow128, Shifted;
    GroupSplits(m, group);
    LowGroup(m, result, group);
    assert group == 4 ==> Pow128(group) == 0x1000_0000 by { Pow128s(); }
    assert m * Pow128(group) < TWO32;
    if group == 4 { assert m * 0x1000_0000 < TWO32; }
  }

  lemma GroupSplits(m: nat, group: nat)
    ensures m * Pow128(group) == m % 128 * Pow128(group) + m / 128 * Pow128(group + 1)
    ensures m % 128 * Pow128(group) <= 127 * Pow128(group)
  {
    assert Pow128(group + 1) == 128 * Pow128(group);
    Distribute(m % 128, m / 128, Pow128(group));
  }

  lemma Distribute(low: nat, high: nat, p: nat)
    ensures (low + 128 * high) * p == low * p + high * (128 * p)
    ensures low <= 127 ==> low * p <= 127 * p
  {
  }

  /** The bits past 32 in a number of at most 63 bits end in a byte that is neither a zero nor a sign. */
  lemma {:induction false} WideGroupsFail(m: nat, result: U32, group: nat, rest: Bytes)
    requires 1 <= group && m > 0 && m * Pow128(group) < Pow128(9)
    requires group <= 4 ==> result + m * Pow128(group) >= TWO32 && result < Pow128(group)
    ensures MoreGroups(Varint(m) + rest, result, group) == None
    decreases m
  {
    hide Pow128, MoreGroups, Varint, Shifted;
    WideGroup(m, result, group);
    OneGroup(m, result, group, rest);
    if m >= 128 {
      WideGroupsFail(m / 128, Shifted(result, m % 128, group), group + 1, rest);
    }
  }

  lemma WideGroup(m: nat, result: U32, group: nat)
    requires 1 <= group && m > 0 && m * Pow128(group) < Pow128(9)
    requires group <= 4 ==> result + m * Pow128(group) >= TWO32 && result < Pow128(group)
    ensures group <= 8 && (m < 128 ==> group >= 4) && (m < 16 ==> group >= 5)
    ensures m / 128 * Pow128(group + 1) < Pow128(9)
    ensures group <= 3 ==>
      Shifted(result, m % 128, group) < Pow128(group + 1) &&
      Shifted(result, m % 128, group) + m / 128 * Pow128(group + 1) >= TWO32
  {
    hide Shifted;
    Pow128s();
    GroupSplits(m, group);
    TopGroup(m, group);
    if group <= 3 { LowGroup(m, result, group); }
    if m < 128 { assert m * Pow128(group) <= 127 * Pow128(group); }
    if m < 16 { assert m * Pow128(group) <= 15 * Pow128(group); }
  }

  lemma LowGroup(m: nat, result: U32, group: nat)
    requires 1 <= group <= 4 && result < Pow128(group)
    ensures group <= 3 || m < 16 ==> Shifted(result, m % 128, group) == result + m % 128 * Pow128(group)
    ensures result + m % 128 * Pow128(group) < Pow128(group + 1)
  {
    Pow128s();
    GroupSplits(m, group);
  }

  lemma TopGroup(m: nat, group: nat)
    requires m > 0 && m * Pow128(group) < Pow128(9)
    ensures group <= 8
  {
    assert m * Pow128(group) >= Pow128(group);
    assert Pow128(group) < Pow128(9);
    Pow128Grows(group);
  }

  lemma {:induction false} Pow128Grows(group: nat)
    ensures group >= 9 ==> Pow128(group) >= Pow128(9)
  {
    if group > 9 { Pow128Grows(group - 1); }
  }

  lemma FirstGroup(n: nat)
    requires n >= 128
    ensures n % 128 < Pow128(1) && n == n % 128 + n / 128 * Pow128(1)
    ensures n < 0x8000_0000_0000_0000 ==> n / 128 * Pow128(1) < Pow128(9)
  {
    Pow128s();
  }

  lemma FirstByte(n: nat, rest: Bytes)
    ensures n < 128 ==> UnVarint32(Varint(n) + rest) == Some((n, rest))
    ensures n >= 128 ==> UnVarint32(Varint(n) + rest) == MoreGroups(Varint(n / 128) + rest, n % 128, 1)
  {
    hide Pow128, MoreGroups;
    var input := Varint(n) + rest;
    if n < 128 {
      assert input[1..] == rest;
    } else {
      assert input[1..] == Varint(n / 128) + rest;
    }
  }

  /** The decoder of lengths and tags reads back every number that fits, and rejects every larger one that a length
      in memory can be. */
  lemma Varint32Exact(n: nat, rest: Bytes)
    requires n < 0x8000_0000_0000_0000
    ensures UnVarint32(Varint(n) + rest) == if n < TWO32 then Some((n, rest)) else None
  {
    hide Pow128, MoreGroups, UnVarint32, Varint;
    FirstByte(n, rest);
    if n >= 128 {
      FirstGroup(n);
      if n < TWO32 {
        GroupsRead(n, n / 128, n % 128, 1, rest);
      } else {
        WideGroupsFail(n / 128, n % 128, 1, rest);
      }
    }
  }

  // ---------- numbers ----------

  function ZigZag(n: int): (r: nat)
  {
    if n < 0 then -2 * n - 1 else 2 * n
  }

  function UnZigZag(v: nat): int {
    if v % 2 == 1 then -(v / 2) - 1 else v / 2
  }

  /** The low `size` bytes of a number read as a signed one. */
  function Signed(n: int, size: nat): int {
    var low := n % Pow256(size);
    if low >= Half(size) then low - Pow256(size) else low
  }

  /** What the varint of a number carries. */
  function ToVarint(k: Kind, size: nat, n: int): U64
    requires (k.VarintK? || k.UVarintK? || k.SVarintK?) && Width(size) && NumShape(k, size, n)
  {
    Widths();
    if k.VarintK? then n % TWO64 else if k.SVarintK? then ZigZag(n) else n
  }

  /** The number a varint stands for, if the member can hold it. A signed number not of eight bytes is first cut to
      32 bits. */
  function FromVarint(k: Kind, size: nat, v: U64): (r: Option<int>)
    requires (k.VarintK? || k.UVarintK? || k.SVarintK?) && Width(size)
    ensures r.Some? ==> NumShape(k, size, r.value)
  {
    Widths();
    if k.UVarintK? then
      if v % Pow256(size) != v then None else Some(v)
    else
      var value := if k.SVarintK? then UnZigZag(v) else Signed(v, if size == 8 then 8 else 4);
      if Signed(value, size) != value then None else Some(value)
  }

  function EncodeNum(k: Kind, size: nat, n: int): Option<Bytes>
    requires Packable(k) && NumShape(k, size, n)
  {
    if k.Fixed32K? then Some(Fixed32(n))
    else if k.Fixed64K? then Some(Fixed64(n))
    else if !Width(size) then None
    else Some(Varint(ToVarint(k, size, n)))
  }

  function DecodeNum(k: Kind, size: nat, input: Bytes): (r: Option<(int, Bytes)>)
    requires Packable(k)
    ensures r.Some? ==> |r.value.1| < |input| && NumShape(k, size, r.value.0)
  {
    if k.Fixed32K? then
      if |input| < 4 then None else Some((UnFixed32(input[..4]), input[4..]))
    else if k.Fixed64K? then
      if |input| < 8 then None else Some((UnFixed64(input[..8]), input[8..]))
    else
      match GetVarint64(input)
      case None => None
      case Some((v, rest)) =>
        if !Width(size) then None
        else
          match FromVarint(k, size, v)
          case None => None
          case Some(n) => Some((n, rest))
  }

  lemma Widths()
    ensures Pow256(1) == 0x100 && Pow256(2) == 0x1_0000 && Pow256(4) == TWO32 && Pow256(8) == TWO64
    ensures Half(1) == 0x80 && Half(2) == 0x8000 && Half(4) == 0x8000_0000 && Half(8) == 0x8000_0000_0000_0000
  {
    assert Pow256(3) == 0x100_0000;
    assert Pow256(5) == 0x100_0000_0000 && Pow256(6) == 0x1_0000_0000_0000 && Pow256(7) == 0x100_0000_0000_0000;
  }

  /** A negative number travels as its 64-bit complement and comes back through the 32-bit cast. */
  lemma SignedFits(n: int, size: nat)
    requires Width(size) && -Half(size) <= n < Half(size)
    ensures Signed(n % TWO64, if size == 8 then 8 else 4) == n
    ensures Signed(n, size) == n
  {
    Widths();
  }

  lemma ZigZagRoundTrip(n: int)
    ensures UnZigZag(ZigZag(n)) == n
  {
  }

  lemma VarintCarries(k: Kind, size: nat, n: int)
    requires (k.VarintK? || k.UVarintK? || k.SVarintK?) && Width(size) && NumShape(k, size, n)
    ensures FromVarint(k, size, ToVarint(k, size, n)) == Some(n)
  {
    Widths();
    ZigZagRoundTrip(n);
    if !k.UVarintK? { SignedFits(n, size); }
  }

  lemma NumRoundTrip(k: Kind, size: nat, n: int, rest: Bytes)
    requires Packable(k) && NumShape(k, size, n) && EncodeNum(k, size, n).Some?
    ensures DecodeNum(k, size, EncodeNum(k, size, n).value + rest) == Some((n, rest))
  {
    hide NumShape;
    var input := EncodeNum(k, size, n).value + rest;
    if k.Fixed32K? {
      assert 0 <= n < TWO32 by { NumIsFixed(k, size, n); }
      Fixed32RoundTrip(n);
      assert input[..4] == Fixed32(n) && input[4..] == rest;
    } else if k.Fixed64K? {
      assert 0 <= n < TWO64 by { NumIsFixed(k, size, n); }
      Fixed64RoundTrip(n);
      assert input[..8] == Fixed64(n) && input[8..] == rest;
    } else {
      VarintCarries(k, size, n);
      Varint64RoundTrip(ToVarint(k, size, n), rest);
    }
  }

  lemma NumIsFixed(k: Kind, size: nat, n: int)
    requires Packable(k) && NumShape(k, size, n)
    ensures k.Fixed32K? ==> 0 <= n < TWO32
    ensures k.Fixed64K? ==> 0 <= n < TWO64
  {
  }

  // ---------- length-delimited records ----------

  function Delimited(payload: Bytes): Bytes {
    Varint(|payload|) + payload
  }

  function UnDelimited(input: Bytes): (r: Option<(Bytes, Bytes)>)
    ensures r.Some? ==> |r.value.0| + |r.value.1| < |input|
  {
    match UnVarint32(input)
    case None => None
    case Some((size, rest)) => if |rest| < size then None else Some((rest[..size], rest[size..]))
  }

  lemma DelimitedExact(payload: Bytes, rest: Bytes)
    requires |payload| < 0x8000_0000_0000_0000
    ensures UnDelimited(Delimited(payload) + rest) == if |payload| < TWO32 then Some((payload, rest)) else None
  {
    assert Delimited(payload) + rest == Varint(|payload|) + (payload + rest);
    Varint32Exact(|payload|, payload + rest);
  }

  // ---------- tags ----------

  type Wire = w: nat | w < 8
  const VARINT: Wire := 0
  const BITS64: Wire := 1
  const STRING: Wire := 2
  const BITS32: Wire := 5

  function WireOf(k: Kind): Wire {
    match k
    case VarintK => VARINT
    case UVarintK => VARINT
    case SVarintK => VARINT
    case Fixed32K => BITS32
    case Fixed64K => BITS64
    case _ => STRING
  }

  function Tag(wire: Wire, tag: U32): Bytes {
    Varint(8 * tag + wire)
  }

  datatype TagRead = Eof(rest: Bytes) | BadTag | TagIs(wire: Wire, tag: U32, rest: Bytes)

  /** A zero in the place of a tag ends the message. */
  function UnTag(input: Bytes): (r: TagRead)
    ensures r.TagIs? ==> |r.rest| < |input|
  {
    if input == [] then Eof([])
    else
      match UnVarint32(input)
      case None => BadTag
      case Some((n, rest)) =>
        if n == 0 then Eof(rest) else TagIs(n % 8, n / 8, rest)
  }

  lemma TagRoundTrip(wire: Wire, tag: U32, rest: Bytes)
    requires 0 < tag < MAX_TAG
    ensures UnTag(Tag(wire, tag) + rest) == TagIs(wire, tag, rest)
  {
    Varint32Exact(8 * tag + wire, rest);
  }

  // ---------- unknown fields ----------

  function SkipVarint(input: Bytes): (r: Option<Bytes>)
    ensures r.Some? ==> |r.value| < |input|
  {
    if input == [] then None
    else if input[0] >= 128 then SkipVarint(input[1..])
    else Some(input[1..])
  }

  function SkipField(wire: Wire, input: Bytes): (r: Option<Bytes>)
    ensures r.Some? ==> |r.value| <= |input|
  {
    if wire == VARINT then SkipVarint(input)
    else if wire == BITS64 then if |input| < 8 then None else Some(input[8..])
    else if wire == STRING then match UnDelimited(input) case None => None case Some((_, rest)) => Some(rest)
    else if wire == BITS32 then if |input| < 4 then None else Some(input[4..])
    else None
  }

  lemma {:induction false} SkipsVarint(n: nat, rest: Bytes)
    ensures SkipVarint(Varint(n) + rest) == Some(rest)
  {
    var input := Varint(n) + rest;
    if n < 128 {
      assert input[1..] == rest;
    } else {
      assert input[1..] == Varint(n / 128) + rest;
      SkipsVarint(n / 128, rest);
    }
  }
}
