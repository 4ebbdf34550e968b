/** Bytes of any origin. */
module PbReads {
  // What nanopb makes of bytes that its own encoder might not have written: which records and numbers a member takes,
  // which it refuses, and what a message must not lack (pb_decode.c lines 287-328, 987-1046, 1289-1508).

  import opened Basics
  import opened Coding
  import opened PbFields
  import opened PbWire
  import opened PbDecode

  // ---------- records ----------

  /** A record for bytes or a string must leave room for the length or the terminator, and a string ends at its first
      zero; fixed-length bytes must be all there, or none, which stands for zeros. */
  lemma RecordRead(k: Kind, size: U32, current: Value, payload: Bytes, rest: Bytes)
    requires (k.BytesK? || k.StringK? || k.FixedBytesK?) && |payload| < TWO32
    ensures
      var r := DecodeValue(k, size, current, Delimited(payload) + rest);
      && (k.BytesK? ==> r == (if |payload| + 4 <= size then Some((Raw(payload), rest)) else None))
      && (k.StringK? ==> (r.Some? <==> |payload| + 1 <= size))
      && (k.StringK? && r.Some? ==> r.value.0.Raw? && r.value.1 == rest && IsText(r.value.0.bytes, payload))
      && (k.FixedBytesK? && payload != [] ==>
           r == (if |payload| == size then Some((Raw(payload), rest)) else None))
      && (k.FixedBytesK? && payload == [] ==> r == Some((Raw(Zeros(size)), rest)))
  {
    hide UnVarint32, Varint;
    assert Delimited(payload) + rest == Varint(|payload|) + (payload + rest);
    Varint32Exact(|payload|, payload + rest);
    assert (payload + rest)[..|payload|] == payload && (payload + rest)[|payload|..] == rest;
    if k.FixedBytesK? && payload == [] {
      assert payload + rest == rest;
    }
    EndsAtNul(payload);
  }

  /** The bytes before the first zero. */
  predicate IsText(text: Bytes, bytes: Bytes) {
    text <= bytes && 0 !in text && (|text| < |bytes| ==> bytes[|text|] == 0)
  }

  lemma {:induction false} EndsAtNul(bytes: Bytes)
    ensures IsText(UpToNul(bytes), bytes)
  {
    if bytes != [] && bytes[0] != 0 {
      EndsAtNul(bytes[1..]);
      assert bytes == [bytes[0]] + bytes[1..];
    }
  }

  /** A record that promises more bytes than there are is refused. */
  lemma ShortRecordFails(k: Kind, size: U32, current: Value, n: U32, rest: Bytes)
    requires WireOf(k) == STRING && |rest| < n
    requires k.SubK? ==> WellFormed(k.fields) && ValueShape(k, size, current, true)
    ensures DecodeValue(k, size, current, Varint(n) + rest) == None
  {
    hide UnVarint32, Varint, DecodeMerge;
    Varint32Exact(n, rest);
  }

  // ---------- integers ----------

  /** An unsigned number is taken exactly when it lies below 256 to the member's size. */
  lemma UnsignedRead(size: nat, v: U64, rest: Bytes)
    requires Width(size)
    ensures DecodeNum(UVarintK, size, Varint(v) + rest) == if v < Pow256(size) then Some((v, rest)) else None
  {
    hide UnVarint, Varint, Pow256;
    Varint64RoundTrip(v, rest);
    Widths();
    var p := Pow256(size);
    if v < p { Remainder(v, v, p); }
  }

  /** A signed number of eight bytes is the 64 bits in two's complement; a shorter one is the low 32 of them, and is
      taken exactly when the member can hold it. */
  lemma SignedRead(size: nat, v: U64, n: int, rest: Bytes)
    requires Width(size)
    requires var bits := if size == 8 then TWO64 else TWO32;
      -bits / 2 <= n < bits / 2 && (v - n) % bits == 0
    ensures DecodeNum(VarintK, size, Varint(v) + rest) ==
      if -Half(size) <= n < Half(size) then Some((n, rest)) else None
  {
    hide Pow256, Half;
    Varint64RoundTrip(v, rest);
    Widths();
    var wide := if size == 8 then 8 else 4;
    SignedIs(v, wide, n);
    SignedOf(n, size);
  }

  lemma SignedIs(v: int, size: nat, n: int)
    requires Width(size) && -Half(size) <= n < Half(size) && (v - n) % Pow256(size) == 0
    ensures Signed(v, size) == n
  {
    hide Pow256;
    Widths();
    var b := Pow256(size);
    Remainder(v, if n >= 0 then n else n + b, b);
  }

  lemma Remainder(v: int, n: int, b: nat)
    requires 0 <= n < b && ((v - n) % b == 0 || (v - n + b) % b == 0)
    ensures v % b == n
  {
    var d := if (v - n) % b == 0 then (v - n) / b else (v - n + b) / b - 1;
    assert v - n == d * b by {
      if (v - n) % b != 0 { NextMultiple(v - n, b); }
    }
    SmallMultiple(v / b - d, b, n - v % b);
  }

  lemma NextMultiple(x: int, b: nat)
    requires b > 0 && (x + b) % b == 0
    ensures x == ((x + b) / b - 1) * b
  {
    assert x + b == (x + b) / b * b;
  }

  lemma SmallMultiple(q: int, b: nat, x: int)
    requires q * b == x && 0 - b < x < b
    ensures x == 0
  {
    assert q >= 1 ==> q * b >= b;
    assert q <= -1 ==> q * b <= 0 - b;
  }

  /** A number is its own low bytes exactly when the member can hold it. */
  lemma SignedOf(n: int, size: nat)
    requires Width(size)
    ensures Signed(n, size) == n <==> -Half(size) <= n < Half(size)
  {
    Widths();
    if -Half(size) <= n < Half(size) { SignedIs(n, size, n); }
  }

  /** A zigzag number is taken exactly when the member can hold the number it stands for. */
  lemma ZigZagRead(size: nat, n: int, rest: Bytes)
    requires Width(size) && -0x8000_0000_0000_0000 <= n < 0x8000_0000_0000_0000
    ensures var v: U64 := if n < 0 then -2 * n - 1 else 2 * n;
      DecodeNum(SVarintK, size, Varint(v) + rest) == if -Half(size) <= n < Half(size) then Some((n, rest)) else None
  {
    hide Pow256, Half;
    var v: U64 := if n < 0 then -2 * n - 1 else 2 * n;
    Varint64RoundTrip(v, rest);
    ZigZagRoundTrip(n);
    SignedOf(n, size);
  }

  // ---------- wire types ----------

  /** A field the reader does not know is passed over by its wire type alone; with none of the four it is an error. */
  lemma UnknownWireFails(
      fields: seq<Field>, wire: Wire, tag: U32, current: seq<Slot>, seen: set<nat>, rest: Bytes)
    requires WellFormed(fields) && Shape(fields, current, true)
    requires 0 < tag < MAX_TAG && forall i: nat :: i < |fields| ==> fields[i].tag != tag
    requires wire !in {0, 1, 2, 5}
    ensures DecodeLoop(fields, Tag(wire, tag) + rest, current, seen) == None
  {
    hide DecodeLoop, DecodeField, WellFormed, Shape, Tag;
    TagRoundTrip(wire, tag, rest);
    LocateFinds(fields, tag, 0);
    LoopTurn(fields, Tag(wire, tag) + rest, current, seen);
  }

  // ---------- required fields ----------

  predicate Tail(rest: Bytes, input: Bytes) {
    |rest| <= |input| && rest == input[|input| - |rest|..]
  }

  lemma TailOfTail(a: Bytes, b: Bytes, c: Bytes)
    requires Tail(a, b) && Tail(b, c)
    ensures Tail(a, c)
  {
  }

  lemma {:induction false} MoreGroupsTail(input: Bytes, result: U32, group: nat)
    ensures MoreGroups(input, result, group).Some? ==> Tail(MoreGroups(input, result, group).value.1, input)
  {
    hide Shifted;
    if input != [] && input[0] >= 128 {
      MoreGroupsTail(input[1..], Shifted(result, input[0] % 128, group), group + 1);
    }
  }

  lemma Varint32Tail(input: Bytes)
    ensures UnVarint32(input).Some? ==> Tail(UnVarint32(input).value.1, input)
  {
    if input != [] && input[0] >= 128 { MoreGroupsTail(input[1..], input[0] % 128, 1); }
  }

  lemma {:induction false} VarintTail(input: Bytes, limit: nat)
    ensures UnVarint(input, limit).Some? ==> Tail(UnVarint(input, limit).value.1, input)
  {
    if limit > 0 && input != [] && input[0] >= 128 { VarintTail(input[1..], limit - 1); }
  }

  lemma {:induction false} SkipVarintTail(input: Bytes)
    ensures SkipVarint(input).Some? ==> Tail(SkipVarint(input).value, input)
  {
    if input != [] && input[0] >= 128 { SkipVarintTail(input[1..]); }
  }

  lemma SkipTail(wire: Wire, input: Bytes)
    ensures SkipField(wire, input).Some? ==> Tail(SkipField(wire, input).value, input)
  {
    hide UnVarint32, SkipVarint;
    SkipVarintTail(input);
    Varint32Tail(input);
  }

  lemma TagTail(input: Bytes)
    ensures UnTag(input).TagIs? ==> Tail(UnTag(input).rest, input)
  {
    hide UnVarint32;
    Varint32Tail(input);
  }

  lemma ValueTail(k: Kind, size: U32, current: Value, input: Bytes)
    requires k.SubK? ==> WellFormed(k.fields) && ValueShape(k, size, current, true)
    ensures DecodeValue(k, size, current, input).Some? ==> Tail(DecodeValue(k, size, current, input).value.1, input)
  {
    hide UnVarint32, UnVarint, DecodeMerge, UpToNul, FromVarint, NumShape, UnFixed32, UnFixed64, Width;
    Varint32Tail(input);
    VarintTail(input, 10);
  }

  lemma FieldTail(f: Field, s: Slot, wire: Wire, input: Bytes)
    requires WellFormedField(f) && SlotShape(f, s, true)
    ensures DecodeField(f, s, wire, input).Some? ==> Tail(DecodeField(f, s, wire, input).value.1, input)
  {
    hide DecodeValue, UnVarint32, DecodePacked, ValueShape, WellFormed, Defaults;
    Varint32Tail(input);
    var anew := f.rule == Repeated || f.rule == Oneof;
    if anew { DefaultValueShape(f); }
    ValueTail(f.kind, f.dataSize, if anew then DefaultValue(f.kind, f.dataSize, f.default) else s.value, input);
  }

  /** A number in the set of fields seen comes from a tag in the input. */
  lemma {:induction false} SeenFromTag(
      fields: seq<Field>, input: Bytes, slots: seq<Slot>, seen: set<nat>, k: nat) returns (at: nat, i: nat)
    requires WellFormed(fields) && Shape(fields, slots, true)
    requires DecodeLoop(fields, input, slots, seen).Some?
    requires k in DecodeLoop(fields, input, slots, seen).value.seen && k !in seen
    ensures at <= |input| && i < |fields| && fields[i].rule == Required && RequiredBefore(fields, i) == k
    ensures UnTag(input[at..]).TagIs? && UnTag(input[at..]).tag == fields[i].tag
    decreases |input|
  {
    hide WellFormed, Shape, DecodeField, SkipField, UnTag, DecodeLoop, Locate, RequiredBefore;
    LoopTurn(fields, input, slots, seen);
    TagTail(input);
    var (wire, tag, rest) := (UnTag(input).wire, UnTag(input).tag, UnTag(input).rest);
    match Locate(fields, tag, 0)
    case None =>
      var behind := SkipField(wire, rest).value;
      SkipTail(wire, rest);
      TailOfTail(behind, rest, input);
      at, i := SeenFromTag(fields, behind, slots, seen, k);
      at := at + |input| - |behind|;
    case Some(j) =>
      if k in Saw(fields, j, seen) {
        at, i := 0, j;
        assert input[0..] == input;
      } else {
        var r := DecodeField(fields[j], slots[SlotAt(fields, j)], wire, rest).value;
        FieldTail(fields[j], slots[SlotAt(fields, j)], wire, rest);
        TailOfTail(r.1, rest, input);
        at, i := SeenFromTag(fields, r.1, slots[SlotAt(fields, j) := r.0], Saw(fields, j, seen), k);
        at := at + |input| - |r.1|;
      }
  }

  /** A message lacking one of its first 64 required fields is refused: whatever is decoded has their tags. */
  lemma RequiredTagOccurs(fields: seq<Field>, input: Bytes, slots: seq<Slot>, i: nat)
    requires WellFormed(fields) && Shape(fields, slots, true)
    requires i < |fields| && fields[i].rule == Required && RequiredBefore(fields, i) < 64
    ensures DecodeMerge(fields, input, slots).Some? ==>
      exists at :: 0 <= at <= |input| && UnTag(input[at..]).TagIs? && UnTag(input[at..]).tag == fields[i].tag
  {
    hide WellFormed, Shape, DecodeLoop, UnTag;
    if DecodeMerge(fields, input, slots).Some? {
      RequiredGrows(fields, i, |fields|);
      var at, j := SeenFromTag(fields, input, slots, {}, RequiredBefore(fields, i));
      RequiredGrows(fields, i, j);
      RequiredGrows(fields, j, i);
    }
  }

  lemma {:induction false} RequiredGrows(fields: seq<Field>, i: nat, j: nat)
    requires i < |fields| && j <= |fields| && fields[i].rule == Required
    ensures i < j ==> RequiredBefore(fields, i) < RequiredBefore(fields, j)
  {
    if i < j {
      if i < j - 1 { RequiredGrows(fields, i, j - 1); }
    }
  }

  /** Nothing else makes a message that could be read be refused; the 65th required field and those behind it are not
      looked for. */
  lemma RefusedOnlyForThose(fields: seq<Field>, input: Bytes, slots: seq<Slot>)
    requires WellFormed(fields) && Shape(fields, slots, true)
    ensures var r := DecodeLoop(fields, input, slots, {});
      DecodeMerge(fields, input, slots) ==
        if r.Some? && (forall k: nat :: k < 64 && k < RequiredBefore(fields, |fields|) ==> k in r.value.seen)
        then Some((r.value.slots, r.value.rest)) else None
  {
  }
}
