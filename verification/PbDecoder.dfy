/** The decoder of nanopb (pb_decode.c lines 81-475 and 811-1063, 1240-1508): it reads from a stream with a byte
    budget and writes into a struct, and does exactly what PbDecode says. */
module PbDecoder {
  import opened Basics
  import opened Coding
  import opened PbFields
  import opened PbWire
  import opened PbDecode

  class IStream {
    const buf: Bytes
    var state: nat
    var bytesLeft: nat

    ghost predicate Valid()
      reads this
    {
      state + bytesLeft <= |buf|
    }

    ghost function Left(): (r: Bytes)
      requires Valid()
      reads this
      ensures |r| == bytesLeft
    {
      buf[state..state + bytesLeft]
    }

    ghost function End(): nat
      reads this
    {
      state + bytesLeft
    }

    constructor FromBuffer(buf: Bytes)
      ensures Valid() && Left() == buf
    {
      this.buf := buf;
      state, bytesLeft := 0, |buf|;
    }

    /** The next `size` bytes of another stream. */
    constructor Within(parent: IStream, size: nat)
      requires parent.Valid() && size <= parent.bytesLeft
      ensures Valid() && buf == parent.buf && state == parent.state && Left() == parent.Left()[..size]
    {
      buf := parent.buf;
      state, bytesLeft := parent.state, size;
    }

    method Read(count: nat) returns (ok: bool, bytes: Bytes)
      requires Valid()
      modifies this
      ensures Valid() && End() == old(End()) && ok == (count <= |old(Left())|)
      ensures ok ==> bytes == old(Left())[..count] && Left() == old(Left())[count..]
    {
      if bytesLeft < count { return false, []; }
      bytes := buf[state..state + count];
      state := state + count;
      bytesLeft := bytesLeft - count;
      ok := true;
    }

    method ReadByte() returns (ok: bool, byte: Byte)
      requires Valid()
      modifies this
      ensures Valid() && End() == old(End()) && ok == (old(Left()) != [])
      ensures ok ==> byte == old(Left())[0] && Left() == old(Left())[1..]
      ensures !ok ==> Left() == old(Left())
    {
      if bytesLeft == 0 { return false, 0; }
      byte := buf[state];
      state := state + 1;
      bytesLeft := bytesLeft - 1;
      ok := true;
    }

    /** `eof` tells an end before the first byte from one in the middle of a number. */
    method DecodeVarint32() returns (ok: bool, dest: U32, eof: bool)
      requires Valid()
      modifies this
      ensures Valid() && End() == old(End())
      ensures ok == UnVarint32(old(Left())).Some?
      ensures ok ==> UnVarint32(old(Left())) == Some((dest, Left()))
      ensures eof == (old(Left()) == []) && (eof ==> Left() == [])
    {
      hide Shifted;
      dest, eof := 0, bytesLeft == 0;
      var byte: Byte;
      ok, byte := ReadByte();
      if !ok { return; }
      if byte < 128 {
        dest := byte;
        return;
      }
      ghost var group := 1;
      var bitpos := 7;
      dest := byte % 128;
      while true
        invariant Valid() && End() == old(End()) && bitpos == 7 * group
        invariant UnVarint32(old(Left())) == MoreGroups(Left(), dest, group)
        decreases bytesLeft
      {
        ok, byte := ReadByte();
        if !ok { return; }
        if bitpos >= 32 {
          var signExtension := if bitpos < 63 then 0xFF else 0x01;
          if byte % 128 != 0 && (dest < 0x8000_0000 || byte != signExtension) { return false, 0, false; }
          assert Shifted(dest, byte % 128, group) == dest by { NothingShifted(dest, byte % 128, group); }
        } else {
          dest := Shifted(dest, byte % 128, bitpos / 7);
        }
        bitpos, group := bitpos + 7, group + 1;
        if byte < 128 { break; }
      }
      ok := !(bitpos == 35 && byte / 16 % 8 != 0);
    }

    method DecodeVarint() returns (ok: bool, dest: U64)
      requires Valid()
      modifies this
      ensures Valid() && End() == old(End())
      ensures ok == GetVarint64(old(Left())).Some?
      ensures ok ==> GetVarint64(old(Left())) == Some((dest, Left()))
    {
      hide Pow128, UnVarint, Gathered;
      dest := 0;
      var bitpos := 0;
      ghost var group: nat := 0;
      NothingGathered(Left());
      while true
        invariant Valid() && End() == old(End()) && bitpos == 7 * group && group <= 10
        invariant group < 10 ==> dest < Pow128(group) && UnVarint(old(Left()), 10) == Gathered(Left(), dest, group)
        invariant group == 10 ==> UnVarint(old(Left()), 10) == None
        decreases bytesLeft
      {
        if bitpos >= 64 { return false, 0; }
        GatherNext(Left(), dest, group);
        var byte: Byte;
        ok, byte := ReadByte();
        if !ok { return; }
        dest := (dest + byte % 128 * Pow128(bitpos / 7)) % TWO64;
        bitpos, group := bitpos + 7, group + 1;
        if byte < 128 { break; }
      }
      ok := true;
    }
  }

  // ---------- tags and unknown fields ----------

  method DecodeTag(stream: IStream) returns (ok: bool, wire: Wire, tag: U32, eof: bool)
    requires stream.Valid()
    modifies stream
    ensures stream.Valid() && stream.End() == old(stream.End())
    ensures match UnTag(old(stream.Left()))
      case Eof(rest) => !ok && eof && stream.Left() == rest
      case BadTag => !ok && !eof
      case TagIs(w, t, rest) => ok && wire == w && tag == t && stream.Left() == rest
  {
    wire, tag := 0, 0;
    var n: U32;
    ok, n, eof := stream.DecodeVarint32();
    if !ok { return; }
    if n == 0 { return false, 0, 0, true; }
    tag, wire := n / 8, n % 8;
  }

  method SkipVarintBytes(stream: IStream) returns (ok: bool)
    requires stream.Valid()
    modifies stream
    ensures stream.Valid() && stream.End() == old(stream.End())
    ensures ok == SkipVarint(old(stream.Left())).Some?
    ensures ok ==> Some(stream.Left()) == SkipVarint(old(stream.Left()))
  {
    while true
      invariant stream.Valid() && stream.End() == old(stream.End())
      invariant SkipVarint(stream.Left()) == SkipVarint(old(stream.Left()))
      decreases stream.bytesLeft
    {
      var byte: Bytes;
      ok, byte := stream.Read(1);
      if !ok { return; }
      if byte[0] < 128 { break; }
    }
    ok := true;
  }

  method SkipFieldBytes(stream: IStream, wire: Wire) returns (ok: bool)
    requires stream.Valid()
    modifies stream
    ensures stream.Valid() && stream.End() == old(stream.End())
    ensures ok == SkipField(wire, old(stream.Left())).Some?
    ensures ok ==> Some(stream.Left()) == SkipField(wire, old(stream.Left()))
  {
    var skipped: Bytes;
    if wire == VARINT {
      ok := SkipVarintBytes(stream);
    } else if wire == BITS64 {
      ok, skipped := stream.Read(8);
    } else if wire == STRING {
      var length: U32, eof: bool;
      ok, length, eof := stream.DecodeVarint32();
      if ok { ok, skipped := stream.Read(length); }
    } else if wire == BITS32 {
      ok, skipped := stream.Read(4);
    } else {
      ok := false;
    }
  }

  // ---------- records inside a record ----------

  /** A stream over the next record. The parent's budget shrinks at once; its position moves when the record is
      closed. */
  method MakeSubstream(stream: IStream) returns (sub: Option<IStream>)
    requires stream.Valid()
    modifies stream
    ensures stream.Valid()
    ensures sub.Some? == UnDelimited(old(stream.Left())).Some?
    ensures sub.Some? ==>
      fresh(sub.value) && sub.value.Valid() && sub.value.buf == stream.buf &&
      UnDelimited(old(stream.Left())).value.0 == sub.value.Left() &&
      sub.value.End() + stream.bytesLeft == old(stream.End()) &&
      UnDelimited(old(stream.Left())).value.1 == stream.buf[sub.value.End()..][..stream.bytesLeft]
    ensures stream.End() <= old(stream.End())
  {
    var ok, size, eof := stream.DecodeVarint32();
    if !ok { return None; }
    if stream.bytesLeft < size { return None; }
    var inner := new IStream.Within(stream, size);
    stream.bytesLeft := stream.bytesLeft - size;
    sub := Some(inner);
  }

  /** Passes over what is left of the record. */
  method CloseSubstream(stream: IStream, sub: IStream) returns (ok: bool)
    requires stream.Valid() && sub.Valid() && stream != sub && sub.buf == stream.buf
    requires sub.End() + stream.bytesLeft <= |stream.buf|
    modifies stream, sub
    ensures ok && stream.Valid() && stream.End() == old(sub.End()) + old(stream.bytesLeft)
    ensures stream.Left() == stream.buf[old(sub.End())..][..old(stream.bytesLeft)]
  {
    ok := true;
    if sub.bytesLeft > 0 {
      var skipped: Bytes;
      ok, skipped := sub.Read(sub.bytesLeft);
    }
    stream.state := sub.state;
  }

  // ---------- values ----------

  method DecodeNumber(stream: IStream, k: Kind, size: nat) returns (r: Option<int>)
    requires stream.Valid() && Packable(k)
    modifies stream
    ensures stream.Valid() && stream.End() == old(stream.End())
    ensures r.Some? == DecodeNum(k, size, old(stream.Left())).Some?
    ensures r.Some? ==> DecodeNum(k, size, old(stream.Left())) == Some((r.value, stream.Left()))
  {
    hide NumShape, GetVarint64, FromVarint;
    if k.Fixed32K? {
      var ok, bytes := stream.Read(4);
      return if ok then Some(UnFixed32(bytes)) else None;
    }
    if k.Fixed64K? {
      var ok, bytes := stream.Read(8);
      return if ok then Some(UnFixed64(bytes)) else None;
    }
    var ok, v := stream.DecodeVarint();
    if !ok || !Width(size) { return None; }
    r := FromVarint(k, size, v);
  }

  /** Bytes, strings and byte arrays of fixed length. */
  method DecodeRaw(stream: IStream, k: Kind, size: U32) returns (r: Option<Value>)
    requires stream.Valid() && (k.BytesK? || k.StringK? || k.FixedBytesK?)
    modifies stream
    ensures stream.Valid() && stream.End() == old(stream.End())
    ensures r.Some? == DecodeValue(k, size, BLANK, old(stream.Left())).Some?
    ensures r.Some? ==> DecodeValue(k, size, BLANK, old(stream.Left())) == Some((r.value, stream.Left()))
  {
    hide UnVarint32;
    var ok, n, eof := stream.DecodeVarint32();
    if !ok { return None; }
    var bytes: Bytes;
    if k.BytesK? {
      if n + BYTES_HEADER > size { return None; }
      ok, bytes := stream.Read(n);
      return if ok then Some(Raw(bytes)) else None;
    } else if k.StringK? {
      if n + 1 > size { return None; }
      ok, bytes := stream.Read(n);
      return if ok then Some(Raw(UpToNul(bytes))) else None;
    } else {
      if n == 0 { return Some(Raw(Zeros(size))); }
      if n != size { return None; }
      ok, bytes := stream.Read(n);
      return if ok then Some(Raw(bytes)) else None;
    }
  }

  /** The struct a message is decoded into. */
  class Struct {
    var slots: seq<Slot>

    constructor (slots: seq<Slot>)
      ensures this.slots == slots
    {
      this.slots := slots;
    }
  }

  method DecodeValueFrom(stream: IStream, k: Kind, size: U32, current: Value) returns (r: Option<Value>)
    requires stream.Valid()
    requires k.SubK? ==> WellFormed(k.fields) && ValueShape(k, size, current, true)
    modifies stream
    ensures stream.Valid() && stream.End() <= old(stream.End())
    ensures r.Some? == DecodeValue(k, size, current, old(stream.Left())).Some?
    ensures r.Some? ==>
      DecodeValue(k, size, current, old(stream.Left())) == Some((r.value, stream.Left())) &&
      stream.End() == old(stream.End())
    decreases stream.bytesLeft, 0
  {
    hide DecodeMerge, WellFormed, Shape, UnDelimited, DecodeNum;
    if k.SubK? {
      var sub := MakeSubstream(stream);
      if sub == None { return None; }
      var dest := new Struct(current.slots);
      var status := DecodeMessage(sub.value, k.fields, dest);
      var closed := CloseSubstream(stream, sub.value);
      return if status && closed then Some(Msg(dest.slots)) else None;
    } else if Packable(k) {
      var n := DecodeNumber(stream, k, size);
      return if n.Some? then Some(Num(n.value)) else None;
    } else {
      r := DecodeRaw(stream, k, size);
    }
  }

  /** The items of a packed array, up to the end of their record, behind those the struct already holds. */
  method DecodePackedItems(sub: IStream, f: Field, items: seq<Value>) returns (r: Option<seq<Value>>)
    requires sub.Valid() && Packable(f.kind) && |items| <= f.arraySize && ItemsFit(f, items)
    modifies sub
    ensures sub.Valid() && sub.End() == old(sub.End())
    ensures r == DecodePacked(f.kind, f.dataSize, f.arraySize, items, old(sub.Left()))
  {
    hide DecodeNum, NumShape;
    var now := items;
    while sub.bytesLeft > 0 && |now| < f.arraySize
      invariant sub.Valid() && sub.End() == old(sub.End()) && |now| <= f.arraySize && ItemsFit(f, now)
      invariant DecodePacked(f.kind, f.dataSize, f.arraySize, items, old(sub.Left())) ==
        DecodePacked(f.kind, f.dataSize, f.arraySize, now, sub.Left())
      decreases sub.bytesLeft
    {
      var n := DecodeNumber(sub, f.kind, f.dataSize);
      if n == None { return None; }
      now := now + [Num(n.value)];
    }
    r := if sub.bytesLeft != 0 then None else Some(now);
  }

  predicate ItemsFit(f: Field, items: seq<Value>) {
    forall v :: v in items ==> ValueShape(f.kind, f.dataSize, v, true)
  }

  /** One field into its slot. */
  method DecodeSlot(stream: IStream, f: Field, s: Slot, wire: Wire) returns (r: Option<Slot>)
    requires stream.Valid() && WellFormedField(f) && SlotShape(f, s, true)
    modifies stream
    ensures stream.Valid() && stream.End() <= old(stream.End())
    ensures r.Some? == DecodeField(f, s, wire, old(stream.Left())).Some?
    ensures r.Some? ==>
      DecodeField(f, s, wire, old(stream.Left())) == Some((r.value, stream.Left())) &&
      stream.End() == old(stream.End())
    decreases stream.bytesLeft, 1
  {
    hide WellFormed, ValueShape, DecodeValue, DecodePacked, UnDelimited, Defaults;
    var v: Option<Value>;
    match f.rule
    case Repeated =>
      if wire == STRING && Packable(f.kind) {
        var sub := MakeSubstream(stream);
        if sub == None { return None; }
        var items := DecodePackedItems(sub.value, f, s.items);
        if items == None { return None; }
        var closed := CloseSubstream(stream, sub.value);
        return Some(Rep(items.value));
      }
      if |s.items| >= f.arraySize { return None; }
      DefaultValueShape(f);
      v := DecodeValueFrom(stream, f.kind, f.dataSize, DefaultValue(f.kind, f.dataSize, f.default));
      r := if v.Some? then Some(Rep(s.items + [v.value])) else None;
    case Oneof =>
      DefaultValueShape(f);
      v := DecodeValueFrom(stream, f.kind, f.dataSize, DefaultValue(f.kind, f.dataSize, f.default));
      r := if v.Some? then Some(Union(f.tag, v.value)) else None;
    case Optional =>
      v := DecodeValueFrom(stream, f.kind, f.dataSize, s.value);
      r := if v.Some? then Some(Opt(true, v.value)) else None;
    case _ =>
      v := DecodeValueFrom(stream, f.kind, f.dataSize, s.value);
      r := if v.Some? then Some(Single(v.value)) else None;
  }

  /** Which required fields an array of flags marks. */
  ghost predicate Marks(flags: array<bool>, seen: set<nat>)
    reads flags
  {
    flags.Length == MAX_REQUIRED && forall k: nat :: k in seen <==> k < MAX_REQUIRED && flags[k]
  }

  /** The field under the iterator, into the struct. */
  method DecodeFound(
      stream: IStream, wire: Wire, iter: FieldIter, dest: Struct, flags: array<bool>, ghost seen: set<nat>)
    returns (ok: bool)
    requires stream.Valid() && WellFormed(iter.start) && Shape(iter.start, dest.slots, true)
    requires iter.At(iter.pos) && iter.pos < |iter.start| && Marks(flags, seen)
    modifies stream, dest, flags
    ensures stream.Valid() && stream.End() <= old(stream.End())
    ensures Marks(flags, Saw(iter.start, iter.pos, seen))
    ensures
      var f, k := iter.start[iter.pos], SlotAt(iter.start, iter.pos);
      k < |old(dest.slots)| && WellFormedField(f) && SlotShape(f, old(dest.slots)[k], true) &&
      var r := DecodeField(f, old(dest.slots)[k], wire, old(stream.Left()));
      ok == r.Some? &&
      (ok ==>
        dest.slots == old(dest.slots)[k := r.value.0] && stream.Left() == r.value.1 &&
        stream.End() == old(stream.End()))
    decreases stream.bytesLeft, 2
  {
    hide WellFormed, Shape, DecodeField, SlotShape, WellFormedField, SlotFits;
    var f := iter.start[iter.pos];
    InPlace(iter.start, iter.pos, dest.slots);
    if f.rule == Required && iter.requiredFieldIndex < MAX_REQUIRED {
      flags[iter.requiredFieldIndex] := true;
    }
    var s := DecodeSlot(stream, f, dest.slots[iter.slot], wire);
    if s == None { return false; }
    dest.slots := dest.slots[iter.slot := s.value];
    ok := true;
  }

  /** Takes fields off the stream until it ends or a zero ends the message, then asks for the required ones. */
  method DecodeMessage(stream: IStream, fields: seq<Field>, dest: Struct) returns (ok: bool)
    requires stream.Valid() && WellFormed(fields) && Shape(fields, dest.slots, true)
    modifies stream, dest
    ensures stream.Valid() && stream.End() <= old(stream.End())
    ensures ok == DecodeMerge(fields, old(stream.Left()), old(dest.slots)).Some?
    ensures ok ==>
      DecodeMerge(fields, old(stream.Left()), old(dest.slots)) == Some((dest.slots, stream.Left())) &&
      stream.End() == old(stream.End())
    decreases stream.bytesLeft, 3
  {
    hide WellFormed, Shape, DecodeField, SkipField, UnTag, SlotShape, WellFormedField, SlotFits, AllSeen, Locate,
      DecodeLoop;
    var flags := new bool[MAX_REQUIRED](_ => false);
    ghost var seen: set<nat> := {};
    var iter := new FieldIter(fields);
    var any := iter.Begin();
    ghost var whole := DecodeLoop(fields, stream.Left(), dest.slots, {});
    ghost var ended := false;
    while stream.bytesLeft > 0
      invariant stream.Valid() && stream.End() == old(stream.End())
      invariant iter.start == fields && iter.At(iter.pos)
      invariant Shape(fields, dest.slots, true) && Marks(flags, seen)
      invariant !ended && whole == DecodeLoop(fields, stream.Left(), dest.slots, seen)
      invariant stream.bytesLeft <= old(stream.bytesLeft)
      decreases stream.bytesLeft
    {
      LoopTurn(fields, stream.Left(), dest.slots, seen);
      var tagged, wire, tag, eof := DecodeTag(stream);
      if !tagged {
        if eof {
          ended := true;
          break;
        }
        return false;
      }
      LocateFinds(fields, tag, iter.pos);
      ghost var from := iter.pos;
      var found := iter.Find(tag);
      if !found {
        ok := SkipFieldBytes(stream, wire);
        if !ok { return; }
        continue;
      }
      if fields == [] { return false; }
      ghost var was := seen;
      seen := Saw(fields, iter.pos, seen);
      ok := DecodeFound(stream, wire, iter, dest, flags, was);
      if !ok { return; }
    }
    if !ended { LoopEnds(fields, dest.slots, seen); }
    assert whole == Some(Decoded(dest.slots, seen, stream.Left()));
    ok := CheckRequired(iter, flags, seen);
  }

  /** Walks on to the end to count the required fields and looks whether all of them, or the first 64, are marked. */
  method CheckRequired(iter: FieldIter, flags: array<bool>, ghost seen: set<nat>) returns (ok: bool)
    requires iter.At(iter.pos) && Marks(flags, seen)
    modifies iter
    ensures ok == AllSeen(iter.start, seen)
  {
    var fields := iter.start;
    var count, last := iter.requiredFieldIndex, false;
    while true
      invariant iter.At(iter.pos) && iter.start == fields
      decreases |fields| - iter.pos
    {
      count := iter.requiredFieldIndex;
      last := fields != [] && fields[iter.pos].rule == Required;
      var more := iter.Next();
      if !more { break; }
    }
    if last { count := count + 1; }
    assert count == RequiredBefore(fields, |fields|);
    if count > MAX_REQUIRED { count := MAX_REQUIRED; }
    var i := 0;
    while i < count
      invariant i <= count && forall k: nat :: k < i ==> k in seen
    {
      if !flags[i] { return false; }
      i := i + 1;
    }
    ok := true;
  }

  /** Decodes into a struct whose fields are set to their defaults first. */
  method DecodeInto(stream: IStream, fields: seq<Field>, dest: Struct) returns (ok: bool)
    requires stream.Valid() && WellFormed(fields) && |dest.slots| == SlotCount(fields)
    modifies stream, dest
    ensures stream.Valid()
    ensures ok == Decode(fields, old(stream.Left())).Some?
    ensures ok ==> Decode(fields, old(stream.Left())) == Some((dest.slots, stream.Left()))
  {
    SetToDefaults(fields, dest);
    DefaultsShape(fields);
    ok := DecodeMessage(stream, fields, dest);
  }

  /** Sets every field to its default, whatever the struct holds. */
  method SetToDefaults(fields: seq<Field>, dest: Struct)
    requires |dest.slots| == SlotCount(fields)
    modifies dest
    ensures dest.slots == Defaults(fields)
  {
    hide DefaultSlot, DefaultsUpTo;
    assert DefaultsUpTo(fields, 0) == [] by { NoDefaults(fields); }
    var iter := new FieldIter(fields);
    var any := iter.Begin();
    if !any { return; }
    while true
      invariant iter.start == fields && iter.At(iter.pos) && iter.pos < |fields|
      invariant |dest.slots| == SlotCount(fields)
      invariant DefaultsUpTo(fields, iter.pos) <= dest.slots
      decreases |fields| - iter.pos
    {
      DefaultNext(fields, iter.pos, dest.slots);
      dest.slots := dest.slots[iter.slot := DefaultSlot(fields[iter.pos])];
      var more := iter.Next();
      if !more { break; }
    }
  }

  lemma NoDefaults(fields: seq<Field>)
    ensures DefaultsUpTo(fields, 0) == []
  {
  }

  lemma DefaultNext(fields: seq<Field>, i: nat, slots: seq<Slot>)
    requires i < |fields| && |slots| == SlotCount(fields)
    requires DefaultsUpTo(fields, i) <= slots
    ensures SlotAt(fields, i) < |slots|
    ensures DefaultsUpTo(fields, i + 1) <= slots[SlotAt(fields, i) := DefaultSlot(fields[i])]
  {
    hide DefaultSlot;
    SlotInRange(fields, i);
    if Continues(fields, i) { UnionDefault(fields, i); }
  }

  /** A further member of a union finds its tag already zeroed. */
  lemma UnionDefault(fields: seq<Field>, i: nat)
    requires i < |fields| && Continues(fields, i)
    ensures SlotAt(fields, i) < |DefaultsUpTo(fields, i)|
    ensures DefaultsUpTo(fields, i)[SlotAt(fields, i)] == DefaultSlot(fields[i])
  {
    hide DefaultsUpTo, DefaultValue;
    DefaultsAt(fields, i, i - 1);
  }

  lemma NothingShifted(result: U32, low: nat, group: nat)
    requires 7 * group >= 32
    ensures Shifted(result, low, group) == result
  {
  }

  /** A varint of which `group` groups are read, worth `full` so far. */
  function Gathered(input: Bytes, full: nat, group: nat): Option<(nat, Bytes)>
    requires group <= 10
  {
    match UnVarint(input, 10 - group)
    case None => None
    case Some((n, rest)) => Some((full + n * Pow128(group), rest))
  }

  lemma NothingGathered(input: Bytes)
    ensures Gathered(input, 0, 0) == UnVarint(input, 10) && Pow128(0) == 1
  {
  }

  /** One more group. The tenth may carry bits that the number does not hold. */
  lemma GatherNext(input: Bytes, full: nat, group: nat)
    requires group < 10 && full < Pow128(group)
    ensures input == [] ==> Gathered(input, full, group) == None
    ensures input != [] ==>
      var now := full + input[0] % 128 * Pow128(group);
      (input[0] < 128 ==> Gathered(input, full, group) == Some((now, input[1..]))) &&
      (input[0] >= 128 && group == 9 ==> Gathered(input, full, group) == None) &&
      (input[0] >= 128 && group < 9 ==> Gathered(input, full, group) == Gathered(input[1..], now, group + 1)) &&
      (group < 9 ==> now < Pow128(group + 1) && now % TWO64 == now)
  {
    hide Pow128, UnVarint;
    OneByte(input, 10 - group);
    if input != [] {
      var low := input[0] % 128;
      GroupBound(low, full, group);
      var rest := UnVarint(input[1..], 9 - group);
      if input[0] >= 128 && rest.Some? {
        NextPower(group);
        Distribute(low, rest.value.0, Pow128(group));
      }
    }
  }

  lemma OneByte(input: Bytes, limit: nat)
    requires limit > 0
    ensures UnVarint(input, limit) ==
      if input == [] then None
      else if input[0] < 128 then Some((input[0] % 128, input[1..]))
      else
        match UnVarint(input[1..], limit - 1)
        case None => None
        case Some((n, rest)) => Some((input[0] % 128 + 128 * n, rest))
    ensures input != [] ==> UnVarint(input[1..], 0) == None
  {
  }

  lemma GroupBound(low: nat, full: nat, group: nat)
    requires low < 128 && full < Pow128(group)
    ensures group < 9 ==> full + low * Pow128(group) < Pow128(group + 1)
    ensures group < 9 ==> (full + low * Pow128(group)) % TWO64 == full + low * Pow128(group)
  {
    hide Pow128;
    NextPower(group);
    assert low * Pow128(group) <= 127 * Pow128(group);
  }

  lemma NextPower(group: nat)
    ensures Pow128(group + 1) == 128 * Pow128(group)
    ensures group < 9 ==> Pow128(group + 1) <= TWO64
  {
    Pow128s();
    assert Pow128(6) == 0x400_0000_0000 && Pow128(7) == 0x2_0000_0000_0000 && Pow128(8) == 0x100_0000_0000_0000;
  }

  lemma Distribute(low: nat, high: nat, p: nat)
    ensures (low + 128 * high) * p == low * p + high * (128 * p)
  {
  }
}
