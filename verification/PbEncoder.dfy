/** The encoder of nanopb. */
module PbEncoder {
  // Each step writes to the stream exactly what PbEncode says, and fails exactly when that is undefined or does not fit
  // (pb_encode.c lines 126-392, 494-542 and 574-869).

  import opened Basics
  import opened Coding
  import opened PbFields
  import opened PbWire
  import opened PbEncode
  import opened PbStream

  method EncodeVarint(stream: OStream, value: U64) returns (ok: bool)
    requires stream.Valid()
    modifies stream, stream.buf
    ensures ok == Put(old(stream.Now()), Some(Varint(value))).Some?
    ensures ok ==> stream.Valid() && Some(stream.Now()) == Put(old(stream.Now()), Some(Varint(value)))
  {
    if value <= 0x7F {
      assert Varint(value) == [value];
      ok := stream.Write([value]);
      return;
    }
    var bytes := VarintBytes(value);
    ok := stream.Write(bytes);
  }

  lemma VarintStep(left: nat, room: nat)
    requires 0 < left < Pow128(room)
    ensures room > 0 && left / 128 < Pow128(room - 1)
    ensures Varint(left) == if left < 128 then [left] else [left % 128 + 128] + Varint(left / 128)
  {
    assert room == 0 ==> Pow128(room) == 1;
    assert room > 0 ==> Pow128(room) == 128 * Pow128(room - 1);
  }

  /** `groups`, with the mark of the last one cleared if nothing is left, in front of what is left. */
  predicate Spells(whole: Bytes, groups: Bytes, left: nat) {
    if left > 0 then whole == groups + Varint(left)
    else groups != [] && groups[|groups| - 1] >= 128 && whole == groups[..|groups| - 1] + [groups[|groups| - 1] - 128]
  }

  lemma SpellsNext(whole: Bytes, groups: Bytes, left: nat, room: nat)
    requires 0 < left < Pow128(room) && Spells(whole, groups, left)
    ensures Spells(whole, groups + [left % 128 + 128], left / 128)
  {
    hide Varint, Pow128;
    VarintStep(left, room);
  }

  lemma NothingSpelled(value: nat)
    requires value > 0
    ensures Spells(Varint(value), [], value)
  {
    assert [] + Varint(value) == Varint(value);
  }

  lemma TenGroups(value: U64)
    ensures value < Pow128(10)
  {
    Pow128s();
    assert Pow128(10) == 128 * Pow128(9);
  }

  /** The groups of a number, all marked first and the last one cleared in the end. */
  method VarintBytes(value: U64) returns (bytes: Bytes)
    requires value > 0x7F
    ensures bytes == Varint(value)
  {
    hide Varint, Pow128, Spells;
    TenGroups(value);
    assert Spells(Varint(value), [], value) by { NothingSpelled(value); }
    var buffer := new Byte[10];
    var i, left: nat := 0, value;
    assert buffer[..0] == [];
    while left > 0
      invariant i <= 10 && left < Pow128(10 - i)
      invariant Spells(Varint(value), buffer[..i], left)
      decreases left
    {
      VarintStep(left, 10 - i);
      SpellsNext(Varint(value), buffer[..i], left, 10 - i);
      buffer[i] := left % 128 + 128;
      assert buffer[..i + 1] == buffer[..i] + [buffer[i]];
      left := left / 128;
      i := i + 1;
    }
    ghost var groups := buffer[..i];
    LastCleared(Varint(value), groups);
    buffer[i - 1] := buffer[i - 1] - 128;
    bytes := buffer[..i];
    assert bytes == groups[..i - 1] + [groups[i - 1] - 128];
  }

  lemma LastCleared(whole: Bytes, groups: Bytes)
    requires Spells(whole, groups, 0)
    ensures groups != [] && groups[|groups| - 1] >= 128
    ensures whole == groups[..|groups| - 1] + [groups[|groups| - 1] - 128]
  {
  }

  method EncodeTag(stream: OStream, wire: Wire, tag: U32) returns (ok: bool)
    requires stream.Valid()
    modifies stream, stream.buf
    ensures ok == Put(old(stream.Now()), Some(Tag(wire, tag))).Some?
    ensures ok ==> stream.Valid() && Some(stream.Now()) == Put(old(stream.Now()), Some(Tag(wire, tag)))
  {
    ok := EncodeVarint(stream, 8 * tag + wire);
  }

  /** A length that a 64-bit size holds, and as many bytes. */
  method EncodeString(stream: OStream, bytes: Bytes) returns (ok: bool)
    requires stream.Valid() && |bytes| < TWO64
    modifies stream, stream.buf
    ensures ok == Put(old(stream.Now()), Some(Delimited(bytes))).Some?
    ensures ok ==> stream.Valid() && Some(stream.Now()) == Put(old(stream.Now()), Some(Delimited(bytes)))
  {
    PutCat(stream.Now(), Some(Varint(|bytes|)), Some(bytes));
    ok := EncodeVarint(stream, |bytes|);
    if ok { ok := stream.Write(bytes); }
  }

  method EncodeNumber(stream: OStream, k: Kind, size: nat, n: int) returns (ok: bool)
    requires stream.Valid() && Packable(k) && NumShape(k, size, n)
    modifies stream, stream.buf
    ensures ok == Put(old(stream.Now()), EncodeNum(k, size, n)).Some?
    ensures ok ==> stream.Valid() && Some(stream.Now()) == Put(old(stream.Now()), EncodeNum(k, size, n))
  {
    if k.Fixed32K? { ok := stream.Write(Fixed32(n)); return; }
    if k.Fixed64K? { ok := stream.Write(Fixed64(n)); return; }
    if !Width(size) { return false; }
    ok := EncodeVarint(stream, ToVarint(k, size, n));
  }

  method EncodeValueTo(stream: OStream, k: Kind, size: nat, v: Value) returns (ok: bool)
    requires stream.Valid() && size < TWO32
    requires ValueShape(k, size, v, false) && ValueLimited(k, size, v, TWO64, false)
    modifies stream, stream.buf
    ensures ok == Put(old(stream.Now()), EncodeValue(k, size, v)).Some?
    ensures ok ==> stream.Valid() && Some(stream.Now()) == Put(old(stream.Now()), EncodeValue(k, size, v))
    decreases k, 0
  {
    match k
    case BytesK =>
      if |v.bytes| + BYTES_HEADER > size { return false; }
      ok := EncodeString(stream, v.bytes);
    case StringK => ok := EncodeString(stream, v.bytes);
    case FixedBytesK => ok := EncodeString(stream, v.bytes);
    case SubK(sub) => ok := EncodeSubmessage(stream, sub, v.slots);
    case _ => ok := EncodeNumber(stream, k, size, v.n);
  }

  /** The message is encoded twice: the first time to learn its size, the second time through a stream limited to
      that size, which it fills exactly. */
  method EncodeSubmessage(stream: OStream, fields: seq<Field>, slots: seq<Slot>) returns (ok: bool)
    requires stream.Valid() && Shape(fields, slots, false)
    requires ShorterThan(Encode(fields, slots), TWO64) && Limited(fields, slots, TWO64, false)
    modifies stream, stream.buf
    ensures ok == Put(old(stream.Now()), EncodeValue(SubK(fields), 0, Msg(slots))).Some?
    ensures ok ==>
      stream.Valid() && Some(stream.Now()) == Put(old(stream.Now()), EncodeValue(SubK(fields), 0, Msg(slots)))
    decreases fields, 4
  {
    hide Put, Fits, After, Limited, Shape, EncodeFrom, Varint;
    var substream := new OStream.Sizing();
    ok := EncodeMessage(substream, fields, slots);
    SizingCounts(Encode(fields, slots));
    NothingToPut(stream.Now());
    if !ok { return; }
    var size := substream.bytesWritten;
    ghost var payload := Encode(fields, slots).value;
    PutCat(stream.Now(), Some(Varint(size)), Some(payload));
    ok := EncodeVarint(stream, size);
    if !ok { return; }
    if stream.sizing {
      ok := stream.Count(size, payload);
      return;
    }
    RoomFor(stream.Now(), payload);
    if stream.bytesWritten + size > stream.maxSize { return false; }
    ok := WriteWithin(stream, fields, slots, size);
  }

  lemma SizingCounts(bytes: Option<Bytes>)
    ensures Put(Sink(true, 0, 0, [], []), bytes) ==
      if bytes.Some? then Some(Sink(true, |bytes.value|, 0, [], [])) else None
  {
  }

  lemma RoomFor(s: Sink, payload: Bytes)
    requires ValidSink(s) && !s.sizing
    ensures Put(s, Some(payload)).Some? <==> s.count + |payload| <= s.limit
    ensures s.count + |payload| <= s.limit ==>
      Put(s, Some(payload)) == Some(Sink(false, s.count + |payload|, s.limit, s.written + payload, s.rest[|payload|..]))
  {
  }

  /** The second pass of a nested message. It writes the size the first pass found, neither more nor less. */
  method WriteWithin(stream: OStream, fields: seq<Field>, slots: seq<Slot>, size: nat) returns (ok: bool)
    requires stream.Valid() && !stream.sizing && stream.bytesWritten + size <= stream.maxSize
    requires Shape(fields, slots, false) && Limited(fields, slots, TWO64, false)
    requires Encode(fields, slots).Some? && |Encode(fields, slots).value| == size
    modifies stream, stream.buf
    ensures ok && stream.Valid() && Some(stream.Now()) == Put(old(stream.Now()), Encode(fields, slots))
    decreases fields, 3
  {
    hide Put, Fits, After, Limited, Shape, EncodeFrom;
    RoomFor(stream.Now(), Encode(fields, slots).value);
    var substream := new OStream.Within(stream, size);
    RoomFor(substream.Now(), Encode(fields, slots).value);
    var status := EncodeMessage(substream, fields, slots);
    stream.bytesWritten := stream.bytesWritten + substream.bytesWritten;
    stream.state := substream.state;
    ok := status && substream.bytesWritten == size;
  }

  method EncodeMessage(stream: OStream, fields: seq<Field>, slots: seq<Slot>) returns (ok: bool)
    requires stream.Valid() && Shape(fields, slots, false) && Limited(fields, slots, TWO64, false)
    modifies stream, stream.buf
    ensures ok == Put(old(stream.Now()), Encode(fields, slots)).Some?
    ensures ok ==> stream.Valid() && Some(stream.Now()) == Put(old(stream.Now()), Encode(fields, slots))
    decreases fields, 2
  {
    hide Put, Fits, After, EncodeField, FieldLimited, SlotShape;
    PutNothing(stream.Now());
    var iter := new FieldIter(fields);
    var any := iter.Begin();
    if !any { return true; }
    while true
      invariant iter.start == fields && iter.At(iter.pos) && iter.pos < |fields|
      invariant stream.Valid()
      invariant Put(old(stream.Now()), Encode(fields, slots)) == Put(stream.Now(), EncodeFrom(fields, slots, iter.pos))
      decreases |fields| - iter.pos
    {
      ghost var i := iter.pos;
      assert SlotFits(fields, i, slots, false);
      assert LimitedAt(fields, slots, i, TWO64, false);
      PutCat(stream.Now(), EncodeAt(fields, slots, i), EncodeFrom(fields, slots, i + 1));
      ok := EncodeFieldTo(stream, fields[iter.pos], slots[iter.slot]);
      if !ok { return; }
      var more := iter.Next();
      if !more {
        PutNothing(stream.Now());
        break;
      }
    }
    ok := true;
  }

  /** The tag and the value of one field or item. */
  method EncodeTaggedTo(stream: OStream, f: Field, v: Value) returns (ok: bool)
    requires stream.Valid()
    requires ValueShape(f.kind, f.dataSize, v, false) && ValueLimited(f.kind, f.dataSize, v, TWO64, false)
    modifies stream, stream.buf
    ensures ok == Put(old(stream.Now()), EncodeTagged(f, v)).Some?
    ensures ok ==> stream.Valid() && Some(stream.Now()) == Put(old(stream.Now()), EncodeTagged(f, v))
    decreases f, 0
  {
    PutCat(stream.Now(), Some(Tag(WireOf(f.kind), f.tag)), EncodeValue(f.kind, f.dataSize, v));
    ok := EncodeTag(stream, WireOf(f.kind), f.tag);
    if ok { ok := EncodeValueTo(stream, f.kind, f.dataSize, v); }
  }

  lemma ItemIsNum(k: Kind, size: nat, v: Value)
    requires Packable(k) && ValueShape(k, size, v, false)
    ensures v.Num? && NumShape(k, size, v.n)
  {
  }

  /** The items of a packed array, without their tag and length. */
  method EncodeItems(stream: OStream, k: Kind, size: nat, items: seq<Value>) returns (ok: bool)
    requires stream.Valid() && Packable(k) && ItemsShape(k, size, items, false)
    modifies stream, stream.buf
    ensures ok == Put(old(stream.Now()), EncodePacked(k, size, items)).Some?
    ensures ok ==> stream.Valid() && Some(stream.Now()) == Put(old(stream.Now()), EncodePacked(k, size, items))
  {
    hide Put, Fits, After, NumShape, EncodeNum, ValueShape;
    var i := 0;
    while i < |items|
      invariant i <= |items| && stream.Valid()
      invariant Put(old(stream.Now()), EncodePacked(k, size, items)) ==
        Put(stream.Now(), EncodePacked(k, size, items[i..]))
    {
      assert items[i] in items && items[i..][0] == items[i] && items[i..][1..] == items[i + 1..];
      ItemIsNum(k, size, items[i]);
      PutCat(stream.Now(), EncodeNum(k, size, items[i].n), EncodePacked(k, size, items[i + 1..]));
      ok := EncodeNumber(stream, k, size, items[i].n);
      if !ok { return; }
      i := i + 1;
    }
    PutNothing(stream.Now());
    ok := true;
  }

  method EncodeArrayTo(stream: OStream, f: Field, items: seq<Value>) returns (ok: bool)
    requires stream.Valid() && ItemsShape(f.kind, f.dataSize, items, false)
    requires Packable(f.kind) ==> ShorterThan(EncodePacked(f.kind, f.dataSize, items), TWO64)
    requires forall v :: v in items ==> ValueLimited(f.kind, f.dataSize, v, TWO64, false)
    modifies stream, stream.buf
    ensures ok == Put(old(stream.Now()), EncodeArray(f, items)).Some?
    ensures ok ==> stream.Valid() && Some(stream.Now()) == Put(old(stream.Now()), EncodeArray(f, items))
    decreases f, 1
  {
    PutNothing(stream.Now());
    if |items| == 0 { return true; }
    if |items| > f.arraySize { return false; }
    if Packable(f.kind) {
      ok := EncodePackedTo(stream, f, items);
      return;
    }
    var i := 0;
    while i < |items|
      invariant i <= |items| && stream.Valid()
      invariant Put(old(stream.Now()), EncodeEach(f, items)) == Put(stream.Now(), EncodeEach(f, items[i..]))
    {
      assert items[i] in items && items[i..][0] == items[i] && items[i..][1..] == items[i + 1..];
      PutCat(stream.Now(), EncodeTagged(f, items[i]), EncodeEach(f, items[i + 1..]));
      ok := EncodeTaggedTo(stream, f, items[i]);
      if !ok { return; }
      i := i + 1;
    }
    PutNothing(stream.Now());
    ok := true;
  }

  /** A packed array behind its length, which for numbers of fixed width is known without counting. */
  method EncodePackedTo(stream: OStream, f: Field, items: seq<Value>) returns (ok: bool)
    requires stream.Valid() && Packable(f.kind) && ItemsShape(f.kind, f.dataSize, items, false)
    requires 0 < |items| <= f.arraySize
    requires ShorterThan(EncodePacked(f.kind, f.dataSize, items), TWO64)
    modifies stream, stream.buf
    ensures ok == Put(old(stream.Now()), EncodeArray(f, items)).Some?
    ensures ok ==> stream.Valid() && Some(stream.Now()) == Put(old(stream.Now()), EncodeArray(f, items))
  {
    hide Put, Fits, After, EncodePacked, Varint, NumShape, EncodeNum, ValueShape;
    ghost var payload := EncodePacked(f.kind, f.dataSize, items);
    ghost var tag := Tag(STRING, f.tag);
    PackedCat(stream.Now(), tag, payload);
    ok := EncodeTag(stream, STRING, f.tag);
    if !ok { return; }
    var size: nat;
    if f.kind == Fixed32K {
      PackedFixedSize(f.kind, f.dataSize, items);
      size := 4 * |items|;
    } else if f.kind == Fixed64K {
      PackedFixedSize(f.kind, f.dataSize, items);
      size := 8 * |items|;
    } else {
      var sizestream := new OStream.Sizing();
      SizingCounts(payload);
      ok := EncodeItems(sizestream, f.kind, f.dataSize, items);
      if !ok { return; }
      size := sizestream.bytesWritten;
    }
    ok := EncodeVarint(stream, size);
    if !ok { return; }
    if stream.sizing {
      ok := stream.Count(size, payload.value);
      return;
    }
    ok := EncodeItems(stream, f.kind, f.dataSize, items);
  }

  /** Tag, length and items are three writes. */
  lemma PackedCat(s: Sink, tag: Bytes, payload: Option<Bytes>)
    requires ValidSink(s)
    ensures payload == None ==> Put(s, payload) == None
    ensures payload.Some? ==>
      Put(s, Some(tag + Delimited(payload.value))) ==
      PutNext(PutNext(Put(s, Some(tag)), Some(Varint(|payload.value|))), payload)
  {
    hide Put;
    if payload.Some? {
      PutCat(s, Some(tag), Some(Delimited(payload.value)));
      if Put(s, Some(tag)).Some? {
        PutCat(Put(s, Some(tag)).value, Some(Varint(|payload.value|)), payload);
      }
    }
    assert Put(s, None) == None by { NothingToPut(s); }
  }

  lemma NothingToPut(s: Sink)
    requires ValidSink(s)
    ensures Put(s, None) == None
  {
  }

  /** Whether a field counts as unset, by a walk through the fields of a nested message. */
  method CheckDefault(f: Field, s: Slot) returns (unset: bool)
    requires SlotShape(f, s, false)
    ensures unset == IsDefault(f, s)
    decreases f, 1
  {
    match f.rule
    case Required => unset := false;
    case Repeated => unset := |s.items| == 0;
    case Oneof => unset := s.which == 0;
    case Optional => unset := !s.has;
    case Singular => unset := CheckZero(f.kind, f.dataSize, s.value);
  }

  method CheckZero(k: Kind, size: nat, v: Value) returns (unset: bool)
    requires ValueShape(k, size, v, false)
    ensures unset == IsZero(k, size, v)
    decreases k, 1
  {
    match k
    case BytesK => unset := |v.bytes| == 0;
    case StringK => unset := |v.bytes| == 0;
    case FixedBytesK => unset := size == 0;
    case SubK(sub) =>
      var iter := new FieldIter(sub);
      var any := iter.Begin();
      if !any { return true; }
      while true
        invariant iter.start == sub && iter.At(iter.pos) && iter.pos < |sub|
        invariant forall i: nat :: i < iter.pos ==> DefaultAt(sub, v.slots, i)
        decreases |sub| - iter.pos
      {
        assert SlotFits(sub, iter.pos, v.slots, false);
        ghost var i := iter.pos;
        unset := CheckDefault(sub[iter.pos], v.slots[iter.slot]);
        assert unset == DefaultAt(sub, v.slots, i);
        if !unset { return; }
        var more := iter.Next();
        if !more { return true; }
      }
    case _ => unset := v.n == 0;
  }

  method EncodeFieldTo(stream: OStream, f: Field, s: Slot) returns (ok: bool)
    requires stream.Valid() && SlotShape(f, s, false) && FieldLimited(f, s, TWO64, false)
    modifies stream, stream.buf
    ensures ok == Put(old(stream.Now()), EncodeField(f, s)).Some?
    ensures ok ==> stream.Valid() && Some(stream.Now()) == Put(old(stream.Now()), EncodeField(f, s))
    decreases f, 3
  {
    PutNothing(stream.Now());
    var present := true;
    if f.rule == Optional {
      present := s.has;
    } else if f.rule == Singular {
      var unset := CheckDefault(f, s);
      present := !unset;
    } else if f.rule == Oneof {
      present := s.which == f.tag;
    }
    if f.rule == Repeated {
      ok := EncodeArrayTo(stream, f, s.items);
    } else if present {
      ok := EncodeTaggedTo(stream, f, s.value);
    } else {
      ok := true;
    }
  }

  /** The size of a message, learned without a buffer. */
  method GetEncodedSize(fields: seq<Field>, slots: seq<Slot>) returns (size: Option<nat>)
    requires Shape(fields, slots, false) && Limited(fields, slots, TWO64, false)
    ensures size.Some? <==> Encode(fields, slots).Some?
    ensures size.Some? ==> size.value == |Encode(fields, slots).value|
  {
    var stream := new OStream.Sizing();
    SizingCounts(Encode(fields, slots));
    var ok := EncodeMessage(stream, fields, slots);
    size := if ok then Some(stream.bytesWritten) else None;
  }

  /** The two streams side by side: encoding into a buffer succeeds exactly when the sizing pass does and its count
      fits; it then writes that many bytes, and leaves the bytes behind them alone. A buffer of exactly that size is
      enough. */
  method SizeThenEncode(fields: seq<Field>, slots: seq<Slot>, buf: array<Byte>, bufsize: nat)
      returns (size: Option<nat>, written: Option<nat>)
    requires Shape(fields, slots, false) && Limited(fields, slots, TWO64, false) && bufsize <= buf.Length
    modifies buf
    ensures size.Some? <==> Encode(fields, slots).Some?
    ensures written.Some? <==> size.Some? && size.value <= bufsize
    ensures written.Some? ==>
      && written == size && size.value <= buf.Length
      && Encode(fields, slots) == Some(buf[..size.value])
      && buf[size.value..] == old(buf[..])[size.value..]
  {
    hide Shape, Limited, Encode, EncodeFrom;
    size := GetEncodedSize(fields, slots);
    written := EncodeIntoBuffer(fields, slots, buf, bufsize);
  }

  method EncodeIntoBuffer(fields: seq<Field>, slots: seq<Slot>, buf: array<Byte>, bufsize: nat)
      returns (written: Option<nat>)
    requires Shape(fields, slots, false) && Limited(fields, slots, TWO64, false) && bufsize <= buf.Length
    modifies buf
    ensures written.Some? <==> Encode(fields, slots).Some? && |Encode(fields, slots).value| <= bufsize
    ensures written.Some? ==>
      && written.value == |Encode(fields, slots).value| <= buf.Length
      && Encode(fields, slots) == Some(buf[..written.value])
      && buf[written.value..] == old(buf[..])[written.value..]
  {
    hide Shape, Limited, Encode, EncodeFrom, Put;
    var stream := new OStream.FromBuffer(buf, bufsize);
    PutIntoBuffer(Encode(fields, slots), bufsize, buf[..]);
    var ok := EncodeMessage(stream, fields, slots);
    written := if ok then Some(stream.bytesWritten) else None;
  }

  lemma PutIntoBuffer(bytes: Option<Bytes>, limit: nat, buffer: Bytes)
    requires limit <= |buffer|
    ensures Put(Sink(false, 0, limit, [], buffer), bytes) ==
      if bytes.Some? && |bytes.value| <= limit
      then Some(Sink(false, |bytes.value|, limit, bytes.value, buffer[|bytes.value|..])) else None
  {
    if bytes.Some? { assert [] + bytes.value == bytes.value; }
  }
}
