/** nanopb reads back what it wrote. */
module PbRoundTrip {
  // Decoding the encoding of a struct gives the struct with its absent fields reset to their defaults, unless a string
  // fills its member or a length does not fit 32 bits.

  import opened Basics
  import opened Coding
  import opened PbFields
  import opened PbWire
  import opened PbEncode
  import opened PbDecode

  /** No object in memory is larger. */
  const MAX_OBJECT: nat := 0x8000_0000_0000_0000

  // ---------- what a struct stands for ----------

  function CanonValue(k: Kind, size: nat, v: Value): Value
    requires ValueShape(k, size, v, false)
    decreases k, 0
  {
    match k
    case SubK(sub) => Msg(Overlay(sub, v.slots, |sub|))
    case _ => v
  }

  function CanonItems(f: Field, items: seq<Value>): (r: seq<Value>)
    requires ItemsShape(f.kind, f.dataSize, items, false)
    ensures |r| == |items|
    decreases f, 0, |items|
  {
    if items == [] then []
    else
      assert items[0] in items;
      [CanonValue(f.kind, f.dataSize, items[0])] + CanonItems(f, items[1..])
  }

  /** What a field that is written leaves in its slot. */
  function CanonSlot(f: Field, s: Slot): Slot
    requires SlotShape(f, s, false) && Present(f, s)
    decreases f, 1
  {
    match f.rule
    case Optional => Opt(true, CanonValue(f.kind, f.dataSize, s.value))
    case Repeated => Rep(CanonItems(f, s.items))
    case Oneof => Union(f.tag, CanonValue(f.kind, f.dataSize, s.value))
    case _ => Single(CanonValue(f.kind, f.dataSize, s.value))
  }

  function Laid(fields: seq<Field>, slots: seq<Slot>, i: nat, onto: seq<Slot>): (r: seq<Slot>)
    requires i < |fields| && Shape(fields, slots, false) && |onto| == SlotCount(fields)
    ensures |r| == |onto|
    decreases fields, 0
  {
    assert SlotFits(fields, i, slots, false);
    var k := SlotAt(fields, i);
    if Present(fields[i], slots[k]) then onto[k := CanonSlot(fields[i], slots[k])] else onto
  }

  /** The first `n` fields laid over the defaults. */
  function Overlay(fields: seq<Field>, slots: seq<Slot>, n: nat): (r: seq<Slot>)
    requires n <= |fields| && Shape(fields, slots, false)
    ensures |r| == SlotCount(fields)
    decreases fields, 1, n
  {
    if n == 0 then Defaults(fields) else Laid(fields, slots, n - 1, Overlay(fields, slots, n - 1))
  }

  /** The struct with everything that is not written reset to its default. */
  function Canonical(fields: seq<Field>, slots: seq<Slot>): seq<Slot>
    requires Shape(fields, slots, false)
  {
    Overlay(fields, slots, |fields|)
  }

  lemma {:induction false} OverlayUntouched(fields: seq<Field>, slots: seq<Slot>, n: nat, i: nat)
    requires n <= i < |fields| && Shape(fields, slots, false)
    requires fields[i].rule != Oneof
    ensures SlotAt(fields, i) < SlotCount(fields)
    ensures Overlay(fields, slots, n)[SlotAt(fields, i)] == DefaultSlot(fields[i])
    decreases n
  {
    SlotInRange(fields, i);
    if n == 0 {
      DefaultsAt(fields, |fields|, i);
    } else {
      SlotsGrow(fields, n - 1, i);
      OverlayUntouched(fields, slots, n - 1, i);
    }
  }

  // ---------- required fields ----------

  function SeenUpTo(fields: seq<Field>, n: nat): set<nat>
    requires n <= |fields|
  {
    if n == 0 then {} else Saw(fields, n - 1, SeenUpTo(fields, n - 1))
  }

  lemma {:induction false} AllAreSeen(fields: seq<Field>, n: nat)
    requires n <= |fields|
    ensures forall k: nat :: k < RequiredBefore(fields, n) && k < MAX_REQUIRED ==> k in SeenUpTo(fields, n)
  {
    if n > 0 { AllAreSeen(fields, n - 1); }
  }

  // ---------- values ----------

  lemma RawRoundTrip(k: Kind, size: U32, v: Value, rest: Bytes)
    requires k.BytesK? || k.StringK? || k.FixedBytesK?
    requires ValueShape(k, size, v, false) && EncodeValue(k, size, v).Some?
    ensures DecodeValue(k, size, BLANK, EncodeValue(k, size, v).value + rest) ==
      if ValueLimited(k, size, v, TWO32, true) then Some((v, rest)) else None
  {
    hide UnVarint32, Varint;
    var input := EncodeValue(k, size, v).value + rest;
    var n := |v.bytes|;
    assert input == Varint(n) + (v.bytes + rest);
    Varint32Exact(n, v.bytes + rest);
    assert (v.bytes + rest)[..n] == v.bytes && (v.bytes + rest)[n..] == rest;
    if k.StringK? {
      NoNul(v.bytes);
    } else if k.FixedBytesK? && n == 0 {
      assert v.bytes == Zeros(0) && v.bytes + rest == rest;
    }
  }

  predicate Starts(k: Kind, current: Value) {
    k.SubK? ==> current == Msg(Defaults(k.fields))
  }

  lemma {:induction false} ValueRoundTrip(k: Kind, size: U32, current: Value, v: Value, rest: Bytes)
    requires k.SubK? ==> WellFormed(k.fields)
    requires Starts(k, current)
    requires ValueShape(k, size, v, false) && ValueLimited(k, size, v, MAX_OBJECT, false)
    requires EncodeValue(k, size, v).Some?
    ensures k.SubK? ==> ValueShape(k, size, current, true)
    ensures DecodeValue(k, size, current, EncodeValue(k, size, v).value + rest) ==
      if ValueLimited(k, size, v, TWO32, true) then Some((CanonValue(k, size, v), rest)) else None
    decreases k, 0
  {
    if k.SubK? {
      DefaultsShape(k.fields);
      SubRoundTrip(k.fields, size, v, rest);
    } else if Packable(k) {
      NumRoundTrip(k, size, v.n, rest);
    } else {
      RawRoundTrip(k, size, v, rest);
    }
  }

  lemma {:induction false} SubRoundTrip(sub: seq<Field>, size: U32, v: Value, rest: Bytes)
    requires WellFormed(sub) && Shape(sub, Defaults(sub), true)
    requires ValueShape(SubK(sub), size, v, false) && ValueLimited(SubK(sub), size, v, MAX_OBJECT, false)
    requires EncodeValue(SubK(sub), size, v).Some?
    ensures DecodeValue(SubK(sub), size, Msg(Defaults(sub)), EncodeValue(SubK(sub), size, v).value + rest) ==
      if ValueLimited(SubK(sub), size, v, TWO32, true) then Some((CanonValue(SubK(sub), size, v), rest)) else None
    decreases sub, 5
  {
    hide WellFormed, Limited, UnDelimited, Delimited, DecodeMerge, EncodeFrom, Defaults;
    var payload := EncodeFrom(sub, v.slots, 0).value;
    DelimitedExact(payload, rest);
    MessageRoundTrip(sub, v.slots);
  }

  lemma {:induction false} MessageRoundTrip(fields: seq<Field>, slots: seq<Slot>)
    requires WellFormed(fields) && Shape(fields, slots, false) && Shape(fields, Defaults(fields), true)
    requires EncodeFrom(fields, slots, 0).Some? && Limited(fields, slots, MAX_OBJECT, false)
    ensures DecodeMerge(fields, EncodeFrom(fields, slots, 0).value, Defaults(fields)) ==
      if Limited(fields, slots, TWO32, true) then Some((Canonical(fields, slots), [])) else None
    decreases fields, 4
  {
    hide WellFormed, Limited, DecodeLoop, EncodeFrom, Shape;
    FieldsRoundTrip(fields, slots, 0);
    AllAreSeen(fields, |fields|);
    assert Limited(fields, slots, TWO32, true) <==> LimitedFrom(fields, slots, 0) by { AllLimited(fields, slots); }
  }

  predicate LimitedFrom(fields: seq<Field>, slots: seq<Slot>, i: nat)
    requires Shape(fields, slots, false)
  {
    forall j: nat :: i <= j < |fields| ==> LimitedAt(fields, slots, j, TWO32, true)
  }

  lemma AllLimited(fields: seq<Field>, slots: seq<Slot>)
    requires Shape(fields, slots, false)
    ensures Limited(fields, slots, TWO32, true) <==> LimitedFrom(fields, slots, 0)
  {
  }

  lemma {:induction false} FieldsRoundTrip(fields: seq<Field>, slots: seq<Slot>, i: nat)
    requires WellFormed(fields) && Shape(fields, slots, false) && i <= |fields|
    requires Shape(fields, Overlay(fields, slots, i), true)
    requires EncodeFrom(fields, slots, i).Some? && Limited(fields, slots, MAX_OBJECT, false)
    ensures DecodeLoop(fields, EncodeFrom(fields, slots, i).value, Overlay(fields, slots, i), SeenUpTo(fields, i)) ==
      if LimitedFrom(fields, slots, i)
      then Some(Decoded(Canonical(fields, slots), SeenUpTo(fields, |fields|), [])) else None
    decreases fields, 3, |fields| - i
  {
    hide WellFormed, Shape, EncodeAt, LimitedAt, Laid;
    if i < |fields| {
      hide DecodeLoop;
      FieldRoundTrip(fields, slots, i, EncodeFrom(fields, slots, i + 1).value);
      if LimitedAt(fields, slots, i, TWO32, true) { FieldsRoundTrip(fields, slots, i + 1); }
    }
  }

  /** The bytes of one field take the decoder from the first `i` fields to the first `i + 1`. */
  lemma {:induction false} FieldRoundTrip(fields: seq<Field>, slots: seq<Slot>, i: nat, rest: Bytes)
    requires WellFormed(fields) && Shape(fields, slots, false) && i < |fields|
    requires Shape(fields, Overlay(fields, slots, i), true)
    requires EncodeAt(fields, slots, i).Some? && Limited(fields, slots, MAX_OBJECT, false)
    ensures
      var read := DecodeLoop(fields, EncodeAt(fields, slots, i).value + rest, Overlay(fields, slots, i),
        SeenUpTo(fields, i));
      if LimitedAt(fields, slots, i, TWO32, true) then
        Shape(fields, Overlay(fields, slots, i + 1), true) &&
        read == DecodeLoop(fields, rest, Overlay(fields, slots, i + 1), SeenUpTo(fields, i + 1))
      else read == None
    decreases fields, 2
  {
    hide WellFormed, WellFormedField, Shape, ValueShape, ValueLimited, EncodeTagged, EncodeEach, EncodePacked,
      DecodeLoop, CanonValue, CanonItems, DefaultSlot, IsDefault, Overlay, Limited, LimitedAt, FieldLimited, EncodeAt;
    var f, k, current, seen := fields[i], SlotAt(fields, i), Overlay(fields, slots, i), SeenUpTo(fields, i);
    FieldOf(fields, slots, i);
    InPlace(fields, i, current);
    var s := slots[k];
    LimitsOf(f, s, MAX_OBJECT, false);
    LimitsOf(f, s, TWO32, true);
    if f.rule != Oneof { OverlayUntouched(fields, slots, i, i); DefaultOf(f); }
    if !Present(f, s) {
      assert [] + rest == rest;
    } else if f.rule == Repeated {
      if Packable(f.kind) {
        PackedFieldRoundTrip(fields, i, s.items, current, seen, rest);
        assert [] + s.items == s.items;
      } else {
        ItemsRoundTrip(fields, i, s.items, current, seen, rest);
        assert [] + CanonItems(f, s.items) == CanonItems(f, s.items);
      }
    } else {
      TaggedRoundTrip(fields, i, s.value, current, seen, rest);
    }
  }

  lemma FieldOf(fields: seq<Field>, slots: seq<Slot>, i: nat)
    requires Shape(fields, slots, false) && i < |fields|
    ensures SlotAt(fields, i) < |slots| && SlotShape(fields[i], slots[SlotAt(fields, i)], false)
    ensures EncodeAt(fields, slots, i) == EncodeField(fields[i], slots[SlotAt(fields, i)])
    ensures Limited(fields, slots, MAX_OBJECT, false) ==>
      FieldLimited(fields[i], slots[SlotAt(fields, i)], MAX_OBJECT, false)
    ensures LimitedAt(fields, slots, i, TWO32, true) <==>
      FieldLimited(fields[i], slots[SlotAt(fields, i)], TWO32, true)
    ensures Overlay(fields, slots, i + 1) ==
      if Present(fields[i], slots[SlotAt(fields, i)])
      then Overlay(fields, slots, i)[SlotAt(fields, i) := CanonSlot(fields[i], slots[SlotAt(fields, i)])]
      else Overlay(fields, slots, i)
  {
    hide EncodeField, FieldLimited, CanonSlot, SlotShape, Present;
    assert SlotFits(fields, i, slots, false);
    assert Limited(fields, slots, MAX_OBJECT, false) ==> LimitedAt(fields, slots, i, MAX_OBJECT, false);
  }

  lemma LimitsOf(f: Field, s: Slot, limit: nat, terminated: bool)
    requires SlotShape(f, s, false)
    ensures !Present(f, s) ==> FieldLimited(f, s, limit, terminated)
    ensures Present(f, s) && f.rule != Repeated ==>
      (FieldLimited(f, s, limit, terminated) <==> ValueLimited(f.kind, f.dataSize, s.value, limit, terminated))
    ensures Present(f, s) && f.rule == Repeated ==>
      (FieldLimited(f, s, limit, terminated) <==>
       if Packable(f.kind) then ShorterThan(EncodePacked(f.kind, f.dataSize, s.items), limit)
       else ItemsLimited(f, s.items, limit, terminated))
  {
  }

  lemma DefaultOf(f: Field)
    requires f.rule != Oneof
    ensures f.rule == Repeated ==> DefaultSlot(f) == Rep([])
    ensures f.rule != Repeated ==>
      (DefaultSlot(f).Single? || DefaultSlot(f).Opt?) &&
      DefaultSlot(f).value == DefaultValue(f.kind, f.dataSize, f.default)
  {
  }

  // ---------- one turn of the decoding loop ----------

  /** A known tag at the front of the input hands its field what follows. */
  lemma LoopTakesField(fields: seq<Field>, i: nat, body: Bytes, current: seq<Slot>, seen: set<nat>, wire: Wire)
    requires WellFormed(fields) && Shape(fields, current, true) && i < |fields|
    ensures SlotAt(fields, i) < |current| && WellFormedField(fields[i])
    ensures SlotShape(fields[i], current[SlotAt(fields, i)], true)
    ensures
      var r := DecodeField(fields[i], current[SlotAt(fields, i)], wire, body);
      var input := Tag(wire, fields[i].tag) + body;
      if r == None then DecodeLoop(fields, input, current, seen) == None
      else
        var next := current[SlotAt(fields, i) := r.value.0];
        Shape(fields, next, true) &&
        DecodeLoop(fields, input, current, seen) == DecodeLoop(fields, r.value.1, next, Saw(fields, i, seen))
  {
    hide DecodeField, DecodeLoop, SlotShape, Shape, Tag, WellFormedField, Locate;
    InPlace(fields, i, current);
    TagRoundTrip(wire, fields[i].tag, body);
    LocateField(fields, i);
    LoopTurn(fields, Tag(wire, fields[i].tag) + body, current, seen);
  }

  // ---------- arrays ----------

  lemma {:induction false} PackedRoundTrip(f: Field, items: seq<Value>, done: seq<Value>)
    requires Packable(f.kind) && ItemsShape(f.kind, f.dataSize, items, false)
    requires EncodePacked(f.kind, f.dataSize, items).Some? && |done| <= f.arraySize
    requires ItemsShape(f.kind, f.dataSize, done, true)
    ensures DecodePacked(f.kind, f.dataSize, f.arraySize, done, EncodePacked(f.kind, f.dataSize, items).value) ==
      if |done| + |items| <= f.arraySize then Some(done + items) else None
    ensures CanonItems(f, items) == items
    decreases |items|
  {
    hide NumShape, EncodeNum, DecodeNum;
    if items == [] {
      assert done + items == done;
    } else {
      assert items[0] in items;
      var tail := EncodePacked(f.kind, f.dataSize, items[1..]).value;
      var first := EncodeNum(f.kind, f.dataSize, items[0].n).value;
      NumRoundTrip(f.kind, f.dataSize, items[0].n, tail);
      assert first + tail != [] by { NumRoundTrip(f.kind, f.dataSize, items[0].n, []); }
      assert items[0] == Num(items[0].n) && done + items == done + [items[0]] + items[1..];
      if |done| < f.arraySize {
        PackedRoundTrip(f, items[1..], done + [items[0]]);
      } else {
        CanonPacked(f, items);
      }
    }
  }

  lemma {:induction false} CanonPacked(f: Field, items: seq<Value>)
    requires Packable(f.kind) && ItemsShape(f.kind, f.dataSize, items, false)
    ensures CanonItems(f, items) == items
  {
    if items != [] {
      assert items[0] in items;
      CanonPacked(f, items[1..]);
    }
  }

  // ---------- fields ----------

  /** The slot of a field after one more value for it. */
  function Placed(f: Field, s: Slot, v: Value): Slot
    requires SlotShape(f, s, true)
  {
    match f.rule
    case Optional => Opt(true, v)
    case Repeated => Rep(s.items + [v])
    case Oneof => Union(f.tag, v)
    case _ => Single(v)
  }

  /** There is room for one more item, and a message member has not been written yet. */
  predicate Ready(f: Field, s: Slot)
    requires SlotShape(f, s, true)
  {
    match f.rule
    case Repeated => |s.items| < f.arraySize
    case Oneof => true
    case _ => Starts(f.kind, s.value)
  }

  lemma {:induction false} DecodeTagged(f: Field, s: Slot, v: Value, rest: Bytes)
    requires WellFormedField(f) && SlotShape(f, s, true) && Ready(f, s)
    requires ValueShape(f.kind, f.dataSize, v, false) && ValueLimited(f.kind, f.dataSize, v, MAX_OBJECT, false)
    requires EncodeValue(f.kind, f.dataSize, v).Some?
    ensures DecodeField(f, s, WireOf(f.kind), EncodeValue(f.kind, f.dataSize, v).value + rest) ==
      if ValueLimited(f.kind, f.dataSize, v, TWO32, true)
      then Some((Placed(f, s, CanonValue(f.kind, f.dataSize, v)), rest)) else None
    decreases f, 0
  {
    hide WellFormed, ValueShape, ValueLimited, EncodeValue, DecodeValue, CanonValue, Defaults;
    var current :=
      if f.rule == Repeated || f.rule == Oneof then DefaultValue(f.kind, f.dataSize, f.default) else s.value;
    ValueRoundTrip(f.kind, f.dataSize, current, v, rest);
  }

  lemma {:induction false} TaggedRoundTrip(
      fields: seq<Field>, i: nat, v: Value, current: seq<Slot>, seen: set<nat>, rest: Bytes)
    requires WellFormed(fields) && Shape(fields, current, true) && i < |fields|
    requires SlotAt(fields, i) < |current| && SlotShape(fields[i], current[SlotAt(fields, i)], true)
    requires Ready(fields[i], current[SlotAt(fields, i)])
    requires ValueShape(fields[i].kind, fields[i].dataSize, v, false)
    requires ValueLimited(fields[i].kind, fields[i].dataSize, v, MAX_OBJECT, false)
    requires EncodeTagged(fields[i], v).Some?
    ensures
      var f, k := fields[i], SlotAt(fields, i);
      var read := DecodeLoop(fields, EncodeTagged(f, v).value + rest, current, seen);
      if ValueLimited(f.kind, f.dataSize, v, TWO32, true) then
        var next := current[k := Placed(f, current[k], CanonValue(f.kind, f.dataSize, v))];
        Shape(fields, next, true) && read == DecodeLoop(fields, rest, next, Saw(fields, i, seen))
      else read == None
    decreases fields[i], 1
  {
    hide WellFormed, WellFormedField, Shape, SlotShape, ValueShape, ValueLimited, EncodeValue, DecodeLoop, DecodeField,
      CanonValue, Ready, Placed, Tag, Saw;
    var f := fields[i];
    var value := EncodeValue(f.kind, f.dataSize, v).value;
    LoopTakesField(fields, i, value + rest, current, seen, WireOf(f.kind));
    DecodeTagged(f, current[SlotAt(fields, i)], v, rest);
    assert EncodeTagged(f, v).value + rest == Tag(WireOf(f.kind), f.tag) + (value + rest);
  }

  lemma Room(fields: seq<Field>, i: nat, current: seq<Slot>)
    requires WellFormed(fields) && Shape(fields, current, true) && i < |fields| && fields[i].rule == Repeated
    ensures SlotAt(fields, i) < |current| && SlotShape(fields[i], current[SlotAt(fields, i)], true)
    ensures |current[SlotAt(fields, i)].items| <= fields[i].arraySize
  {
    InPlace(fields, i, current);
  }

  /** A full array takes no further item. */
  lemma NoRoom(fields: seq<Field>, i: nat, v: Value, current: seq<Slot>, seen: set<nat>, rest: Bytes)
    requires WellFormed(fields) && Shape(fields, current, true) && i < |fields| && fields[i].rule == Repeated
    requires SlotAt(fields, i) < |current| && current[SlotAt(fields, i)].Rep?
    requires |current[SlotAt(fields, i)].items| == fields[i].arraySize
    requires ValueShape(fields[i].kind, fields[i].dataSize, v, false) && EncodeTagged(fields[i], v).Some?
    ensures DecodeLoop(fields, EncodeTagged(fields[i], v).value + rest, current, seen) == None
  {
    hide WellFormed, WellFormedField, Shape, SlotShape, ValueShape, EncodeValue, DecodeLoop, DecodeValue, Tag, Saw;
    var f := fields[i];
    var value := EncodeValue(f.kind, f.dataSize, v).value;
    LoopTakesField(fields, i, value + rest, current, seen, WireOf(f.kind));
    assert EncodeTagged(f, v).value + rest == Tag(WireOf(f.kind), f.tag) + (value + rest);
  }

  predicate ItemsLimited(f: Field, items: seq<Value>, limit: nat, terminated: bool)
    requires ItemsShape(f.kind, f.dataSize, items, false)
  {
    forall v :: v in items ==> ValueLimited(f.kind, f.dataSize, v, limit, terminated)
  }

  /** The items of an array, each sent with its own tag, are appended to those the array holds; too many of them are
      an error. */
  lemma {:induction false} ItemsRoundTrip(
      fields: seq<Field>, i: nat, items: seq<Value>, current: seq<Slot>, seen: set<nat>, rest: Bytes)
    requires WellFormed(fields) && Shape(fields, current, true) && i < |fields|
    requires fields[i].rule == Repeated
    requires SlotAt(fields, i) < |current| && current[SlotAt(fields, i)].Rep?
    requires ItemsShape(fields[i].kind, fields[i].dataSize, items, false)
    requires ItemsLimited(fields[i], items, MAX_OBJECT, false)
    requires EncodeEach(fields[i], items).Some?
    ensures
      var f, k := fields[i], SlotAt(fields, i);
      var read := DecodeLoop(fields, EncodeEach(f, items).value + rest, current, seen);
      if ItemsLimited(f, items, TWO32, true) && |current[k].items| + |items| <= f.arraySize then
        var next := current[k := Rep(current[k].items + CanonItems(f, items))];
        Shape(fields, next, true) && read == DecodeLoop(fields, rest, next, seen)
      else read == None
    decreases fields[i], 2, |items|
  {
    hide WellFormed, Shape, SlotShape, ValueShape, ValueLimited, EncodeTagged, DecodeLoop, CanonValue;
    var f, k := fields[i], SlotAt(fields, i);
    var done := current[k].items;
    Room(fields, i, current);
    if items == [] {
      assert [] + rest == rest && done + [] == done;
      assert current[k := Rep(done)] == current;
    } else {
      assert items[0] in items && items == [items[0]] + items[1..];
      var tail := EncodeEach(f, items[1..]).value;
      assert EncodeEach(f, items).value + rest == EncodeTagged(f, items[0]).value + (tail + rest);
      if |done| == f.arraySize {
        NoRoom(fields, i, items[0], current, seen, tail + rest);
        return;
      }
      TaggedRoundTrip(fields, i, items[0], current, seen, tail + rest);
      if ValueLimited(f.kind, f.dataSize, items[0], TWO32, true) {
        var v := CanonValue(f.kind, f.dataSize, items[0]);
        var next := current[k := Rep(done + [v])];
        ItemsRoundTrip(fields, i, items[1..], next, seen, rest);
        assert done + [v] + CanonItems(f, items[1..]) == done + CanonItems(f, items);
        assert next[k := Rep(done + CanonItems(f, items))] == current[k := Rep(done + CanonItems(f, items))];
      }
    }
  }

  /** The items of a packed record are appended to those the array holds; too many of them are an error. */
  lemma PackedFieldRoundTrip(
      fields: seq<Field>, i: nat, items: seq<Value>, current: seq<Slot>, seen: set<nat>, rest: Bytes)
    requires WellFormed(fields) && Shape(fields, current, true) && i < |fields|
    requires fields[i].rule == Repeated && Packable(fields[i].kind)
    requires SlotAt(fields, i) < |current| && current[SlotAt(fields, i)].Rep?
    requires ItemsShape(fields[i].kind, fields[i].dataSize, items, false)
    requires EncodePacked(fields[i].kind, fields[i].dataSize, items).Some?
    requires ShorterThan(EncodePacked(fields[i].kind, fields[i].dataSize, items), MAX_OBJECT)
    ensures
      var f, k := fields[i], SlotAt(fields, i);
      var payload := EncodePacked(f.kind, f.dataSize, items).value;
      var read := DecodeLoop(fields, Tag(STRING, f.tag) + Delimited(payload) + rest, current, seen);
      if |payload| < TWO32 && |current[k].items| + |items| <= f.arraySize then
        var next := current[k := Rep(current[k].items + items)];
        Shape(fields, next, true) && read == DecodeLoop(fields, rest, next, seen)
      else read == None
    ensures CanonItems(fields[i], items) == items
  {
    hide WellFormed, WellFormedField, Shape, ValueShape, DecodeLoop, EncodePacked, DecodePacked, Tag, UnDelimited,
      Delimited, CanonItems;
    var f, k := fields[i], SlotAt(fields, i);
    var payload := EncodePacked(f.kind, f.dataSize, items).value;
    LoopTakesField(fields, i, Delimited(payload) + rest, current, seen, STRING);
    DelimitedExact(payload, rest);
    PackedRoundTrip(f, items, current[k].items);
    assert Tag(STRING, f.tag) + Delimited(payload) + rest == Tag(STRING, f.tag) + (Delimited(payload) + rest);
  }

  // ---------- fields the reader does not know ----------

  lemma SkipsValue(k: Kind, size: U32, v: Value, rest: Bytes)
    requires ValueShape(k, size, v, false) && EncodeValue(k, size, v).Some?
    requires k.SubK? ==> ShorterThan(EncodeFrom(k.fields, v.slots, 0), TWO32)
    ensures SkipField(WireOf(k), EncodeValue(k, size, v).value + rest) == Some(rest)
  {
    hide Shape, EncodeFrom, Varint, SkipVarint, UnDelimited, Delimited, NumShape;
    var input := EncodeValue(k, size, v).value + rest;
    if k.Fixed32K? {
      assert input[4..] == rest;
    } else if k.Fixed64K? {
      assert input[8..] == rest;
    } else if Packable(k) {
      SkipsVarint(ToVarint(k, size, v.n), rest);
    } else if k.SubK? {
      DelimitedExact(EncodeFrom(k.fields, v.slots, 0).value, rest);
    } else {
      DelimitedExact(v.bytes, rest);
    }
  }

  /** A reader without the field passes over any value of it, wherever it stands, and decodes what is left as if it
      were not there. */
  lemma UnknownFieldIsSkipped(
      fields: seq<Field>, f: Field, v: Value, current: seq<Slot>, seen: set<nat>, rest: Bytes)
    requires WellFormed(fields) && Shape(fields, current, true)
    requires 0 < f.tag < MAX_TAG && forall i: nat :: i < |fields| ==> fields[i].tag != f.tag
    requires ValueShape(f.kind, f.dataSize, v, false) && EncodeTagged(f, v).Some?
    requires f.kind.SubK? ==> ShorterThan(EncodeFrom(f.kind.fields, v.slots, 0), TWO32)
    ensures DecodeLoop(fields, EncodeTagged(f, v).value + rest, current, seen) ==
      DecodeLoop(fields, rest, current, seen)
  {
    hide DecodeLoop, DecodeField, WellFormed, Shape, ValueShape, EncodeValue, SkipField, Tag, EncodeFrom;
    var value := EncodeValue(f.kind, f.dataSize, v).value;
    assert EncodeTagged(f, v).value + rest == Tag(WireOf(f.kind), f.tag) + (value + rest);
    TagRoundTrip(WireOf(f.kind), f.tag, value + rest);
    SkipsValue(f.kind, f.dataSize, v, rest);
    LocateFinds(fields, f.tag, 0);
    LoopTurn(fields, EncodeTagged(f, v).value + rest, current, seen);
  }
}
