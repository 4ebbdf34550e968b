/** What a message keeps. */
module PbFidelity {
  // What a struct and the struct decoded from its bytes have in common. Presence is told by the flag, the zero, the
  // count and the union tag themselves (pb_encode.c lines 126-392 and 494-542; pb_decode.c lines 811-1063).

  import opened Basics
  import opened PbFields
  import opened PbWire
  import opened PbEncode
  import opened PbDecode
  import opened PbRoundTrip
  import opened PbSettled

  // ---------- which structs are encoded ----------

  predicate ZeroOrEmpty(v: Value) {
    v == Num(0) || v == Raw([])
  }

  predicate AcceptedValue(k: Kind, size: nat, v: Value)
    requires ValueShape(k, size, v, false)
    decreases k, 0
  {
    match k
    case BytesK => |v.bytes| + BYTES_HEADER <= size
    case SubK(sub) => Accepted(sub, v.slots)
    case VarintK => Width(size)
    case UVarintK => Width(size)
    case SVarintK => Width(size)
    case _ => true
  }

  /** Bytes in use fit their member, numbers in use have a width of the machine, arrays have no more items than room. */
  predicate AcceptedSlot(f: Field, s: Slot)
    requires SlotShape(f, s, false)
    decreases f, 0
  {
    match f.rule
    case Required => AcceptedValue(f.kind, f.dataSize, s.value)
    case Optional => s.has ==> AcceptedValue(f.kind, f.dataSize, s.value)
    case Singular => ZeroOrEmpty(s.value) || AcceptedValue(f.kind, f.dataSize, s.value)
    case Repeated => |s.items| <= f.arraySize && forall v :: v in s.items ==> AcceptedValue(f.kind, f.dataSize, v)
    case Oneof => s.which == f.tag ==> AcceptedValue(f.kind, f.dataSize, s.value)
  }

  predicate AcceptedAt(fields: seq<Field>, slots: seq<Slot>, i: nat)
    requires i < |fields| && Shape(fields, slots, false)
    decreases fields, 0
  {
    assert SlotFits(fields, i, slots, false);
    AcceptedSlot(fields[i], slots[SlotAt(fields, i)])
  }

  predicate Accepted(fields: seq<Field>, slots: seq<Slot>)
    requires Shape(fields, slots, false)
    decreases fields, 1
  {
    forall i: nat :: i < |fields| ==> AcceptedAt(fields, slots, i)
  }

  lemma ZeroIsZero(k: Kind, size: nat, v: Value)
    requires ValueShape(k, size, v, false) && ZeroOrEmpty(v)
    ensures IsZero(k, size, v)
  {
  }

  lemma DefaultIsUnwritten(fields: seq<Field>, slots: seq<Slot>, i: nat)
    requires WellFormed(fields) && Shape(fields, slots, false) && i < |fields| && DefaultAt(fields, slots, i)
    ensures WellFormedField(fields[i]) && SlotAt(fields, i) < |slots|
    ensures SlotShape(fields[i], slots[SlotAt(fields, i)], false)
    ensures IsDefault(fields[i], slots[SlotAt(fields, i)]) && !Present(fields[i], slots[SlotAt(fields, i)])
  {
    hide IsZero, ValueShape;
    assert SlotFits(fields, i, slots, false) && WellFormedField(fields[i]);
  }

  lemma {:induction false} ZeroIsAccepted(k: Kind, size: nat, v: Value)
    requires ValueShape(k, size, v, false) && IsZero(k, size, v) && (k.SubK? ==> WellFormed(k.fields))
    ensures ZeroOrEmpty(v) || AcceptedValue(k, size, v)
    decreases k, 1
  {
    if k.SubK? {
      forall i: nat | i < |k.fields| ensures AcceptedAt(k.fields, v.slots, i) {
        DefaultIsUnwritten(k.fields, v.slots, i);
        DefaultIsAccepted(k.fields[i], v.slots[SlotAt(k.fields, i)]);
      }
      assert Accepted(k.fields, v.slots);
    }
  }

  lemma {:induction false} DefaultIsAccepted(f: Field, s: Slot)
    requires WellFormedField(f) && SlotShape(f, s, false) && IsDefault(f, s)
    ensures AcceptedSlot(f, s)
    decreases f, 1
  {
    if f.rule == Singular { ZeroIsAccepted(f.kind, f.dataSize, s.value); }
  }

  lemma {:induction false} ValueAcceptedIff(k: Kind, size: nat, v: Value)
    requires ValueShape(k, size, v, false) && (k.SubK? ==> WellFormed(k.fields))
    ensures EncodeValue(k, size, v).Some? <==> AcceptedValue(k, size, v)
    decreases k, 1
  {
    hide NumShape;
    if k.SubK? { EncodedIff(k.fields, v.slots); }
  }

  lemma {:induction false} ItemsAcceptedIff(f: Field, items: seq<Value>)
    requires WellFormedField(f) && ItemsShape(f.kind, f.dataSize, items, false)
    ensures EncodeEach(f, items).Some? <==> forall v :: v in items ==> AcceptedValue(f.kind, f.dataSize, v)
    decreases f, 0, |items|
  {
    hide ValueShape, AcceptedValue, EncodeValue, WellFormed;
    if items != [] {
      assert items[0] in items && items == [items[0]] + items[1..];
      ValueAcceptedIff(f.kind, f.dataSize, items[0]);
      ItemsAcceptedIff(f, items[1..]);
    }
  }

  lemma {:induction false} PackedAcceptedIff(f: Field, items: seq<Value>)
    requires Packable(f.kind) && ItemsShape(f.kind, f.dataSize, items, false)
    ensures EncodePacked(f.kind, f.dataSize, items).Some? <==>
      forall v :: v in items ==> AcceptedValue(f.kind, f.dataSize, v)
    decreases |items|
  {
    hide NumShape, Width;
    if items != [] {
      assert items[0] in items && items == [items[0]] + items[1..];
      PackedAcceptedIff(f, items[1..]);
    }
  }

  lemma {:induction false} FieldAcceptedIff(f: Field, s: Slot)
    requires WellFormedField(f) && SlotShape(f, s, false)
    ensures EncodeField(f, s).Some? <==> AcceptedSlot(f, s)
    decreases f, 1
  {
    hide AcceptedValue, EncodeValue, EncodePacked, EncodeEach, WellFormed;
    if f.rule == Repeated {
      if Packable(f.kind) { PackedAcceptedIff(f, s.items); } else { ItemsAcceptedIff(f, s.items); }
    } else {
      if f.rule != Oneof || s.which == f.tag { ValueAcceptedIff(f.kind, f.dataSize, s.value); }
      if f.rule == Singular && IsZero(f.kind, f.dataSize, s.value) { ZeroIsAccepted(f.kind, f.dataSize, s.value); }
    }
  }

  /** The encoder succeeds exactly on the accepted structs. */
  lemma {:induction false} EncodedIff(fields: seq<Field>, slots: seq<Slot>)
    requires WellFormed(fields) && Shape(fields, slots, false)
    ensures EncodeFrom(fields, slots, 0).Some? <==> Accepted(fields, slots)
    decreases fields, 2
  {
    forall i: nat | i < |fields| ensures EncodedAt(fields, slots, i) <==> AcceptedAt(fields, slots, i) {
      AtAcceptedIff(fields, slots, i);
    }
    AllEncodedIff(fields, slots, 0);
  }

  lemma {:induction false} AtAcceptedIff(fields: seq<Field>, slots: seq<Slot>, i: nat)
    requires WellFormed(fields) && Shape(fields, slots, false) && i < |fields|
    ensures EncodedAt(fields, slots, i) <==> AcceptedAt(fields, slots, i)
    decreases fields, 0
  {
    hide EncodeField, AcceptedSlot, SlotShape;
    assert SlotFits(fields, i, slots, false) && WellFormedField(fields[i]);
    FieldAcceptedIff(fields[i], slots[SlotAt(fields, i)]);
  }

  predicate EncodedAt(fields: seq<Field>, slots: seq<Slot>, i: nat)
    requires i < |fields| && Shape(fields, slots, false)
  {
    EncodeAt(fields, slots, i).Some?
  }

  lemma {:induction false} AllEncodedIff(fields: seq<Field>, slots: seq<Slot>, i: nat)
    requires i <= |fields| && Shape(fields, slots, false)
    ensures EncodeFrom(fields, slots, i).Some? <==>
      forall j: nat :: i <= j < |fields| ==> EncodedAt(fields, slots, j)
    decreases |fields| - i
  {
    if i < |fields| {
      AllEncodedIff(fields, slots, i + 1);
      assert EncodeFrom(fields, slots, i).Some? <==>
        EncodedAt(fields, slots, i) && EncodeFrom(fields, slots, i + 1).Some?;
    }
  }

  // ---------- what comes back ----------

  predicate SameValue(k: Kind, size: nat, s: Value, t: Value)
    requires ValueShape(k, size, s, false)
    decreases k, 0
  {
    if k.SubK? then t.Msg? && SameStruct(k.fields, s.slots, t.slots) else t == s
  }

  /** What decoding makes of slot `s` is `t`: presence flags, item counts and the use of a union are kept, and so is
      every value they say is there. A flagged field that is not set holds its default, and a number, bytes or string
      without a flag is itself unless it is zero or empty and a default is declared. */
  predicate SameSlot(f: Field, s: Slot, t: Slot)
    requires SlotShape(f, s, false)
    decreases f, 0
  {
    match f.rule
    case Required => t.Single? && SameValue(f.kind, f.dataSize, s.value, t.value)
    case Optional =>
      t.Opt? && t.has == s.has &&
      if s.has then SameValue(f.kind, f.dataSize, s.value, t.value)
      else t.value == DefaultValue(f.kind, f.dataSize, f.default)
    case Singular =>
      t.Single? &&
      if ZeroOrEmpty(s.value) && f.default.Some? then t.value == f.default.value
      else SameValue(f.kind, f.dataSize, s.value, t.value)
    case Repeated =>
      t.Rep? && |t.items| == |s.items| &&
      forall i: nat :: i < |s.items| ==> SameItem(f, s.items, t.items, i)
    case Oneof =>
      t.Union? && (t.which == f.tag <==> s.which == f.tag) &&
      (s.which == f.tag ==> SameValue(f.kind, f.dataSize, s.value, t.value))
  }

  predicate SameItem(f: Field, s: seq<Value>, t: seq<Value>, i: nat)
    requires ItemsShape(f.kind, f.dataSize, s, false) && i < |s| == |t|
    decreases f, 0, 0
  {
    assert s[i] in s;
    SameValue(f.kind, f.dataSize, s[i], t[i])
  }

  predicate SameAt(fields: seq<Field>, slots: seq<Slot>, after: seq<Slot>, i: nat)
    requires i < |fields| && Shape(fields, slots, false) && |after| == |slots|
    decreases fields, 0
  {
    assert SlotFits(fields, i, slots, false);
    SameSlot(fields[i], slots[SlotAt(fields, i)], after[SlotAt(fields, i)])
  }

  predicate SameStruct(fields: seq<Field>, slots: seq<Slot>, after: seq<Slot>)
    requires Shape(fields, slots, false)
    decreases fields, 1
  {
    |after| == |slots| && forall i: nat :: i < |fields| ==> SameAt(fields, slots, after, i)
  }

  /** A zero that is not written is what the decoder starts from. */
  lemma {:induction false} ZeroComesBack(k: Kind, size: nat, v: Value, default: Option<Value>)
    requires ValueShape(k, size, v, false) && IsZero(k, size, v) && (k.SubK? ==> WellFormed(k.fields))
    ensures var t := DefaultValue(k, size, default);
      if ZeroOrEmpty(v) && default.Some? then t == default.value else SameValue(k, size, v, t)
    decreases k, 1
  {
    if k.SubK? {
      forall i: nat | i < |k.fields| ensures SameAt(k.fields, v.slots, Defaults(k.fields), i) {
        DefaultIsUnwritten(k.fields, v.slots, i);
        DefaultsAt(k.fields, |k.fields|, i);
        UnwrittenComesBack(k.fields[i], v.slots[SlotAt(k.fields, i)]);
      }
    }
  }

  /** What the decoder starts the slot of a field from. */
  function Initial(f: Field): Slot {
    if f.rule == Oneof then Union(0, BLANK) else DefaultSlot(f)
  }

  lemma {:induction false} UnwrittenComesBack(f: Field, s: Slot)
    requires WellFormedField(f) && SlotShape(f, s, false) && !Present(f, s)
    ensures SameSlot(f, s, Initial(f))
    decreases f, 1
  {
    if f.rule == Singular { ZeroComesBack(f.kind, f.dataSize, s.value, f.default); }
  }

  lemma {:induction false} ValueComesBack(k: Kind, size: nat, v: Value)
    requires ValueShape(k, size, v, false) && (k.SubK? ==> WellFormed(k.fields))
    ensures SameValue(k, size, v, CanonValue(k, size, v))
    decreases k, 1
  {
    if k.SubK? { StructComesBack(k.fields, v.slots); }
  }

  lemma {:induction false} ItemsComeBack(f: Field, items: seq<Value>, i: nat)
    requires WellFormedField(f) && ItemsShape(f.kind, f.dataSize, items, false) && i < |items|
    ensures SameItem(f, items, CanonItems(f, items), i)
    decreases f, 0, i
  {
    hide ValueShape, SameValue, CanonValue, WellFormed;
    assert items[0] in items && items == [items[0]] + items[1..];
    if i == 0 {
      ValueComesBack(f.kind, f.dataSize, items[0]);
    } else {
      ItemsComeBack(f, items[1..], i - 1);
      assert CanonItems(f, items)[i] == CanonItems(f, items[1..])[i - 1];
    }
  }

  lemma {:induction false} WrittenComesBack(f: Field, s: Slot)
    requires WellFormedField(f) && SlotShape(f, s, false) && Present(f, s)
    ensures SameSlot(f, s, CanonSlot(f, s))
    decreases f, 1
  {
    hide SameValue, CanonValue, CanonItems, WellFormed, IsZero, ValueShape;
    if f.rule == Repeated {
      forall i: nat | i < |s.items| ensures SameItem(f, s.items, CanonItems(f, s.items), i) {
        ItemsComeBack(f, s.items, i);
      }
    } else {
      ValueComesBack(f.kind, f.dataSize, s.value);
      if f.rule == Singular && ZeroOrEmpty(s.value) { ZeroIsZero(f.kind, f.dataSize, s.value); }
    }
  }

  /** One field of the struct laid over the defaults is the field of the struct. */
  lemma {:induction false} FieldComesBack(fields: seq<Field>, slots: seq<Slot>, i: nat)
    requires WellFormed(fields) && Shape(fields, slots, false) && i < |fields|
    ensures SameAt(fields, slots, Canonical(fields, slots), i)
    decreases fields, 0
  {
    hide ValueShape, IsDefault, CanonSlot, Overlay, WellFormedField, SameValue, DefaultSlot;
    SlotInRange(fields, i);
    var k := SlotAt(fields, i);
    assert SlotFits(fields, i, slots, false) && WellFormedField(fields[i]);
    DefaultsAt(fields, |fields|, i);
    if j: nat :| Uses(fields, slots, k, j) {
      OverlayUsed(fields, slots, |fields|, k, j);
      if i == j {
        WrittenComesBack(fields[i], slots[k]);
      } else {
        SlotsGrow(fields, if i < j then i else j, if i < j then j else i);
        assert fields[i].tag != fields[j].tag;
        OtherMember(fields[i], fields[j], slots[k]);
      }
    } else {
      OverlayUnused(fields, slots, |fields|, k);
      assert !Uses(fields, slots, k, i);
      UnwrittenComesBack(fields[i], slots[k]);
    }
  }

  lemma OtherMember(f: Field, g: Field, s: Slot)
    requires f.rule == Oneof && g.rule == Oneof && f.tag != g.tag
    requires SlotShape(f, s, false) && SlotShape(g, s, false) && Present(g, s)
    ensures SameSlot(f, s, CanonSlot(g, s))
  {
  }

  lemma {:induction false} StructComesBack(fields: seq<Field>, slots: seq<Slot>)
    requires WellFormed(fields) && Shape(fields, slots, false)
    ensures SameStruct(fields, slots, Canonical(fields, slots))
    decreases fields, 1
  {
    hide WellFormed, SameAt, Overlay, SlotFits;
    forall i: nat | i < |fields| ensures SameAt(fields, slots, Canonical(fields, slots), i) {
      FieldComesBack(fields, slots, i);
    }
  }

  /** Nothing that a struct says gets lost on the way: if its bytes can be decoded, what comes back says the same. */
  lemma NothingIsLost(fields: seq<Field>, slots: seq<Slot>)
    requires WellFormed(fields) && Shape(fields, slots, false) && Accepted(fields, slots)
    requires Limited(fields, slots, MAX_OBJECT, false)
    ensures Encode(fields, slots).Some?
    ensures var decoded := Decode(fields, Encode(fields, slots).value);
      decoded.Some? ==> SameStruct(fields, slots, decoded.value.0) && decoded.value.1 == []
  {
    hide WellFormed, Shape, Accepted, Limited, SameStruct, Canonical, EncodeFrom, DecodeMerge;
    EncodedIff(fields, slots);
    RoundTrip(fields, slots);
    StructComesBack(fields, slots);
  }
}
