/** What nanopb's encoder writes for a struct (pb_encode.c lines 126-392, 494-542 and 682-869), as a function of the
    descriptor and the struct, without streams. */
module PbEncode {
  import opened Basics
  import opened PbFields
  import opened PbWire

  function Cat(a: Option<Bytes>, b: Option<Bytes>): Option<Bytes> {
    if a.Some? && b.Some? then Some(a.value + b.value) else None
  }

  /** Whether a field counts as unset inside a proto3 message. */
  predicate IsDefault(f: Field, s: Slot)
    requires SlotShape(f, s, false)
    decreases f, 1
  {
    match f.rule
    case Required => false
    case Optional => !s.has
    case Repeated => s.items == []
    case Oneof => s.which == 0
    case Singular => IsZero(f.kind, f.dataSize, s.value)
  }

  predicate IsZero(k: Kind, size: nat, v: Value)
    requires ValueShape(k, size, v, false)
    decreases k, 1
  {
    match k
    case BytesK => v.bytes == []
    case StringK => v.bytes == []
    case FixedBytesK => size == 0
    case SubK(sub) => forall i: nat :: i < |sub| ==> DefaultAt(sub, v.slots, i)
    case _ => v.n == 0
  }

  predicate DefaultAt(fields: seq<Field>, slots: seq<Slot>, i: nat)
    requires i < |fields| && Shape(fields, slots, false)
    decreases fields, 0
  {
    assert SlotFits(fields, i, slots, false);
    IsDefault(fields[i], slots[SlotAt(fields, i)])
  }

  function EncodeValue(k: Kind, size: nat, v: Value): Option<Bytes>
    requires ValueShape(k, size, v, false)
    decreases k, 0
  {
    match k
    case BytesK => if |v.bytes| + BYTES_HEADER > size then None else Some(Delimited(v.bytes))
    case StringK => Some(Delimited(v.bytes))
    case FixedBytesK => Some(Delimited(v.bytes))
    case SubK(sub) =>
      (match EncodeFrom(sub, v.slots, 0)
       case None => None
       case Some(payload) => Some(Delimited(payload)))
    case _ => EncodeNum(k, size, v.n)
  }

  function EncodeTagged(f: Field, v: Value): Option<Bytes>
    requires ValueShape(f.kind, f.dataSize, v, false)
    decreases f, 0
  {
    Cat(Some(Tag(WireOf(f.kind), f.tag)), EncodeValue(f.kind, f.dataSize, v))
  }

  predicate ItemsShape(k: Kind, size: nat, items: seq<Value>, strict: bool) {
    forall v :: v in items ==> ValueShape(k, size, v, strict)
  }

  /** The items of a packed array. */
  function EncodePacked(k: Kind, size: nat, items: seq<Value>): Option<Bytes>
    requires Packable(k) && ItemsShape(k, size, items, false)
  {
    if items == [] then Some([])
    else
      assert items[0] in items;
      Cat(EncodeNum(k, size, items[0].n), EncodePacked(k, size, items[1..]))
  }

  /** The items of an array one by one, each with its tag. */
  function EncodeEach(f: Field, items: seq<Value>): Option<Bytes>
    requires ItemsShape(f.kind, f.dataSize, items, false)
    decreases f, 1, |items|
  {
    if items == [] then Some([])
    else
      assert items[0] in items;
      Cat(EncodeTagged(f, items[0]), EncodeEach(f, items[1..]))
  }

  function EncodeArray(f: Field, items: seq<Value>): Option<Bytes>
    requires ItemsShape(f.kind, f.dataSize, items, false)
    decreases f, 2
  {
    if items == [] then Some([])
    else if |items| > f.arraySize then None
    else if Packable(f.kind) then
      match EncodePacked(f.kind, f.dataSize, items)
      case None => None
      case Some(payload) => Some(Tag(STRING, f.tag) + Delimited(payload))
    else EncodeEach(f, items)
  }

  /** Whether a field is written at all. */
  predicate Present(f: Field, s: Slot)
    requires SlotShape(f, s, false)
  {
    match f.rule
    case Required => true
    case Optional => s.has
    case Singular => !IsDefault(f, s)
    case Repeated => s.items != []
    case Oneof => s.which == f.tag
  }

  function EncodeField(f: Field, s: Slot): Option<Bytes>
    requires SlotShape(f, s, false)
    decreases f, 3
  {
    if !Present(f, s) then Some([])
    else if f.rule == Repeated then EncodeArray(f, s.items)
    else EncodeTagged(f, s.value)
  }

  function EncodeAt(fields: seq<Field>, slots: seq<Slot>, i: nat): Option<Bytes>
    requires i < |fields| && Shape(fields, slots, false)
    decreases fields, 0
  {
    assert SlotFits(fields, i, slots, false);
    EncodeField(fields[i], slots[SlotAt(fields, i)])
  }

  /** Fields `i` and on. */
  function EncodeFrom(fields: seq<Field>, slots: seq<Slot>, i: nat): Option<Bytes>
    requires i <= |fields| && Shape(fields, slots, false)
    decreases fields, 1, |fields| - i
  {
    if i == |fields| then Some([])
    else Cat(EncodeAt(fields, slots, i), EncodeFrom(fields, slots, i + 1))
  }

  function Encode(fields: seq<Field>, slots: seq<Slot>): Option<Bytes>
    requires Shape(fields, slots, false)
  {
    EncodeFrom(fields, slots, 0)
  }

  lemma {:induction false} PackedFixedSize(k: Kind, size: nat, items: seq<Value>)
    requires k == Fixed32K || k == Fixed64K
    requires ItemsShape(k, size, items, false)
    ensures EncodePacked(k, size, items).Some?
    ensures |EncodePacked(k, size, items).value| == (if k == Fixed32K then 4 else 8) * |items|
  {
    if items != [] {
      assert items[0] in items;
      PackedFixedSize(k, size, items[1..]);
    }
  }

  // ---------- lengths ----------

  predicate ShorterThan(bytes: Option<Bytes>, limit: nat) {
    bytes.Some? ==> |bytes.value| < limit
  }

  /** Everything written behind a length is shorter than `limit`; `terminated` adds that no string fills its member
      without a terminator. */
  predicate ValueLimited(k: Kind, size: nat, v: Value, limit: nat, terminated: bool)
    requires ValueShape(k, size, v, false)
    decreases k, 0
  {
    match k
    case SubK(sub) => ShorterThan(EncodeFrom(sub, v.slots, 0), limit) && Limited(sub, v.slots, limit, terminated)
    case StringK => terminated ==> |v.bytes| < size
    case _ => true
  }

  predicate FieldLimited(f: Field, s: Slot, limit: nat, terminated: bool)
    requires SlotShape(f, s, false)
    decreases f, 0
  {
    Present(f, s) ==>
      if f.rule == Repeated then
        (Packable(f.kind) ==> ShorterThan(EncodePacked(f.kind, f.dataSize, s.items), limit)) &&
        forall v :: v in s.items ==> ValueLimited(f.kind, f.dataSize, v, limit, terminated)
      else ValueLimited(f.kind, f.dataSize, s.value, limit, terminated)
  }

  predicate LimitedAt(fields: seq<Field>, slots: seq<Slot>, i: nat, limit: nat, terminated: bool)
    requires i < |fields| && Shape(fields, slots, false)
    decreases fields, 0
  {
    assert SlotFits(fields, i, slots, false);
    FieldLimited(fields[i], slots[SlotAt(fields, i)], limit, terminated)
  }

  predicate Limited(fields: seq<Field>, slots: seq<Slot>, limit: nat, terminated: bool)
    requires Shape(fields, slots, false)
    decreases fields, 1
  {
    forall i: nat :: i < |fields| ==> LimitedAt(fields, slots, i, limit, terminated)
  }
}
