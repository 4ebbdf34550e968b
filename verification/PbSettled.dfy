/** Which structs nanopb's encoding keeps unchanged. */
module PbSettled {
  // Those whose absent fields hold their defaults, at every depth.

  import opened Basics
  import opened Coding
  import opened PbFields
  import opened PbWire
  import opened PbEncode
  import opened PbDecode
  import opened PbRoundTrip

  predicate SettledValue(k: Kind, size: nat, v: Value)
    requires ValueShape(k, size, v, false)
    decreases k, 0
  {
    k.SubK? ==> Settled(k.fields, v.slots)
  }

  /** A field that is not written holds its default; one that is written holds a settled value. */
  predicate SettledSlot(f: Field, s: Slot)
    requires SlotShape(f, s, false)
    decreases f, 0
  {
    if !Present(f, s) then f.rule == Oneof || s == DefaultSlot(f)
    else if f.rule == Repeated then forall v :: v in s.items ==> SettledValue(f.kind, f.dataSize, v)
    else SettledValue(f.kind, f.dataSize, s.value)
  }

  /** The member of a union that is in use, if there is one. */
  predicate Uses(fields: seq<Field>, slots: seq<Slot>, k: nat, j: nat)
    requires Shape(fields, slots, false)
  {
    j < |fields| && SlotAt(fields, j) == k && SlotFits(fields, j, slots, false) && Present(fields[j], slots[k])
  }

  predicate SettledAt(fields: seq<Field>, slots: seq<Slot>, i: nat)
    requires i < |fields| && Shape(fields, slots, false)
    decreases fields, 0
  {
    assert SlotFits(fields, i, slots, false);
    var k := SlotAt(fields, i);
    SettledSlot(fields[i], slots[k]) &&
    (fields[i].rule == Oneof ==>
      slots[k] == Union(0, BLANK) || exists j: nat :: j < |fields| && Uses(fields, slots, k, j))
  }

  predicate Settled(fields: seq<Field>, slots: seq<Slot>)
    requires Shape(fields, slots, false)
    decreases fields, 1
  {
    forall i: nat :: i < |fields| ==> SettledAt(fields, slots, i)
  }

  // ---------- what the overlay holds in each slot ----------

  lemma {:induction false} SlotOwner(fields: seq<Field>, k: nat, n: nat) returns (i: nat)
    requires 0 < n <= |fields| && k <= SlotAt(fields, n - 1)
    ensures i < n && SlotAt(fields, i) == k
    decreases n
  {
    if SlotAt(fields, n - 1) == k { i := n - 1; } else { i := SlotOwner(fields, k, n - 1); }
  }

  /** Only one field of a slot is written. */
  lemma OneUser(fields: seq<Field>, slots: seq<Slot>, k: nat, i: nat, j: nat)
    requires WellFormed(fields) && Shape(fields, slots, false)
    requires Uses(fields, slots, k, i) && Uses(fields, slots, k, j)
    ensures i == j
  {
    hide ValueShape, IsDefault;
    assert i != j ==> fields[i].tag != fields[j].tag;
    if i != j {
      SlotsGrow(fields, if i < j then i else j, if i < j then j else i);
    }
  }

  lemma OverlayStep(fields: seq<Field>, slots: seq<Slot>, n: nat, k: nat)
    requires n < |fields| && k < SlotCount(fields) && Shape(fields, slots, false)
    ensures Uses(fields, slots, k, n) ==>
      Overlay(fields, slots, n + 1)[k] == CanonSlot(fields[n], slots[k])
    ensures !Uses(fields, slots, k, n) ==> Overlay(fields, slots, n + 1)[k] == Overlay(fields, slots, n)[k]
  {
    hide CanonSlot, SlotShape, Present;
    FieldOf(fields, slots, n);
    assert SlotFits(fields, n, slots, false);
  }

  lemma {:induction false} OverlayUsed(fields: seq<Field>, slots: seq<Slot>, n: nat, k: nat, j: nat)
    requires WellFormed(fields) && Shape(fields, slots, false) && n <= |fields|
    requires Uses(fields, slots, k, j) && j < n && k < SlotCount(fields)
    ensures Overlay(fields, slots, n)[k] == CanonSlot(fields[j], slots[k])
    decreases n
  {
    hide Overlay, Shape, CanonSlot, SlotShape, Present, WellFormed;
    OverlayStep(fields, slots, n - 1, k);
    if j < n - 1 {
      assert !Uses(fields, slots, k, n - 1) by {
        if Uses(fields, slots, k, n - 1) { OneUser(fields, slots, k, j, n - 1); }
      }
      OverlayUsed(fields, slots, n - 1, k, j);
    }
  }

  lemma {:induction false} OverlayUnused(fields: seq<Field>, slots: seq<Slot>, n: nat, k: nat)
    requires Shape(fields, slots, false) && n <= |fields| && k < SlotCount(fields)
    requires forall j: nat :: !Uses(fields, slots, k, j)
    ensures Overlay(fields, slots, n)[k] == Defaults(fields)[k]
    decreases n
  {
    hide Shape, Defaults;
    if n > 0 {
      OverlayStep(fields, slots, n - 1, k);
      OverlayUnused(fields, slots, n - 1, k);
    }
  }

  // ---------- settled structs ----------

  lemma {:induction false} SettledValueIff(k: Kind, size: nat, v: Value)
    requires ValueShape(k, size, v, false) && (k.SubK? ==> WellFormed(k.fields))
    ensures SettledValue(k, size, v) <==> CanonValue(k, size, v) == v
    decreases k, 0
  {
    if k.SubK? { SettledIff(k.fields, v.slots); }
  }

  lemma {:induction false} SettledItemsIff(f: Field, items: seq<Value>)
    requires ItemsShape(f.kind, f.dataSize, items, false) && WellFormedField(f)
    ensures (forall v :: v in items ==> SettledValue(f.kind, f.dataSize, v)) <==> CanonItems(f, items) == items
    decreases f, 0, |items|
  {
    hide WellFormed, ValueShape, SettledValue, CanonValue;
    if items != [] {
      assert items[0] in items && items == [items[0]] + items[1..];
      SettledValueIff(f.kind, f.dataSize, items[0]);
      SettledItemsIff(f, items[1..]);
      assert CanonItems(f, items)[1..] == CanonItems(f, items[1..]);
    }
  }

  lemma {:induction false} SettledSlotIff(f: Field, s: Slot)
    requires WellFormedField(f) && SlotShape(f, s, false) && Present(f, s)
    ensures SettledSlot(f, s) <==> CanonSlot(f, s) == s
    decreases f, 1
  {
    hide WellFormed, ValueShape, SettledValue, CanonValue, IsDefault, CanonItems;
    if f.rule == Repeated { SettledItemsIff(f, s.items); } else { SettledValueIff(f.kind, f.dataSize, s.value); }
  }

  /** One slot is kept exactly when every field that lives in it is settled. */
  lemma {:induction false} SlotKeptIff(fields: seq<Field>, slots: seq<Slot>, i: nat)
    requires WellFormed(fields) && Shape(fields, slots, false) && i < |fields|
    ensures SlotAt(fields, i) < SlotCount(fields)
    ensures Canonical(fields, slots)[SlotAt(fields, i)] == slots[SlotAt(fields, i)] ==> SettledAt(fields, slots, i)
    ensures Settled(fields, slots) ==>
      Canonical(fields, slots)[SlotAt(fields, i)] == slots[SlotAt(fields, i)]
    decreases fields, 0
  {
    hide ValueShape, IsDefault, CanonSlot, Overlay, WellFormedField, SettledValue, DefaultSlot;
    SlotInRange(fields, i);
    var k := SlotAt(fields, i);
    assert SlotFits(fields, i, slots, false);
    DefaultsAt(fields, |fields|, i);
    if j: nat :| Uses(fields, slots, k, j) {
      assert WellFormedField(fields[j]);
      OverlayUsed(fields, slots, |fields|, k, j);
      SettledSlotIff(fields[j], slots[k]);
      assert Settled(fields, slots) ==> SettledAt(fields, slots, j);
      if i != j {
        SlotsGrow(fields, if i < j then i else j, if i < j then j else i);
        assert fields[i].tag != fields[j].tag;
      }
    } else {
      OverlayUnused(fields, slots, |fields|, k);
      assert !Uses(fields, slots, k, i);
      assert Settled(fields, slots) ==> SettledAt(fields, slots, i);
    }
  }

  lemma {:induction false} SettledIff(fields: seq<Field>, slots: seq<Slot>)
    requires WellFormed(fields) && Shape(fields, slots, false)
    ensures Settled(fields, slots) <==> Canonical(fields, slots) == slots
    decreases fields, 1
  {
    hide WellFormed, SettledAt, SlotFits, Laid;
    forall i: nat | i < |fields|
      ensures Canonical(fields, slots) == slots ==> SettledAt(fields, slots, i)
    {
      SlotKeptIff(fields, slots, i);
    }
    if Settled(fields, slots) {
      forall k: nat | k < |slots| ensures Canonical(fields, slots)[k] == slots[k] {
        var i := SlotOwner(fields, k, |fields|);
        SlotKeptIff(fields, slots, i);
      }
    }
  }

  // ---------- the round trip ----------

  /** For every message type and every struct of it that the encoder accepts: the bytes are decoded, to the last
      one, exactly when every string is terminated inside its member and every length fits 32 bits; what is rebuilt
      is then the struct with its absent fields reset, which is the struct itself exactly when those fields hold
      their defaults. */
  lemma RoundTrip(fields: seq<Field>, slots: seq<Slot>)
    requires WellFormed(fields) && Shape(fields, slots, false)
    requires Encode(fields, slots).Some? && Limited(fields, slots, MAX_OBJECT, false)
    ensures
      var decoded := Decode(fields, Encode(fields, slots).value);
      (decoded.Some? <==> Limited(fields, slots, TWO32, true)) &&
      (decoded.Some? ==> decoded == Some((Canonical(fields, slots), []))) &&
      (decoded == Some((slots, [])) <==> Limited(fields, slots, TWO32, true) && Settled(fields, slots))
  {
    hide WellFormed, Shape, EncodeFrom, DecodeMerge, Limited, Settled, Canonical;
    DefaultsShape(fields);
    MessageRoundTrip(fields, slots);
    SettledIff(fields, slots);
  }

  /** A string that fills its member has no terminator there. The encoder stops at the end of the member, the
      decoder wants one byte more. */
  lemma UnterminatedStringFails()
    ensures
      var fields := [Field(1, Required, StringK, 0, 0, 2, 0, None)];
      var slots := [Single(Raw([65, 66]))];
      WellFormed(fields) && Shape(fields, slots, false) &&
      Encode(fields, slots) == Some([10, 2, 65, 66]) && Decode(fields, [10, 2, 65, 66]) == None
  {
    var f := Field(1, Required, StringK, 0, 0, 2, 0, None);
    var fields, s := [f], Single(Raw([65, 66]));
    var slots := [s];
    assert SlotAt(fields, 0) == 0;
    assert ValueShape(StringK, 2, Raw([65, 66]), false);
    assert SlotShape(f, s, false);
    assert forall i: nat :: i < |fields| ==> SlotFits(fields, i, slots, false);
    assert WellFormedField(f);
    assert WellFormed(fields);
    assert EncodeFrom(fields, slots, 1) == Some([]);
    assert Encode(fields, slots) == Cat(EncodeAt(fields, slots, 0), EncodeFrom(fields, slots, 1));
    assert EncodeAt(fields, slots, 0) == EncodeField(f, s) == EncodeTagged(f, s.value);
    assert Tag(STRING, 1) == [10] && Delimited([65, 66]) == [2] + [65, 66];
    assert Encode(fields, slots).value == [10, 2, 65, 66];
    assert Limited(fields, slots, MAX_OBJECT, false);
    assert LimitedAt(fields, slots, 0, TWO32, true) == ValueLimited(StringK, 2, s.value, TWO32, true);
    assert !Limited(fields, slots, TWO32, true);
    RoundTrip(fields, slots);
  }
}
