/** Message descriptors of nanopb. */
module PbFields {
  // The structs they describe and the circular field iterator (pb.h lines 225-262, pb_common.c). Fields are static:
  // required, optional with and without a presence flag, counted arrays and union members.

  import opened Basics
  import opened Coding

  datatype Kind =
    | VarintK | UVarintK | SVarintK | Fixed32K | Fixed64K
    | BytesK | StringK | SubK(fields: seq<Field>) | FixedBytesK

  /** Singular is an optional field without a presence flag. */
  datatype Rule = Required | Optional | Singular | Repeated | Oneof

  datatype Field = Field(
    tag: U32, rule: Rule, kind: Kind,
    dataOffset: U32, sizeOffset: int, dataSize: U32, arraySize: U32,
    default: Option<Value>)

  /** What a member of the struct holds; a string is its characters before the terminator. */
  datatype Value = Num(n: int) | Raw(bytes: Bytes) | Msg(slots: seq<Slot>)

  datatype Slot =
    | Single(value: Value)
    | Opt(has: bool, value: Value)
    | Rep(items: seq<Value>)
    | Union(which: U32, value: Value)

  /** The offset that marks a further member of the union the previous field belongs to. */
  const SAME_UNION: U32 := 0xFFFF_FFFF

  const BLANK := Raw([])

  predicate Packable(k: Kind) {
    k.VarintK? || k.UVarintK? || k.SVarintK? || k.Fixed32K? || k.Fixed64K?
  }

  /** Whether field `i` lies in the same union as the field before it. */
  predicate Continues(fields: seq<Field>, i: nat)
    requires i < |fields|
  {
    i > 0 && fields[i - 1].rule == Oneof && fields[i].rule == Oneof && fields[i].dataOffset == SAME_UNION
  }

  /** The struct member field `i` lives in. */
  function SlotAt(fields: seq<Field>, i: nat): nat
    requires i < |fields|
  {
    if i == 0 then 0 else SlotAt(fields, i - 1) + if Continues(fields, i) then 0 else 1
  }

  function SlotCount(fields: seq<Field>): nat {
    if fields == [] then 0 else SlotAt(fields, |fields| - 1) + 1
  }

  lemma {:induction false} SlotsGrow(fields: seq<Field>, i: nat, j: nat)
    requires i < j < |fields|
    ensures SlotAt(fields, i) <= SlotAt(fields, j)
    ensures SlotAt(fields, i) == SlotAt(fields, j) ==> fields[i].rule == Oneof && Continues(fields, j)
    decreases j
  {
    if i < j - 1 { SlotsGrow(fields, i, j - 1); }
  }

  lemma SlotInRange(fields: seq<Field>, i: nat)
    requires i < |fields|
    ensures SlotAt(fields, i) < SlotCount(fields)
  {
    if i < |fields| - 1 { SlotsGrow(fields, i, |fields| - 1); }
  }

  // ---------- where the members lie ----------

  function Extent(f: Field): nat {
    f.dataSize * if f.rule == Repeated then f.arraySize else 1
  }

  /** The address of field `i` from the start of the struct. */
  function DataAt(fields: seq<Field>, i: nat): nat
    requires i < |fields|
  {
    if i == 0 then fields[0].dataOffset
    else if Continues(fields, i) then DataAt(fields, i - 1)
    else DataAt(fields, i - 1) + Extent(fields[i - 1]) + fields[i].dataOffset
  }

  function RequiredBefore(fields: seq<Field>, i: nat): nat
    requires i <= |fields|
  {
    if i == 0 then 0 else RequiredBefore(fields, i - 1) + if fields[i - 1].rule == Required then 1 else 0
  }

  /** The address of the presence flag, count or union tag of field `i`. */
  function SizeAt(fields: seq<Field>, i: nat): int
    requires i < |fields|
  {
    if Continues(fields, i) then SizeAt(fields, i - 1) else DataAt(fields, i) + fields[i].sizeOffset
  }

  /** What follows a member of the struct lies behind the last field walked in it. */
  lemma {:induction false} MembersAreDisjoint(fields: seq<Field>, i: nat, j: nat)
    requires i < j < |fields| && !Continues(fields, i + 1)
    ensures DataAt(fields, i) + Extent(fields[i]) <= DataAt(fields, j)
    decreases j
  {
    if i < j - 1 { MembersAreDisjoint(fields, i, j - 1); }
  }

  // ---------- well-formed descriptors ----------

  function Half(size: nat): int { Pow256(size) / 2 }

  predicate Width(size: nat) { size == 1 || size == 2 || size == 4 || size == 8 }

  /** The numbers a member of `size` bytes can hold. */
  predicate NumShape(k: Kind, size: nat, n: int)
    requires Packable(k)
  {
    match k
    case VarintK => if Width(size) then -Half(size) <= n < Half(size) else 0 <= n < Pow256(size)
    case SVarintK => if Width(size) then -Half(size) <= n < Half(size) else 0 <= n < Pow256(size)
    case UVarintK => 0 <= n < Pow256(size)
    case Fixed32K => 0 <= n < TWO32
    case Fixed64K => 0 <= n < TWO64
  }

  const BYTES_HEADER: nat := 4

  /** What a member of the struct can hold; `strict` adds that its length lies inside the member's storage and
      leaves room for a string's terminator. */
  predicate ValueShape(k: Kind, size: nat, v: Value, strict: bool)
    decreases k, 0
  {
    match k
    case BytesK => v.Raw? && |v.bytes| < TWO32 && (strict ==> |v.bytes| + BYTES_HEADER <= size)
    case StringK => v.Raw? && 0 !in v.bytes && |v.bytes| <= size && (strict ==> |v.bytes| < size)
    case FixedBytesK => v.Raw? && |v.bytes| == size
    case SubK(sub) => v.Msg? && Shape(sub, v.slots, strict)
    case _ => v.Num? && NumShape(k, size, v.n)
  }

  predicate SlotShape(f: Field, s: Slot, strict: bool)
    decreases f, 0
  {
    match f.rule
    case Optional => s.Opt? && ValueShape(f.kind, f.dataSize, s.value, strict)
    case Repeated =>
      s.Rep? && |s.items| < TWO32 && (strict ==> |s.items| <= f.arraySize) &&
      forall v :: v in s.items ==> ValueShape(f.kind, f.dataSize, v, strict)
    case Oneof => s.Union? && (s.which == f.tag ==> ValueShape(f.kind, f.dataSize, s.value, strict))
    case _ => s.Single? && ValueShape(f.kind, f.dataSize, s.value, strict)
  }

  /** The struct has one slot for each member, each holding what its fields say. */
  predicate Shape(fields: seq<Field>, slots: seq<Slot>, strict: bool)
    decreases fields, 0
  {
    |slots| == SlotCount(fields) &&
    forall i: nat :: i < |fields| ==> SlotFits(fields, i, slots, strict)
  }

  predicate SlotFits(fields: seq<Field>, i: nat, slots: seq<Slot>, strict: bool)
    requires i < |fields|
    decreases fields, 0, 0
  {
    SlotAt(fields, i) < |slots| && SlotShape(fields[i], slots[SlotAt(fields, i)], strict)
  }

  const MAX_TAG := 0x2000_0000

  predicate WellFormedField(f: Field)
    decreases f, 0
  {
    0 < f.tag < MAX_TAG &&
    (f.default.Some? && !f.kind.SubK? ==> ValueShape(f.kind, f.dataSize, f.default.value, true)) &&
    (f.kind.StringK? ==> f.dataSize > 0) &&
    (f.kind.BytesK? ==> f.dataSize >= BYTES_HEADER) &&
    (f.kind.SubK? ==> WellFormed(f.kind.fields))
  }

  /** What the Protocol Buffers language asks of a message type and the generator of a member's size. */
  predicate WellFormed(fields: seq<Field>)
    decreases fields, 0
  {
    (forall i: nat :: i < |fields| ==> WellFormedField(fields[i])) &&
    forall i: nat, j: nat :: i < j < |fields| ==> fields[i].tag != fields[j].tag
  }

  // ---------- lookup ----------

  /** The first field in [from, upto) with the tag. */
  function FirstTag(fields: seq<Field>, tag: U32, from: nat, upto: nat): (r: Option<nat>)
    requires from <= upto <= |fields|
    ensures r.Some? ==> from <= r.value < upto && fields[r.value].tag == tag
    ensures forall i :: from <= i < (if r.Some? then r.value else upto) ==> fields[i].tag != tag
    decreases upto - from
  {
    if from == upto then None
    else if fields[from].tag == tag then Some(from)
    else FirstTag(fields, tag, from + 1, upto)
  }

  /** Where a search that starts at `pos` and wraps round finds the tag. */
  function Locate(fields: seq<Field>, tag: U32, pos: nat): (r: Option<nat>)
    requires pos <= |fields|
    ensures r.Some? ==> r.value < |fields| && fields[r.value].tag == tag
  {
    match FirstTag(fields, tag, pos, |fields|)
    case Some(i) => Some(i)
    case None => FirstTag(fields, tag, 0, pos)
  }

  /** The search finds a tag exactly when some field has it; when tags are distinct the place the search starts
      from does not matter. */
  lemma LocateFinds(fields: seq<Field>, tag: U32, pos: nat)
    requires pos <= |fields|
    ensures Locate(fields, tag, pos).Some? <==> exists i: nat :: i < |fields| && fields[i].tag == tag
    ensures WellFormed(fields) ==> Locate(fields, tag, pos) == Locate(fields, tag, 0)
  {
    if i: nat :| i < |fields| && fields[i].tag == tag {
      assert Locate(fields, tag, pos).Some?;
      assert Locate(fields, tag, 0).Some?;
    }
  }

  lemma LocateField(fields: seq<Field>, i: nat)
    requires WellFormed(fields) && i < |fields|
    ensures Locate(fields, fields[i].tag, 0) == Some(i)
  {
    assert Locate(fields, fields[i].tag, 0).Some?;
  }

  // ---------- the iterator ----------

  /** A walk over the fields that keeps the address of the current one up to date. */
  class FieldIter {
    const start: seq<Field>
    var pos: nat
    var slot: nat
    var pData: nat
    var pSize: int
    var requiredFieldIndex: nat

    /** The iterator stands at field `i`; in an empty message it stands at the terminator. */
    ghost predicate At(i: nat)
      reads this
    {
      pos == i &&
      if start == [] then i == 0 && slot == 0 && pData == 0 && pSize == 0 && requiredFieldIndex == 0
      else
        i < |start| && slot == SlotAt(start, i) && pData == DataAt(start, i) && pSize == SizeAt(start, i) &&
        requiredFieldIndex == RequiredBefore(start, i)
    }

    constructor (fields: seq<Field>)
      ensures start == fields && At(0)
    {
      start := fields;
      pos, slot, requiredFieldIndex := 0, 0, 0;
      pData := if fields == [] then 0 else fields[0].dataOffset;
      pSize := if fields == [] then 0 else fields[0].dataOffset + fields[0].sizeOffset;
    }

    method Begin() returns (any: bool)
      modifies this
      ensures any == (start != [])
      ensures At(0)
    {
      pos, slot, requiredFieldIndex := 0, 0, 0;
      pData := if start == [] then 0 else start[0].dataOffset;
      pSize := if start == [] then 0 else start[0].dataOffset + start[0].sizeOffset;
      any := start != [];
    }

    /** Steps to the next field, from the last one back to the first. */
    method Next() returns (more: bool)
      requires At(pos)
      modifies this
      ensures more == (old(pos) + 1 < |start|)
      ensures At(if more then old(pos) + 1 else 0)
    {
      if start == [] { return false; }
      var prev := start[pos];
      pos := pos + 1;
      if pos == |start| {
        var any := Begin();
        return false;
      }
      var size := prev.dataSize;
      if prev.rule == Oneof && start[pos].rule == Oneof && start[pos].dataOffset == SAME_UNION {
        return true;
      } else if prev.rule == Repeated {
        size := size * prev.arraySize;
      }
      if prev.rule == Required { requiredFieldIndex := requiredFieldIndex + 1; }
      slot := slot + 1;
      pData := pData + size + start[pos].dataOffset;
      pSize := pData + start[pos].sizeOffset;
      more := true;
    }

    /** Looks for a tag from the current field on, wrapping round; a miss ends where it began. In an empty message
        the terminator answers to tag 0. */
    method Find(tag: U32) returns (found: bool)
      requires At(pos)
      modifies this
      ensures start == [] ==> At(0) && found == (tag == 0)
      ensures start != [] ==>
        match Locate(start, tag, old(pos))
        case Some(i) => found && At(i)
        case None => !found && At(old(pos))
    {
      var first := pos;
      if start == [] { return tag == 0; }
      ghost var wrapped := false;
      while true
        invariant At(pos)
        invariant if wrapped then pos <= first else first <= pos
        invariant wrapped ==> pos < first || pos == 0
        invariant FirstTag(start, tag, first, |start|) == if wrapped then None else FirstTag(start, tag, pos, |start|)
        invariant wrapped ==> FirstTag(start, tag, 0, first) == FirstTag(start, tag, pos, first)
        invariant wrapped ==> first > 0
        decreases !wrapped, |start| - pos
      {
        if start[pos].tag == tag { return true; }
        var more := Next();
        wrapped := wrapped || !more;
        if pos == first { break; }
      }
      found := false;
    }
  }
}
