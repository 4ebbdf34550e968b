/** What nanopb's decoder makes of a byte string. */
module PbDecode {
  // A function of the descriptor, the bytes and the struct they are decoded into
  // (pb_decode.c lines 401-475, 811-1063 and 1391-1508).

  import opened Basics
  import opened Coding
  import opened PbFields
  import opened PbWire

  // ---------- defaults ----------

  function DefaultValue(k: Kind, size: nat, default: Option<Value>): Value
    decreases k, 0
  {
    match k
    case SubK(sub) => Msg(Defaults(sub))
    case BytesK => if default.Some? then default.value else Raw([])
    case StringK => if default.Some? then default.value else Raw([])
    case FixedBytesK => if default.Some? then default.value else Raw(Zeros(size))
    case _ => if default.Some? then default.value else Num(0)
  }

  function DefaultSlot(f: Field): Slot
    decreases f, 0
  {
    match f.rule
    case Optional => Opt(false, DefaultValue(f.kind, f.dataSize, f.default))
    case Repeated => Rep([])
    case Oneof => Union(0, BLANK)
    case _ => Single(DefaultValue(f.kind, f.dataSize, f.default))
  }

  /** The members of the first `n` fields. */
  function DefaultsUpTo(fields: seq<Field>, n: nat): (r: seq<Slot>)
    requires n <= |fields|
    ensures |r| == if n == 0 then 0 else SlotAt(fields, n - 1) + 1
    decreases fields, 0, n
  {
    if n == 0 then []
    else
      DefaultsUpTo(fields, n - 1) + if Continues(fields, n - 1) then [] else [DefaultSlot(fields[n - 1])]
  }

  function Defaults(fields: seq<Field>): (r: seq<Slot>)
    ensures |r| == SlotCount(fields)
    decreases fields, 1
  {
    DefaultsUpTo(fields, |fields|)
  }

  lemma {:induction false} DefaultsAt(fields: seq<Field>, n: nat, i: nat)
    requires i < n <= |fields|
    ensures SlotAt(fields, i) < |DefaultsUpTo(fields, n)|
    ensures fields[i].rule == Oneof ==> DefaultsUpTo(fields, n)[SlotAt(fields, i)] == Union(0, BLANK)
    ensures fields[i].rule != Oneof ==> DefaultsUpTo(fields, n)[SlotAt(fields, i)] == DefaultSlot(fields[i])
    decreases n
  {
    if i < n - 1 {
      SlotsGrow(fields, i, n - 1);
      DefaultsAt(fields, n - 1, i);
    } else if Continues(fields, n - 1) {
      DefaultsAt(fields, n - 1, i - 1);
    }
  }

  lemma {:induction false} DefaultsShape(fields: seq<Field>)
    requires WellFormed(fields)
    ensures Shape(fields, Defaults(fields), true)
    decreases fields, 2
  {
    forall i: nat | i < |fields| ensures SlotFits(fields, i, Defaults(fields), true) {
      DefaultsAt(fields, |fields|, i);
      assert WellFormedField(fields[i]);
      DefaultSlotShape(fields[i]);
    }
  }

  lemma {:induction false} DefaultSlotShape(f: Field)
    requires WellFormedField(f)
    ensures SlotShape(f, DefaultSlot(f), true)
    decreases f, 1
  {
    if f.rule != Repeated && f.rule != Oneof { DefaultValueShape(f); }
  }

  lemma {:induction false} DefaultValueShape(f: Field)
    requires WellFormedField(f)
    ensures ValueShape(f.kind, f.dataSize, DefaultValue(f.kind, f.dataSize, f.default), true)
    decreases f, 0
  {
    if f.kind.SubK? {
      DefaultsShape(f.kind.fields);
    } else if f.default == None && Packable(f.kind) {
      ZeroIsNum(f.kind, f.dataSize);
    }
  }

  lemma ZeroIsNum(k: Kind, size: nat)
    requires Packable(k)
    ensures NumShape(k, size, 0)
  {
    Widths();
  }

  // ---------- a decoded field keeps the struct in shape ----------

  lemma PutKeepsShape(fields: seq<Field>, slots: seq<Slot>, i: nat, s: Slot)
    requires WellFormed(fields) && Shape(fields, slots, true) && i < |fields|
    requires SlotShape(fields[i], s, true) && (fields[i].rule == Oneof ==> s.which == fields[i].tag)
    requires SlotAt(fields, i) < |slots|
    ensures Shape(fields, slots[SlotAt(fields, i) := s], true)
  {
    hide ValueShape;
    var k := SlotAt(fields, i);
    var updated := slots[k := s];
    forall j: nat | j < |fields| ensures SlotFits(fields, j, updated, true) {
      assert SlotFits(fields, j, slots, true);
      if SlotAt(fields, j) == k && j != i {
        SlotsGrow(fields, if i < j then i else j, if i < j then j else i);
        assert fields[j].tag != fields[i].tag;
      }
    }
  }

  // ---------- values ----------

  function UpToNul(bytes: Bytes): (r: Bytes)
    ensures 0 !in r && |r| <= |bytes|
  {
    if bytes == [] || bytes[0] == 0 then [] else [bytes[0]] + UpToNul(bytes[1..])
  }

  lemma {:induction false} NoNul(bytes: Bytes)
    requires 0 !in bytes
    ensures UpToNul(bytes) == bytes
  {
    if bytes != [] { NoNul(bytes[1..]); }
  }

  function DecodeBytes(size: nat, input: Bytes): (r: Option<(Bytes, Bytes)>)
    ensures r.Some? ==> |r.value.0| + BYTES_HEADER <= size && |r.value.0| < TWO32 && |r.value.1| < |input|
    requires size < TWO32
  {
    match UnVarint32(input)
    case None => None
    case Some((n, rest)) =>
      if n + BYTES_HEADER > size || |rest| < n then None else Some((rest[..n], rest[n..]))
  }

  function DecodeString(size: nat, input: Bytes): (r: Option<(Bytes, Bytes)>)
    ensures r.Some? ==> 0 !in r.value.0 && |r.value.0| < size && |r.value.1| < |input|
  {
    match UnVarint32(input)
    case None => None
    case Some((n, rest)) =>
      if n + 1 > size || |rest| < n then None else Some((UpToNul(rest[..n]), rest[n..]))
  }

  /** An empty record stands for all zeros. */
  function DecodeFixedBytes(size: nat, input: Bytes): (r: Option<(Bytes, Bytes)>)
    ensures r.Some? ==> |r.value.0| == size && |r.value.1| < |input|
  {
    match UnVarint32(input)
    case None => None
    case Some((n, rest)) =>
      if n == 0 then Some((Zeros(size), rest))
      else if n != size || |rest| < n then None
      else Some((rest[..n], rest[n..]))
  }

  function AsRaw(r: Option<(Bytes, Bytes)>): Option<(Value, Bytes)> {
    match r case None => None case Some((bytes, rest)) => Some((Raw(bytes), rest))
  }

  /** A value of any kind; a nested message is merged into `current`. */
  function DecodeValue(k: Kind, size: nat, current: Value, input: Bytes): (r: Option<(Value, Bytes)>)
    requires size < TWO32
    requires k.SubK? ==> WellFormed(k.fields) && ValueShape(k, size, current, true)
    ensures r.Some? ==> ValueShape(k, size, r.value.0, true) && |r.value.1| < |input|
    decreases |input|, 0
  {
    match k
    case BytesK => AsRaw(DecodeBytes(size, input))
    case StringK => AsRaw(DecodeString(size, input))
    case FixedBytesK => AsRaw(DecodeFixedBytes(size, input))
    case SubK(sub) =>
      (match UnDelimited(input)
       case None => None
       case Some((payload, rest)) =>
         match DecodeMerge(sub, payload, current.slots)
         case None => None
         case Some((slots, _)) => Some((Msg(slots), rest)))
    case _ =>
      match DecodeNum(k, size, input)
      case None => None
      case Some((n, rest)) => Some((Num(n), rest))
  }

  function DecodePacked(k: Kind, size: nat, room: nat, items: seq<Value>, payload: Bytes): (r: Option<seq<Value>>)
    requires Packable(k) && |items| <= room
    requires forall v :: v in items ==> ValueShape(k, size, v, true)
    ensures r.Some? ==> |r.value| <= room && forall v :: v in r.value ==> ValueShape(k, size, v, true)
    decreases |payload|
  {
    if payload == [] then Some(items)
    else if |items| == room then None
    else
      match DecodeNum(k, size, payload)
      case None => None
      case Some((n, rest)) => DecodePacked(k, size, room, items + [Num(n)], rest)
  }

  // ---------- fields ----------

  function DecodeField(f: Field, s: Slot, wire: Wire, input: Bytes): (r: Option<(Slot, Bytes)>)
    requires WellFormedField(f) && SlotShape(f, s, true)
    ensures r.Some? ==> SlotShape(f, r.value.0, true) && |r.value.1| < |input|
    ensures r.Some? && f.rule == Oneof ==> r.value.0.which == f.tag
    decreases |input|, 1
  {
    match f.rule
    case Repeated =>
      if wire == STRING && Packable(f.kind) then
        match UnDelimited(input)
        case None => None
        case Some((payload, rest)) =>
          match DecodePacked(f.kind, f.dataSize, f.arraySize, s.items, payload)
          case None => None
          case Some(items) => Some((Rep(items), rest))
      else if |s.items| >= f.arraySize then None
      else
        DefaultValueShape(f);
        (match DecodeValue(f.kind, f.dataSize, DefaultValue(f.kind, f.dataSize, f.default), input)
         case None => None
         case Some((v, rest)) => Some((Rep(s.items + [v]), rest)))
    case Oneof =>
      DefaultValueShape(f);
      (match DecodeValue(f.kind, f.dataSize, DefaultValue(f.kind, f.dataSize, f.default), input)
       case None => None
       case Some((v, rest)) => Some((Union(f.tag, v), rest)))
    case Optional =>
      (match DecodeValue(f.kind, f.dataSize, s.value, input)
       case None => None
       case Some((v, rest)) => Some((Opt(true, v), rest)))
    case _ =>
      match DecodeValue(f.kind, f.dataSize, s.value, input)
      case None => None
      case Some((v, rest)) => Some((Single(v), rest))
  }

  const MAX_REQUIRED: nat := 64

  /** The required fields seen so far, counted among the first 64. */
  function Saw(fields: seq<Field>, i: nat, seen: set<nat>): set<nat>
    requires i < |fields|
  {
    if fields[i].rule == Required && RequiredBefore(fields, i) < MAX_REQUIRED
    then seen + {RequiredBefore(fields, i)} else seen
  }

  predicate AllSeen(fields: seq<Field>, seen: set<nat>) {
    forall k: nat :: k < RequiredBefore(fields, |fields|) && k < MAX_REQUIRED ==> k in seen
  }

  /** The struct, the required fields seen and the bytes left when the message ends. */
  datatype Decoded = Decoded(slots: seq<Slot>, seen: set<nat>, rest: Bytes)

  function DecodeLoop(fields: seq<Field>, input: Bytes, slots: seq<Slot>, seen: set<nat>): (r: Option<Decoded>)
    requires WellFormed(fields) && Shape(fields, slots, true)
    ensures r.Some? ==> Shape(fields, r.value.slots, true)
    decreases |input|, 2
  {
    match UnTag(input)
    case Eof(rest) => Some(Decoded(slots, seen, rest))
    case BadTag => None
    case TagIs(wire, tag, rest) =>
      match Locate(fields, tag, 0)
      case None =>
        if fields == [] && tag == 0 then None
        else
          (match SkipField(wire, rest)
           case None => None
           case Some(behind) => DecodeLoop(fields, behind, slots, seen))
      case Some(i) =>
        assert WellFormedField(fields[i]);
        assert SlotFits(fields, i, slots, true);
        match DecodeField(fields[i], slots[SlotAt(fields, i)], wire, rest)
        case None => None
        case Some((s, behind)) =>
          PutKeepsShape(fields, slots, i, s);
          DecodeLoop(fields, behind, slots[SlotAt(fields, i) := s], Saw(fields, i, seen))
  }

  /** Decodes into a struct that already holds values. */
  function DecodeMerge(fields: seq<Field>, input: Bytes, slots: seq<Slot>): (r: Option<(seq<Slot>, Bytes)>)
    requires WellFormed(fields) && Shape(fields, slots, true)
    ensures r.Some? ==> Shape(fields, r.value.0, true)
    decreases |input|, 3
  {
    match DecodeLoop(fields, input, slots, {})
    case None => None
    case Some(d) => if AllSeen(fields, d.seen) then Some((d.slots, d.rest)) else None
  }

  function Decode(fields: seq<Field>, input: Bytes): (r: Option<(seq<Slot>, Bytes)>)
    requires WellFormed(fields)
    ensures r.Some? ==> Shape(fields, r.value.0, true)
  {
    DefaultsShape(fields);
    DecodeMerge(fields, input, Defaults(fields))
  }

  // ---------- the decoding loop, turn by turn ----------

  lemma InPlace(fields: seq<Field>, i: nat, slots: seq<Slot>)
    requires WellFormed(fields) && Shape(fields, slots, true) && i < |fields|
    ensures SlotAt(fields, i) < |slots| && WellFormedField(fields[i])
    ensures 0 < fields[i].tag < MAX_TAG
    ensures SlotShape(fields[i], slots[SlotAt(fields, i)], true)
  {
    assert SlotFits(fields, i, slots, true);
    assert WellFormedField(fields[i]);
  }

  lemma LoopEnds(fields: seq<Field>, slots: seq<Slot>, seen: set<nat>)
    requires WellFormed(fields) && Shape(fields, slots, true)
    ensures DecodeLoop(fields, [], slots, seen) == Some(Decoded(slots, seen, []))
  {
  }

  /** What one turn of the loop does, by the tag it finds. */
  lemma LoopTurn(fields: seq<Field>, input: Bytes, slots: seq<Slot>, seen: set<nat>)
    requires WellFormed(fields) && Shape(fields, slots, true)
    ensures
      match UnTag(input)
      case Eof(rest) => DecodeLoop(fields, input, slots, seen) == Some(Decoded(slots, seen, rest))
      case BadTag => DecodeLoop(fields, input, slots, seen) == None
      case TagIs(wire, tag, rest) =>
        match Locate(fields, tag, 0)
        case None =>
          DecodeLoop(fields, input, slots, seen) ==
          if (fields == [] && tag == 0) || SkipField(wire, rest) == None then None
          else DecodeLoop(fields, SkipField(wire, rest).value, slots, seen)
        case Some(i) =>
          WellFormedField(fields[i]) && SlotAt(fields, i) < |slots| &&
          SlotShape(fields[i], slots[SlotAt(fields, i)], true) &&
          var r := DecodeField(fields[i], slots[SlotAt(fields, i)], wire, rest);
          (r == None ==> DecodeLoop(fields, input, slots, seen) == None) &&
          (r.Some? ==>
            var next := slots[SlotAt(fields, i) := r.value.0];
            Shape(fields, next, true) &&
            DecodeLoop(fields, input, slots, seen) ==
            DecodeLoop(fields, r.value.1, next, Saw(fields, i, seen)))
  {
    hide UnTag, SkipField, DecodeField, SlotShape, WellFormedField, Shape, SlotFits, WellFormed, Locate, Saw;
    match UnTag(input)
    case Eof(_) =>
    case BadTag =>
    case TagIs(wire, tag, rest) =>
      match Locate(fields, tag, 0)
      case None =>
      case Some(i) =>
        InPlace(fields, i, slots);
        var r := DecodeField(fields[i], slots[SlotAt(fields, i)], wire, rest);
        if r.Some? { PutKeepsShape(fields, slots, i, r.value.0); }
  }
}
