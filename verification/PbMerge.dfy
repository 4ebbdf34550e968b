/** Fields that come twice. */
module PbMerge {
  // What a nanopb message makes of them: the last value of a field wins, nested messages are merged, the items of
  // arrays are appended (pb_decode.c lines 401-475, 811-1063).

  import opened Basics
  import opened Coding
  import opened PbFields
  import opened PbWire
  import opened PbEncode
  import opened PbDecode
  import opened PbConcat
  import opened PbRoundTrip

  // ---------- the last value wins ----------

  /** Whatever the struct held, one value of a plain field, or of a union member, is what it holds afterwards. */
  lemma ValueOverwrites(fields: seq<Field>, i: nat, v: Value, current: seq<Slot>, seen: set<nat>, rest: Bytes)
    requires WellFormed(fields) && Shape(fields, current, true) && i < |fields|
    requires fields[i].rule != Repeated && !fields[i].kind.SubK?
    requires ValueShape(fields[i].kind, fields[i].dataSize, v, true) && EncodeTagged(fields[i], v).Some?
    ensures
      var f := fields[i];
      && SlotAt(fields, i) < |current|
      && var next := current[SlotAt(fields, i) :=
           match f.rule
           case Optional => Opt(true, v)
           case Oneof => Union(f.tag, v)
           case _ => Single(v)];
      && Shape(fields, next, true)
      && DecodeLoop(fields, EncodeTagged(f, v).value + rest, current, seen) ==
         DecodeLoop(fields, rest, next, Saw(fields, i, seen))
  {
    hide WellFormed, WellFormedField, Shape, DecodeLoop, EncodeValue, DecodeValue, Tag;
    InPlace(fields, i, current);
    TaggedRoundTrip(fields, i, v, current, seen, rest);
  }

  /** Of two values of one field the first might as well not have been sent. */
  lemma LastValueWins(
      fields: seq<Field>, i: nat, a: Value, b: Value, current: seq<Slot>, seen: set<nat>, rest: Bytes)
    requires WellFormed(fields) && Shape(fields, current, true) && i < |fields|
    requires fields[i].rule != Repeated && !fields[i].kind.SubK?
    requires ValueShape(fields[i].kind, fields[i].dataSize, a, true) && EncodeTagged(fields[i], a).Some?
    requires ValueShape(fields[i].kind, fields[i].dataSize, b, true) && EncodeTagged(fields[i], b).Some?
    ensures
      var first, second := EncodeTagged(fields[i], a).value, EncodeTagged(fields[i], b).value;
      DecodeLoop(fields, first + second + rest, current, seen) == DecodeLoop(fields, second + rest, current, seen)
  {
    hide WellFormed, Shape, DecodeLoop, EncodeTagged;
    var first, second := EncodeTagged(fields[i], a).value, EncodeTagged(fields[i], b).value;
    Associate(first, second, rest);
    ValueOverwrites(fields, i, a, current, seen, second + rest);
    var k := SlotAt(fields, i);
    var next := current[k :=
      match fields[i].rule case Optional => Opt(true, a) case Oneof => Union(fields[i].tag, a) case _ => Single(a)];
    ValueOverwrites(fields, i, b, next, Saw(fields, i, seen), rest);
    ValueOverwrites(fields, i, b, current, seen, rest);
    var last :=
      match fields[i].rule case Optional => Opt(true, b) case Oneof => Union(fields[i].tag, b) case _ => Single(b);
    assert next[k := last] == current[k := last];
  }

  // ---------- nested messages ----------

  function Record(f: Field, payload: Bytes): Bytes {
    Tag(STRING, f.tag) + Delimited(payload)
  }

  /** What a nested message is merged into: the one the member holds; as the member of a union or the item of an array
      it starts from the defaults. */
  function MergesInto(fields: seq<Field>, i: nat, current: seq<Slot>): (r: seq<Slot>)
    requires WellFormed(fields) && Shape(fields, current, true) && i < |fields| && fields[i].kind.SubK?
    ensures WellFormed(fields[i].kind.fields) && Shape(fields[i].kind.fields, r, true)
  {
    InPlace(fields, i, current);
    DefaultsShape(fields[i].kind.fields);
    match fields[i].rule
    case Repeated => Defaults(fields[i].kind.fields)
    case Oneof => Defaults(fields[i].kind.fields)
    case _ => current[SlotAt(fields, i)].value.slots
  }

  /** A nested message is taken in whatever its bytes. */
  lemma MessageArrives(fields: seq<Field>, i: nat, payload: Bytes, current: seq<Slot>, seen: set<nat>, rest: Bytes)
    requires WellFormed(fields) && Shape(fields, current, true) && i < |fields|
    requires fields[i].kind.SubK? && |payload| < TWO32
    ensures SlotAt(fields, i) < |current| && SlotShape(fields[i], current[SlotAt(fields, i)], true)
    ensures
      var f, k := fields[i], SlotAt(fields, i);
      var s, merged := current[k], DecodeMerge(f.kind.fields, payload, MergesInto(fields, i, current));
      var read := DecodeLoop(fields, Record(f, payload) + rest, current, seen);
      if merged.None? || (f.rule == Repeated && |s.items| == f.arraySize) then read == None
      else
        var v := Msg(merged.value.0);
        var next := current[k :=
          match f.rule
          case Optional => Opt(true, v)
          case Repeated => Rep(s.items + [v])
          case Oneof => Union(f.tag, v)
          case _ => Single(v)];
        Shape(fields, next, true) && read == DecodeLoop(fields, rest, next, Saw(fields, i, seen))
  {
    hide WellFormed, Shape, DecodeLoop, DecodeMerge, UnDelimited, Delimited, Tag, Defaults;
    var f := fields[i];
    InPlace(fields, i, current);
    LoopTakesField(fields, i, Delimited(payload) + rest, current, seen, STRING);
    DelimitedExact(payload, rest);
    Associate(Tag(STRING, f.tag), Delimited(payload), rest);
    if f.rule == Repeated { Room(fields, i, current); }
  }

  /** Two occurrences of a nested message are one whose bytes are both put together, provided the second has its
      required fields too. */
  lemma TwoMessagesAreOne(
      fields: seq<Field>, i: nat, p: Bytes, q: Bytes, current: seq<Slot>, seen: set<nat>, rest: Bytes)
    requires WellFormed(fields) && Shape(fields, current, true) && i < |fields|
    requires fields[i].kind.SubK? && fields[i].rule != Repeated && fields[i].rule != Oneof && |p| + |q| < TWO32
    requires var sub, before := fields[i].kind.fields, MergesInto(fields, i, current);
      && DecodeMerge(sub, p, before).Some? && Unfinished(sub, p, before)
      && (RequiredBefore(sub, |sub|) == 0 || DecodeMerge(sub, q, DecodeMerge(sub, p, before).value.0).Some?)
    ensures DecodeLoop(fields, Record(fields[i], p) + Record(fields[i], q) + rest, current, seen) ==
      DecodeLoop(fields, Record(fields[i], p + q) + rest, current, seen)
  {
    hide WellFormed, Shape, DecodeLoop, Record, Unfinished;
    var f, k, sub := fields[i], SlotAt(fields, i), fields[i].kind.fields;
    var before := MergesInto(fields, i, current);
    MessageArrives(fields, i, p, current, seen, Record(f, q) + rest);
    Associate(Record(f, p), Record(f, q), rest);
    var m := Msg(DecodeMerge(sub, p, before).value.0);
    var next := current[k := if f.rule == Optional then Opt(true, m) else Single(m)];
    MessageArrives(fields, i, q, next, Saw(fields, i, seen), rest);
    MessageArrives(fields, i, p + q, current, seen, rest);
    ConcatenationMerges(sub, p, q, before);
    var both := DecodeMerge(sub, p + q, before);
    if both.Some? {
      var last := if f.rule == Optional then Opt(true, Msg(both.value.0)) else Single(Msg(both.value.0));
      assert next[k := last] == current[k := last];
    }
  }

  /** A union member starts afresh: what the union held, the same message included, leaves no trace. */
  lemma UnionForgets(
      fields: seq<Field>, i: nat, payload: Bytes, current: seq<Slot>, s: Slot, seen: set<nat>, rest: Bytes)
    requires WellFormed(fields) && Shape(fields, current, true) && i < |fields| && fields[i].rule == Oneof
    requires fields[i].kind.SubK? && |payload| < TWO32
    requires SlotAt(fields, i) < |current| && Shape(fields, current[SlotAt(fields, i) := s], true)
    ensures DecodeLoop(fields, Record(fields[i], payload) + rest, current, seen) ==
      DecodeLoop(fields, Record(fields[i], payload) + rest, current[SlotAt(fields, i) := s], seen)
  {
    hide WellFormed, Shape, DecodeLoop, Record;
    var f, k := fields[i], SlotAt(fields, i);
    var other := current[k := s];
    MessageArrives(fields, i, payload, current, seen, rest);
    MessageArrives(fields, i, payload, other, seen, rest);
    var merged := DecodeMerge(f.kind.fields, payload, MergesInto(fields, i, current));
    if merged.Some? {
      var next := Union(f.tag, Msg(merged.value.0));
      assert other[k := next] == current[k := next];
    }
  }
}
