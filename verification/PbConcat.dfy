/** Decoding one byte string after another. */
module PbConcat {
  // A reader that is given more bytes does the same until its input used to end, so a message that comes in two parts
  // is the two parts merged (pb_decode.c lines 182-395, 811-1063, 1240-1508).

  import opened Basics
  import opened Coding
  import opened PbFields
  import opened PbWire
  import opened PbDecode

  // ---------- more bytes behind a value ----------

  lemma {:induction false} MoreGroupsPrefix(input: Bytes, more: Bytes, result: U32, group: nat)
    requires MoreGroups(input, result, group).Some?
    ensures var (n, rest) := MoreGroups(input, result, group).value;
      MoreGroups(input + more, result, group) == Some((n, rest + more))
  {
    hide Shifted;
    assert (input + more)[1..] == input[1..] + more;
    if input[0] >= 128 { MoreGroupsPrefix(input[1..], more, Shifted(result, input[0] % 128, group), group + 1); }
  }

  lemma Varint32Prefix(input: Bytes, more: Bytes)
    requires UnVarint32(input).Some?
    ensures var (n, rest) := UnVarint32(input).value;
      UnVarint32(input + more) == Some((n, rest + more))
  {
    assert (input + more)[1..] == input[1..] + more;
    if input[0] >= 128 { MoreGroupsPrefix(input[1..], more, input[0] % 128, 1); }
  }

  lemma {:induction false} VarintPrefix(input: Bytes, more: Bytes, limit: nat)
    requires UnVarint(input, limit).Some?
    ensures var (n, rest) := UnVarint(input, limit).value;
      UnVarint(input + more, limit) == Some((n, rest + more))
  {
    assert (input + more)[1..] == input[1..] + more;
    if input[0] >= 128 { VarintPrefix(input[1..], more, limit - 1); }
  }

  lemma CutPrefix(input: Bytes, more: Bytes, n: nat)
    requires n <= |input|
    ensures (input + more)[..n] == input[..n] && (input + more)[n..] == input[n..] + more
  {
  }

  lemma DelimitedPrefix(input: Bytes, more: Bytes)
    requires UnDelimited(input).Some?
    ensures var (payload, rest) := UnDelimited(input).value;
      UnDelimited(input + more) == Some((payload, rest + more))
  {
    hide UnVarint32;
    Varint32Prefix(input, more);
    var (n, rest) := UnVarint32(input).value;
    CutPrefix(rest, more, n);
  }

  lemma NumPrefix(k: Kind, size: nat, input: Bytes, more: Bytes)
    requires Packable(k) && DecodeNum(k, size, input).Some?
    ensures var (n, rest) := DecodeNum(k, size, input).value;
      DecodeNum(k, size, input + more) == Some((n, rest + more))
  {
    hide UnVarint, FromVarint, NumShape, UnFixed32, UnFixed64, Width;
    if k.Fixed32K? {
      CutPrefix(input, more, 4);
    } else if k.Fixed64K? {
      CutPrefix(input, more, 8);
    } else {
      VarintPrefix(input, more, 10);
    }
  }

  lemma RecordPrefix(k: Kind, size: U32, current: Value, input: Bytes, more: Bytes)
    requires k.BytesK? || k.StringK? || k.FixedBytesK?
    requires DecodeValue(k, size, current, input).Some?
    ensures var (v, rest) := DecodeValue(k, size, current, input).value;
      DecodeValue(k, size, current, input + more) == Some((v, rest + more))
  {
    hide UnVarint32, UpToNul;
    Varint32Prefix(input, more);
    var (n, rest) := UnVarint32(input).value;
    if n <= |rest| { CutPrefix(rest, more, n); }
  }

  lemma ValuePrefix(k: Kind, size: U32, current: Value, input: Bytes, more: Bytes)
    requires k.SubK? ==> WellFormed(k.fields) && ValueShape(k, size, current, true)
    requires DecodeValue(k, size, current, input).Some?
    ensures var (v, rest) := DecodeValue(k, size, current, input).value;
      DecodeValue(k, size, current, input + more) == Some((v, rest + more))
  {
    hide DecodeNum, UnDelimited, DecodeMerge;
    if k.SubK? {
      DelimitedPrefix(input, more);
    } else if Packable(k) {
      NumPrefix(k, size, input, more);
    } else {
      RecordPrefix(k, size, current, input, more);
    }
  }

  lemma FieldPrefix(f: Field, s: Slot, wire: Wire, input: Bytes, more: Bytes)
    requires WellFormedField(f) && SlotShape(f, s, true) && DecodeField(f, s, wire, input).Some?
    ensures var (t, rest) := DecodeField(f, s, wire, input).value;
      DecodeField(f, s, wire, input + more) == Some((t, rest + more))
  {
    hide DecodeValue, UnDelimited, DecodePacked, ValueShape, WellFormed, Defaults;
    if f.rule == Repeated && wire == STRING && Packable(f.kind) {
      DelimitedPrefix(input, more);
    } else {
      DefaultValueShape(f);
      var anew := f.rule == Repeated || f.rule == Oneof;
      ValuePrefix(f.kind, f.dataSize, if anew then DefaultValue(f.kind, f.dataSize, f.default) else s.value, input,
        more);
    }
  }

  lemma {:induction false} SkipPrefix(wire: Wire, input: Bytes, more: Bytes)
    requires SkipField(wire, input).Some?
    ensures SkipField(wire, input + more) == Some(SkipField(wire, input).value + more)
  {
    hide UnDelimited;
    if wire == VARINT {
      SkipVarintPrefix(input, more);
    } else if wire == BITS64 {
      CutPrefix(input, more, 8);
    } else if wire == STRING {
      DelimitedPrefix(input, more);
    } else {
      CutPrefix(input, more, 4);
    }
  }

  lemma {:induction false} SkipVarintPrefix(input: Bytes, more: Bytes)
    requires SkipVarint(input).Some?
    ensures SkipVarint(input + more) == Some(SkipVarint(input).value + more)
  {
    assert (input + more)[1..] == input[1..] + more;
    if input[0] >= 128 { SkipVarintPrefix(input[1..], more); }
  }

  lemma TagPrefix(input: Bytes, more: Bytes)
    requires input != [] && !UnTag(input).BadTag?
    ensures UnTag(input + more) == UnTag(input).(rest := UnTag(input).rest + more)
  {
    hide UnVarint32;
    Varint32Prefix(input, more);
  }

  // ---------- one message after another ----------

  /** The fields fill the input, so that the message goes on with whatever comes behind it: a zero put there is where
      decoding ends. */
  predicate Unfinished(fields: seq<Field>, input: Bytes, slots: seq<Slot>)
    requires WellFormed(fields) && Shape(fields, slots, true)
  {
    var r := DecodeLoop(fields, input + [0], slots, {});
    r.Some? && r.value.rest == []
  }

  /** Which required fields were seen before matters for nothing else. */
  lemma {:induction false} SeenAdds(
      fields: seq<Field>, input: Bytes, slots: seq<Slot>, seen: set<nat>, extra: set<nat>)
    requires WellFormed(fields) && Shape(fields, slots, true)
    ensures var r := DecodeLoop(fields, input, slots, seen);
      DecodeLoop(fields, input, slots, seen + extra) ==
        if r.Some? then Some(r.value.(seen := r.value.seen + extra)) else None
    decreases |input|
  {
    hide WellFormed, Shape, DecodeField, SkipField, UnTag, DecodeLoop, Locate;
    LoopTurn(fields, input, slots, seen);
    LoopTurn(fields, input, slots, seen + extra);
    if UnTag(input).TagIs? {
      var (wire, tag, rest) := (UnTag(input).wire, UnTag(input).tag, UnTag(input).rest);
      match Locate(fields, tag, 0)
      case None =>
        if !(fields == [] && tag == 0) && SkipField(wire, rest).Some? {
          SeenAdds(fields, SkipField(wire, rest).value, slots, seen, extra);
        }
      case Some(i) =>
        var r := DecodeField(fields[i], slots[SlotAt(fields, i)], wire, rest);
        if r.Some? {
          assert Saw(fields, i, seen + extra) == Saw(fields, i, seen) + extra;
          SeenAdds(fields, r.value.1, slots[SlotAt(fields, i) := r.value.0], Saw(fields, i, seen), extra);
        }
    }
  }

  /** Decoding goes through the first part as if it were alone, and then through the second. */
  lemma {:induction false} LoopGoesOn(
      fields: seq<Field>, input: Bytes, more: Bytes, slots: seq<Slot>, seen: set<nat>)
    requires WellFormed(fields) && Shape(fields, slots, true) && DecodeLoop(fields, input, slots, seen).Some?
    ensures var d := DecodeLoop(fields, input, slots, seen).value;
      var zero, both := DecodeLoop(fields, input + [0], slots, seen), DecodeLoop(fields, input + more, slots, seen);
      && zero.Some?
      && if zero.value.rest == [] then both == DecodeLoop(fields, more, d.slots, d.seen)
         else both == Some(d.(rest := d.rest + more))
    decreases |input|
  {
    hide WellFormed, Shape, DecodeField, SkipField, UnTag, DecodeLoop, Locate;
    LoopTurn(fields, input, slots, seen);
    if input == [] {
      assert [] + more == more && input + [0] == [0];
      ZeroEnds(fields, slots, seen);
    } else {
      LoopTurn(fields, input + [0], slots, seen);
      LoopTurn(fields, input + more, slots, seen);
      TagPrefix(input, [0]);
      TagPrefix(input, more);
      if UnTag(input).TagIs? {
        var (wire, tag, rest) := (UnTag(input).wire, UnTag(input).tag, UnTag(input).rest);
        match Locate(fields, tag, 0)
        case None =>
          SkipPrefix(wire, rest, [0]);
          SkipPrefix(wire, rest, more);
          LoopGoesOn(fields, SkipField(wire, rest).value, more, slots, seen);
        case Some(i) =>
          var s := slots[SlotAt(fields, i)];
          var r := DecodeField(fields[i], s, wire, rest);
          FieldPrefix(fields[i], s, wire, rest, [0]);
          FieldPrefix(fields[i], s, wire, rest, more);
          LoopGoesOn(fields, r.value.1, more, slots[SlotAt(fields, i) := r.value.0], Saw(fields, i, seen));
      }
    }
  }

  lemma ZeroEnds(fields: seq<Field>, slots: seq<Slot>, seen: set<nat>)
    requires WellFormed(fields) && Shape(fields, slots, true)
    ensures DecodeLoop(fields, [0], slots, seen) == Some(Decoded(slots, seen, []))
    ensures DecodeLoop(fields, [], slots, seen) == Some(Decoded(slots, seen, []))
  {
    hide Shape, WellFormed;
    assert UnVarint32([0]) == Some((0, []));
  }

  /** A message in two parts is the first part decoded and the second merged into it; once the first part has had its
      required fields they need not come again. */
  lemma ConcatenationMerges(fields: seq<Field>, first: Bytes, second: Bytes, slots: seq<Slot>)
    requires WellFormed(fields) && Shape(fields, slots, true)
    requires DecodeMerge(fields, first, slots).Some? && Unfinished(fields, first, slots)
    ensures
      var into := DecodeMerge(fields, first, slots).value.0;
      var rest := DecodeLoop(fields, second, into, {});
      DecodeMerge(fields, first + second, slots) ==
        if rest.Some? then Some((rest.value.slots, rest.value.rest)) else None
  {
    hide WellFormed, Shape, DecodeLoop;
    var d := DecodeLoop(fields, first, slots, {}).value;
    LoopGoesOn(fields, first, second, slots, {});
    SeenAdds(fields, second, d.slots, {}, d.seen);
    assert {} + d.seen == d.seen;
  }
}
