/** The reader of the write-ahead log (db/log_reader.cc lines 56-173, 189-271), from the beginning of the file:
    fragments from blocks, records from fragments, and reports of what is dropped. */
module LogReader {
  import opened Basics
  import opened Coding
  import opened LogWriter

  const EOF_CODE: nat := 5
  const BAD_RECORD_CODE: nat := 6

  /** What one header, or the end of the file, yields; a rejected header may be reported with the bytes it costs. */
  datatype Phys = Rec(kind: Byte, payload: Bytes) | Bad(dropped: Option<nat>) | Eof

  /** The fragment at the front of a buffer. */
  function Header(crc: Checksum, checksum: bool, buffer: Bytes, eof: bool): Phys
    requires |buffer| >= HEADER_SIZE
  {
    var length := buffer[4] as nat + 256 * buffer[5] as nat;
    var kind := buffer[6];
    if HEADER_SIZE + length > |buffer| then (if eof then Eof else Bad(Some(|buffer|)))
    else if kind == ZERO_TYPE && length == 0 then Bad(None)
    else if checksum && Unmask(UnFixed32(buffer[..4])) != crc(buffer[6..7 + length]) then Bad(Some(|buffer|))
    else Rec(kind, buffer[7..7 + length])
  }

  /** How much of the rest of the file the next read takes. */
  function ReadSize(rest: Bytes): (n: nat)
    ensures n <= |rest|
  {
    if |rest| < BLOCK_SIZE then |rest| else BLOCK_SIZE
  }

  /** All fragments and rejections still to come, with `buffer` read ahead from the file and `rest` not yet read. */
  function Parse(crc: Checksum, checksum: bool, buffer: Bytes, rest: Bytes, eof: bool): seq<Phys>
    decreases |rest|, !eof, |buffer|
  {
    if |buffer| < HEADER_SIZE then
      if eof then []
      else Parse(crc, checksum, rest[..ReadSize(rest)], rest[ReadSize(rest)..], ReadSize(rest) < BLOCK_SIZE)
    else
      match Header(crc, checksum, buffer, eof)
      case Eof => []
      case Bad(d) => [Bad(d)] + Parse(crc, checksum, [], rest, eof)
      case Rec(k, p) => [Rec(k, p)] + Parse(crc, checksum, buffer[7 + |p|..], rest, eof)
  }

  /** What a user of the reader gets to know: records, and reports of dropped bytes. */
  datatype Event = Got(record: Bytes) | Dropped(bytes: nat)

  /** What one fragment or rejection does to the record being put together: the reports it causes, the record it
      completes, and what has been gathered afterwards. */
  datatype Step = Step(told: seq<Event>, record: Option<Bytes>, inFragment: bool, scratch: Bytes)

  function Take(ph: Phys, inFragment: bool, scratch: Bytes): Step {
    match ph
    case Eof => Step([], None, false, [])
    case Bad(d) =>
      Step((if d.Some? then [Dropped(d.value)] else []) + (if inFragment then [Dropped(|scratch|)] else []), None,
        false, [])
    case Rec(k, p) =>
      if k == FULL_TYPE then Step(Unended(inFragment, scratch), Some(p), false, [])
      else if k == FIRST_TYPE then Step(Unended(inFragment, scratch), None, true, p)
      else if k == MIDDLE_TYPE && inFragment then Step([], None, true, scratch + p)
      else if k == LAST_TYPE && inFragment then Step([], Some(scratch + p), false, [])
      else if k == MIDDLE_TYPE || k == LAST_TYPE then Step([Dropped(|p|)], None, false, [])
      else if k == BAD_RECORD_CODE then Step(if inFragment then [Dropped(|scratch|)] else [], None, false, [])
      else Step([Dropped(|p| + if inFragment then |scratch| else 0)], None, false, [])
  }

  /** A record left without an end is reported unless nothing of it was read. */
  function Unended(inFragment: bool, scratch: Bytes): seq<Event> {
    if inFragment && scratch != [] then [Dropped(|scratch|)] else []
  }

  /** A fragment whose type byte has the value that stands for the end of the file is taken for that. */
  predicate Stops(ph: Phys) {
    ph.Eof? || (ph.Rec? && ph.kind == EOF_CODE)
  }

  /** The events of a whole run of fragments; `inFragment` with the bytes gathered so far. */
  function Assemble(ph: seq<Phys>, inFragment: bool, scratch: Bytes): seq<Event> {
    if ph == [] || Stops(ph[0]) then []
    else
      var t := Take(ph[0], inFragment, scratch);
      t.told + GotOf(t.record) + Assemble(ph[1..], t.inFragment, t.scratch)
  }

  function GotOf(record: Option<Bytes>): seq<Event> {
    if record.Some? then [Got(record.value)] else []
  }

  /** log::Reader with initial offset 0; `reports` is what the reporter has been told. */
  class Reader {
    const crc: Checksum
    const checksum: bool
    var rest: Bytes
    var buffer: Bytes
    var eof: bool
    var reports: seq<Event>

    constructor (crc: Checksum, checksum: bool, file: Bytes)
      ensures Pending() == Parse(crc, checksum, [], file, false) && reports == []
    {
      this.crc, this.checksum := crc, checksum;
      rest, buffer, eof, reports := file, [], false, [];
    }

    function Pending(): seq<Phys>
      reads this
    {
      Parse(crc, checksum, buffer, rest, eof)
    }

    method ReadPhysicalRecord() returns (code: nat, result: Bytes)
      modifies this
      ensures old(Pending()) == [] ==> code == EOF_CODE && result == [] && Pending() == [] && reports == old(reports)
      ensures old(Pending()) != [] ==> Pending() == old(Pending())[1..] && Returns(old(Pending())[0], code, result)
      ensures old(Pending()) != [] ==> reports == old(reports) + ReportOf(old(Pending())[0])
      ensures code == EOF_CODE || |Pending()| < |old(Pending())|
    {
      result := [];
      while |buffer| < HEADER_SIZE
        invariant Pending() == old(Pending()) && reports == old(reports)
        decreases |rest|, !eof
      {
        if !eof {
          var n := ReadSize(rest);
          buffer, rest := rest[..n], rest[n..];
          if |buffer| < BLOCK_SIZE {
            eof := true;
          }
        } else {
          buffer := [];
          return EOF_CODE, [];
        }
      }
      var length := buffer[4] as nat + 256 * buffer[5] as nat;
      var kind := buffer[6];
      if HEADER_SIZE + length > |buffer| {
        var dropSize := |buffer|;
        buffer := [];
        if !eof {
          reports := reports + [Dropped(dropSize)];
          return BAD_RECORD_CODE, [];
        }
        return EOF_CODE, [];
      }
      if kind == ZERO_TYPE && length == 0 {
        buffer := [];
        return BAD_RECORD_CODE, [];
      }
      if checksum {
        if crc(buffer[6..7 + length]) != Unmask(UnFixed32(buffer[..4])) {
          var dropSize := |buffer|;
          buffer := [];
          reports := reports + [Dropped(dropSize)];
          return BAD_RECORD_CODE, [];
        }
      }
      result := buffer[7..7 + length];
      buffer := buffer[HEADER_SIZE + length..];
      code := kind;
    }

    /** The next record, if one is left; what is dropped on the way is reported. */
    method ReadRecord() returns (ok: bool, record: Bytes)
      requires OnlyDrops(reports)
      modifies this
      ensures OnlyDrops(reports)
      ensures old(reports) + Assemble(old(Pending()), false, [])
        == reports + (if ok then [Got(record)] + Assemble(Pending(), false, []) else [])
      ensures ok ==> |Pending()| < |old(Pending())|
    {
      hide Assemble, Parse;
      var inFragment, scratch := false, [];
      ghost var all := reports + Assemble(Pending(), false, []);
      while true
        invariant reports + Assemble(Pending(), inFragment, scratch) == all
        invariant OnlyDrops(reports) && (!inFragment ==> scratch == [])
        invariant |Pending()| <= |old(Pending())|
        decreases |Pending()|
      {
        ghost var before, told := Pending(), reports;
        AssembleNext(told, before, inFragment, scratch);
        ghost var step := if before != [] then Take(before[0], inFragment, scratch) else Step([], None, false, []);
        var code, fragment := ReadPhysicalRecord();
        if code == FULL_TYPE {
          if inFragment && |scratch| > 0 {
            reports := reports + [Dropped(|scratch|)];
          }
          assert reports == told + step.told;
          return true, fragment;
        } else if code == FIRST_TYPE {
          if inFragment && |scratch| > 0 {
            reports := reports + [Dropped(|scratch|)];
          }
          scratch := fragment;
          inFragment := true;
        } else if code == MIDDLE_TYPE {
          if !inFragment {
            reports := reports + [Dropped(|fragment|)];
          } else {
            scratch := scratch + fragment;
          }
        } else if code == LAST_TYPE {
          if !inFragment {
            reports := reports + [Dropped(|fragment|)];
          } else {
            scratch := scratch + fragment;
            assert reports == told + step.told;
            return true, scratch;
          }
        } else if code == EOF_CODE {
          return false, [];
        } else if code == BAD_RECORD_CODE {
          if inFragment {
            reports := reports + [Dropped(|scratch|)];
            inFragment := false;
            scratch := [];
          }
        } else {
          reports := reports + [Dropped(|fragment| + if inFragment then |scratch| else 0)];
          inFragment := false;
          scratch := [];
        }
        assert reports == told + step.told;
      }
    }

    /** The loop of a recovery: every record until the reader gives up. */
    method ReadAll() returns (records: seq<Bytes>)
      requires reports == []
      modifies this
      ensures records == Gots(Assemble(old(Pending()), false, []))
      ensures reports == Drops(Assemble(old(Pending()), false, []))
    {
      hide Assemble, Parse, Gots, Drops;
      records := [];
      ghost var all := Assemble(Pending(), false, []);
      GotNone();
      var ok := true;
      while ok
        invariant OnlyDrops(reports)
        invariant Gots(all) == records + (if ok then Gots(Assemble(Pending(), false, [])) else [])
        invariant Drops(all) == reports + (if ok then Drops(Assemble(Pending(), false, [])) else [])
        decreases ok, |Pending()|
      {
        ghost var told, before := reports, Assemble(Pending(), false, []);
        var record;
        ok, record := ReadRecord();
        ReadOne(told, before, reports, ok, record, Assemble(Pending(), false, []));
        if ok {
          records := records + [record];
        }
      }
    }
  }

  predicate Returns(ph: Phys, code: nat, result: Bytes) {
    match ph
    case Rec(k, p) => code == k && result == p
    case Bad(d) => code == BAD_RECORD_CODE && result == []
    case Eof => false
  }

  function ReportOf(ph: Phys): seq<Event> {
    if ph.Bad? && ph.dropped.Some? then [Dropped(ph.dropped.value)] else []
  }

  predicate OnlyDrops(events: seq<Event>) {
    forall i :: 0 <= i < |events| ==> events[i].Dropped?
  }

  lemma RegroupEvents(a: seq<Event>, b: seq<Event>, c: seq<Event>, d: seq<Event>)
    ensures a + (b + c + d) == (a + b) + (c + d)
  {
  }

  lemma AssembleNext(told: seq<Event>, ph: seq<Phys>, inFragment: bool, scratch: Bytes)
    ensures ph == [] || Stops(ph[0]) ==> Assemble(ph, inFragment, scratch) == []
    ensures !(ph == [] || Stops(ph[0])) ==>
      var t := Take(ph[0], inFragment, scratch);
      told + Assemble(ph, inFragment, scratch) ==
        (told + t.told) + (GotOf(t.record) + Assemble(ph[1..], t.inFragment, t.scratch))
  {
    hide Take, Stops, GotOf;
    if !(ph == [] || Stops(ph[0])) {
      var t := Take(ph[0], inFragment, scratch);
      RegroupEvents(told, t.told, GotOf(t.record), Assemble(ph[1..], t.inFragment, t.scratch));
    }
  }

  /** Applies one ReadRecord to the records and the reports separately. */
  lemma ReadOne(told: seq<Event>, before: seq<Event>, told': seq<Event>, ok: bool, record: Bytes, after: seq<Event>)
    requires OnlyDrops(told) && OnlyDrops(told')
    requires told + before == told' + (if ok then [Got(record)] + after else [])
    ensures Gots(before) == if ok then [record] + Gots(after) else []
    ensures told + Drops(before) == told' + (if ok then Drops(after) else [])
  {
    hide Gots, Drops, OnlyDrops;
    var last := if ok then [Got(record)] + after else [];
    DropsOnly(told);
    DropsOnly(told');
    GotsAppend(told, before);
    GotsAppend(told', last);
    DropsAppend(told, before);
    DropsAppend(told', last);
    GotFirst(record, after);
    GotNone();
    assert Gots(before) == [] + Gots(before) == [] + Gots(last);
  }

  lemma GotFirst(record: Bytes, after: seq<Event>)
    ensures Gots([Got(record)] + after) == [record] + Gots(after) && Drops([Got(record)] + after) == Drops(after)
  {
    assert ([Got(record)] + after)[1..] == after;
  }

  lemma GotNone()
    ensures Gots([]) == [] && Drops([]) == []
  {
  }

  lemma {:induction false} DropsOnly(events: seq<Event>)
    requires OnlyDrops(events)
    ensures Gots(events) == [] && Drops(events) == events
  {
    if events != [] { DropsOnly(events[1..]); }
  }

  lemma {:induction false} GotsAppend(a: seq<Event>, b: seq<Event>)
    ensures Gots(a + b) == Gots(a) + Gots(b)
  {
    if a == [] {
      assert a + b == b;
    } else {
      hide RecordOf;
      GotsAppend(a[1..], b);
      assert (a + b)[0] == a[0] && (a + b)[1..] == a[1..] + b;
      Associate(RecordOf(a[0]), Gots(a[1..]), Gots(b));
    }
  }

  lemma {:induction false} DropsAppend(a: seq<Event>, b: seq<Event>)
    ensures Drops(a + b) == Drops(a) + Drops(b)
  {
    if a == [] {
      assert a + b == b;
    } else {
      hide DropOf;
      DropsAppend(a[1..], b);
      assert (a + b)[0] == a[0] && (a + b)[1..] == a[1..] + b;
      Associate(DropOf(a[0]), Drops(a[1..]), Drops(b));
    }
  }

  function RecordOf(e: Event): seq<Bytes> {
    if e.Got? then [e.record] else []
  }

  function DropOf(e: Event): seq<Event> {
    if e.Dropped? then [e] else []
  }

  /** The records among the events. */
  function Gots(events: seq<Event>): seq<Bytes> {
    if events == [] then [] else RecordOf(events[0]) + Gots(events[1..])
  }

  /** The reports among the events. */
  function Drops(events: seq<Event>): seq<Event> {
    if events == [] then [] else DropOf(events[0]) + Drops(events[1..])
  }
}
