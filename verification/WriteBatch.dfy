/** Write batches as bytes. */
module WriteBatches {
  // A header with sequence number and count, and one record for each operation; appending, iterating and inserting into
  // a memtable (db/write_batch.cc lines 26-148).

  import opened Basics
  import opened Coding

  const HEADER: nat := 12
  const TYPE_DELETION: Byte := 0
  const TYPE_VALUE: Byte := 1

  datatype BatchOp = Put(key: Bytes, value: Bytes) | Delete(key: Bytes)

  function Record(op: BatchOp): (r: Bytes)
    ensures |r| > 0
  {
    match op
    case Put(k, v) => [TYPE_VALUE] + LengthPrefixed(k) + LengthPrefixed(v)
    case Delete(k) => [TYPE_DELETION] + LengthPrefixed(k)
  }

  function Records(ops: seq<BatchOp>): Bytes {
    if ops == [] then [] else Records(ops[..|ops| - 1]) + Record(ops[|ops| - 1])
  }

  /** The bytes of a batch with these operations. */
  function Rep(first: U64, ops: seq<BatchOp>): Bytes {
    Fixed64(first) + Fixed32(|ops| % TWO32) + Records(ops)
  }

  predicate Sound(op: BatchOp) {
    match op
    case Put(k, v) => |k| < TWO32 && |v| < TWO32
    case Delete(k) => |k| < TWO32
  }

  function Sequence(rep: Bytes): U64
    requires |rep| >= HEADER
  {
    UnFixed64(rep[..8])
  }

  function Count(rep: Bytes): U32
    requires |rep| >= HEADER
  {
    UnFixed32(rep[8..12])
  }

  // ---------- iterating ----------

  /** The operation at the front of `input`, and what follows it. */
  datatype Parsed = Op(op: BatchOp, rest: Bytes) | Bad(msg: string)

  function ParseOne(input: Bytes): (r: Parsed)
    requires input != []
    ensures r.Op? ==> |r.rest| < |input|
  {
    var rest := input[1..];
    if input[0] == TYPE_VALUE then
      match GetLengthPrefixed(rest)
      case None => Bad("bad WriteBatch Put")
      case Some((k, r1)) =>
        match GetLengthPrefixed(r1)
        case None => Bad("bad WriteBatch Put")
        case Some((v, r2)) => Op(Put(k, v), r2)
    else if input[0] == TYPE_DELETION then
      match GetLengthPrefixed(rest)
      case None => Bad("bad WriteBatch Delete")
      case Some((k, r1)) => Op(Delete(k), r1)
    else Bad("unknown WriteBatch tag")
  }

  /** What a handler gets to see of the records, and the error that stops it. */
  datatype Visit = Visit(ops: seq<BatchOp>, error: Option<string>)

  function VisitRecords(input: Bytes): Visit
    decreases |input|
  {
    if input == [] then Visit([], None)
    else
      match ParseOne(input)
      case Bad(msg) => Visit([], Some(msg))
      case Op(op, rest) => var v := VisitRecords(rest); Visit([op] + v.ops, v.error)
  }

  /** The whole of Iterate. */
  function IterateRep(rep: Bytes): Visit {
    if |rep| < HEADER then Visit([], Some("malformed WriteBatch (too small)"))
    else
      var v := VisitRecords(rep[HEADER..]);
      if v.error.None? && |v.ops| % TWO32 != Count(rep) then Visit(v.ops, Some("WriteBatch has wrong count")) else v
  }

  lemma ParseRecord(op: BatchOp, rest: Bytes)
    requires Sound(op)
    ensures ParseOne(Record(op) + rest) == Op(op, rest)
  {
    hide LengthPrefixed, GetLengthPrefixed;
    match op
    case Put(k, v) =>
      var a, b := LengthPrefixed(k), LengthPrefixed(v);
      assert (([TYPE_VALUE] + a + b) + rest)[1..] == a + (b + rest);
      LengthPrefixedRoundTrip(k, b + rest);
      LengthPrefixedRoundTrip(v, rest);
    case Delete(k) =>
      assert (([TYPE_DELETION] + LengthPrefixed(k)) + rest)[1..] == LengthPrefixed(k) + rest;
      LengthPrefixedRoundTrip(k, rest);
  }

  lemma {:induction false} VisitAfter(ops: seq<BatchOp>, rest: Bytes)
    requires forall i :: 0 <= i < |ops| ==> Sound(ops[i])
    ensures var v := VisitRecords(rest); VisitRecords(Records(ops) + rest) == Visit(ops + v.ops, v.error)
    decreases |ops|
  {
    hide Record, ParseOne, Sound;
    if ops == [] {
      assert Records(ops) + rest == rest;
    } else {
      var init, last := ops[..|ops| - 1], ops[|ops| - 1];
      Associate(Records(init), Record(last), rest);
      VisitAfter(init, Record(last) + rest);
      ParseRecord(last, rest);
      assert init + ([last] + VisitRecords(rest).ops) == ops + VisitRecords(rest).ops;
    }
  }

  /** A batch reads back as its number and its operations. */
  lemma BatchRoundTrip(first: U64, ops: seq<BatchOp>)
    requires forall i :: 0 <= i < |ops| ==> Sound(ops[i])
    ensures |Rep(first, ops)| >= HEADER && Sequence(Rep(first, ops)) == first
    ensures IterateRep(Rep(first, ops)) == Visit(ops, None)
  {
    hide Fixed64, Fixed32, UnFixed64, UnFixed32, Records;
    var rep := Rep(first, ops);
    assert rep[..8] == Fixed64(first) && rep[8..12] == Fixed32(|ops| % TWO32) && rep[HEADER..] == Records(ops);
    Fixed64RoundTrip(first);
    Fixed32RoundTrip(|ops| % TWO32);
    VisitAfter(ops, []);
    assert Records(ops) + [] == Records(ops) && ops + [] == ops;
    assert VisitRecords([]) == Visit([], None);
  }

  // ---------- batches that are not whole ----------

  lemma {:induction false} VarintCut(n: nat, m: nat, limit: nat)
    requires m < |Varint(n)|
    ensures UnVarint(Varint(n)[..m], limit) == None
  {
    var cut := Varint(n)[..m];
    if limit > 0 && n >= 128 && m > 0 {
      assert cut[1..] == Varint(n / 128)[..m - 1];
      VarintCut(n / 128, m - 1, limit - 1);
    }
  }

  lemma PrefixedCut(value: Bytes, m: nat)
    requires |value| < TWO32 && m < |LengthPrefixed(value)|
    ensures GetLengthPrefixed(LengthPrefixed(value)[..m]) == None
  {
    var head := Varint(|value|);
    if m < |head| {
      assert LengthPrefixed(value)[..m] == head[..m];
      VarintCut(|value|, m, 5);
    } else {
      assert LengthPrefixed(value)[..m] == head + value[..m - |head|];
      Varint32RoundTrip(|value|, value[..m - |head|]);
    }
  }

  lemma RecordCut(op: BatchOp, m: nat)
    requires Sound(op) && 0 < m < |Record(op)|
    ensures ParseOne(Record(op)[..m]) == Bad(if op.Put? then "bad WriteBatch Put" else "bad WriteBatch Delete")
  {
    hide LengthPrefixed, GetLengthPrefixed;
    var cut, a := Record(op)[..m], LengthPrefixed(op.key);
    if op.Put? && m - 1 >= |a| {
      var b := LengthPrefixed(op.value);
      assert cut[1..] == a + b[..m - 1 - |a|];
      LengthPrefixedRoundTrip(op.key, b[..m - 1 - |a|]);
      PrefixedCut(op.value, m - 1 - |a|);
    } else {
      assert cut[1..] == a[..m - 1];
      PrefixedCut(op.key, m - 1);
    }
  }

  lemma IterateHeader(first: U64, count: U32, records: Bytes)
    ensures var rep := Fixed64(first) + Fixed32(count) + records;
      |rep| >= HEADER && rep[HEADER..] == records && Count(rep) == count
  {
    hide Fixed64, Fixed32, UnFixed32;
    var rep := Fixed64(first) + Fixed32(count) + records;
    assert rep[8..12] == Fixed32(count) && rep[HEADER..] == records;
    Fixed32RoundTrip(count);
  }

  /** A batch whose last record is cut anywhere hands over the operations before it and fails. */
  lemma TornBatchFails(first: U64, count: U32, ops: seq<BatchOp>, op: BatchOp, m: nat)
    requires (forall i :: 0 <= i < |ops| ==> Sound(ops[i])) && Sound(op) && 0 < m < |Record(op)|
    ensures IterateRep(Fixed64(first) + Fixed32(count) + (Records(ops) + Record(op)[..m])) ==
      Visit(ops, Some(if op.Put? then "bad WriteBatch Put" else "bad WriteBatch Delete"))
  {
    hide Fixed64, Fixed32, Record, Records, Sound, ParseOne;
    IterateHeader(first, count, Records(ops) + Record(op)[..m]);
    RecordCut(op, m);
    VisitAfter(ops, Record(op)[..m]);
    assert ops + [] == ops;
  }

  /** A batch fails exactly when its count is not that of its records, after all of them were handed over. */
  lemma CountIsChecked(first: U64, count: U32, ops: seq<BatchOp>)
    requires forall i :: 0 <= i < |ops| ==> Sound(ops[i])
    ensures IterateRep(Fixed64(first) + Fixed32(count) + Records(ops)) ==
      Visit(ops, if count == |ops| % TWO32 then None else Some("WriteBatch has wrong count"))
  {
    hide Fixed64, Fixed32, Record, Records, Sound, ParseOne;
    IterateHeader(first, count, Records(ops));
    VisitAfter(ops, []);
    assert Records(ops) + [] == Records(ops) && ops + [] == ops;
    assert VisitRecords([]) == Visit([], None);
  }

  lemma {:induction false} RecordsAppend(a: seq<BatchOp>, b: seq<BatchOp>)
    ensures Records(a + b) == Records(a) + Records(b)
    decreases |b|
  {
    hide Record;
    if b == [] {
      assert a + b == a && Records(a) + [] == Records(a);
    } else {
      assert (a + b)[..|a + b| - 1] == a + b[..|b| - 1];
      RecordsAppend(a, b[..|b| - 1]);
      Associate(Records(a), Records(b[..|b| - 1]), Record(b[|b| - 1]));
    }
  }

  /** Operations with the numbers they get when the batch is inserted. */
  function Numbered(first: nat, ops: seq<BatchOp>): (r: seq<(nat, BatchOp)>)
    ensures |r| == |ops| && forall i :: 0 <= i < |r| ==> r[i] == (first + i, ops[i])
  {
    seq(|ops|, i requires 0 <= i < |ops| => (first + i, ops[i]))
  }

  class WriteBatch {
    var rep: Bytes
    ghost var first: U64
    ghost var ops: seq<BatchOp>

    ghost predicate Valid()
      reads this
    {
      rep == Rep(first, ops)
    }

    constructor ()
      ensures Valid() && ops == [] && first == 0
    {
      rep := Fixed64(0) + Fixed32(0);
      first, ops := 0, [];
    }

    method Clear()
      modifies this
      ensures Valid() && ops == [] && first == 0
    {
      rep := Fixed64(0) + Fixed32(0);
      first, ops := 0, [];
    }

    /** Overwrites the count in the header. */
    method SetCount(n: nat)
      requires |rep| >= HEADER
      modifies this`rep
      ensures rep == old(rep)[..8] + Fixed32(n % TWO32) + old(rep)[12..]
    {
      rep := rep[..8] + Fixed32(n % TWO32) + rep[12..];
    }

    method SetSequence(n: U64)
      requires Valid()
      modifies this
      ensures Valid() && first == n && ops == old(ops)
    {
      hide Fixed64, Fixed32, Records;
      rep := Fixed64(n) + rep[8..];
      first := n;
    }

    method PutOp(key: Bytes, value: Bytes)
      requires Valid()
      modifies this
      ensures Valid() && first == old(first) && ops == old(ops) + [Put(key, value)]
    {
      hide Fixed64, Fixed32, UnFixed32, Records, LengthPrefixed;
      HeaderOf(first, ops);
      SetCount(Count(rep) + 1);
      rep := rep + [TYPE_VALUE];
      rep := rep + LengthPrefixed(key);
      rep := rep + LengthPrefixed(value);
      NextCount(|ops|);
      OneMore(first, ops, Put(key, value), |ops| % TWO32 + 1);
      ops := ops + [Put(key, value)];
    }

    method DeleteOp(key: Bytes)
      requires Valid()
      modifies this
      ensures Valid() && first == old(first) && ops == old(ops) + [Delete(key)]
    {
      hide Fixed64, Fixed32, UnFixed32, Records, LengthPrefixed;
      HeaderOf(first, ops);
      SetCount(Count(rep) + 1);
      rep := rep + [TYPE_DELETION];
      rep := rep + LengthPrefixed(key);
      NextCount(|ops|);
      OneMore(first, ops, Delete(key), |ops| % TWO32 + 1);
      ops := ops + [Delete(key)];
    }

    /** Adds all operations of another batch. */
    method Append(src: WriteBatch)
      requires Valid() && src.Valid() && src != this
      modifies this
      ensures Valid() && first == old(first) && ops == old(ops) + src.ops
    {
      hide Fixed64, Fixed32, UnFixed32, Records;
      HeaderOf(first, ops);
      HeaderOf(src.first, src.ops);
      SetCount(Count(rep) + Count(src.rep));
      rep := rep + src.rep[HEADER..];
      RecordsAppend(ops, src.ops);
      SumOfCounts(|ops|, |src.ops|);
      ops := ops + src.ops;
    }

    /** Hands the operations to a handler one after another; what was handed over is returned. */
    method Iterate() returns (visited: seq<BatchOp>, error: Option<string>)
      ensures Visit(visited, error) == IterateRep(rep)
    {
      hide ParseOne;
      if |rep| < HEADER {
        return [], Some("malformed WriteBatch (too small)");
      }
      var input := rep[HEADER..];
      visited := [];
      var found := 0;
      while input != []
        invariant found == |visited|
        invariant VisitRecords(rep[HEADER..]) == Visit(visited + VisitRecords(input).ops, VisitRecords(input).error)
        decreases |input|
      {
        found := found + 1;
        match ParseOne(input) {
          case Bad(msg) =>
            assert visited + [] == visited;
            return visited, Some(msg);
          case Op(op, rest) =>
            assert visited + ([op] + VisitRecords(rest).ops) == (visited + [op]) + VisitRecords(rest).ops;
            visited := visited + [op];
            input := rest;
        }
      }
      assert visited + [] == visited;
      error := if found % TWO32 != Count(rep) then Some("WriteBatch has wrong count") else None;
    }

    /** WriteBatchInternal::InsertInto: each operation goes to the memtable under the next number. */
    method InsertInto() returns (added: seq<(nat, BatchOp)>)
      requires Valid() && forall i :: 0 <= i < |ops| ==> Sound(ops[i])
      ensures added == Numbered(first, ops)
    {
      hide Rep, IterateRep, Sound;
      BatchRoundTrip(first, ops);
      var sequence: nat := Sequence(rep);
      var visited, error := Iterate();
      added := [];
      for i := 0 to |visited|
        invariant sequence == first + i && added == Numbered(first, ops[..i])
      {
        assert Numbered(first, ops[..i + 1]) == Numbered(first, ops[..i]) + [(first + i, ops[i])];
        added := added + [(sequence, visited[i])];
        sequence := sequence + 1;
      }
      assert ops[..|ops|] == ops;
    }
  }

  lemma HeaderOf(first: U64, ops: seq<BatchOp>)
    ensures var rep := Rep(first, ops);
      && |rep| >= HEADER && Count(rep) == |ops| % TWO32
      && rep[..8] == Fixed64(first) && rep[12..] == Records(ops)
  {
    hide Fixed64, Fixed32, UnFixed32, Records;
    var rep := Rep(first, ops);
    assert rep[..8] == Fixed64(first) && rep[8..12] == Fixed32(|ops| % TWO32) && rep[12..] == Records(ops);
    Fixed32RoundTrip(|ops| % TWO32);
  }

  lemma SumOfCounts(a: nat, b: nat)
    ensures (a % TWO32 + b % TWO32) % TWO32 == (a + b) % TWO32
  {
  }

  lemma OneMore(first: U64, ops: seq<BatchOp>, op: BatchOp, count: nat)
    requires count % TWO32 == |ops + [op]| % TWO32
    ensures Rep(first, ops + [op]) == Fixed64(first) + Fixed32(count % TWO32) + Records(ops) + Record(op)
  {
    hide Fixed64, Fixed32, Record, Records, Rep;
    RepOf(first, ops + [op]);
    RecordsSnoc(ops, op);
    Associate(Fixed64(first) + Fixed32(count % TWO32), Records(ops), Record(op));
  }

  lemma RepOf(first: U64, ops: seq<BatchOp>)
    ensures Rep(first, ops) == Fixed64(first) + Fixed32(|ops| % TWO32) + Records(ops)
  {
  }

  lemma NextCount(n: nat)
    ensures (n % TWO32 + 1) % TWO32 == (n + 1) % TWO32
  {
  }

  lemma RecordsSnoc(ops: seq<BatchOp>, op: BatchOp)
    ensures Records(ops + [op]) == Records(ops) + Record(op)
  {
    hide Record;
    assert (ops + [op])[..|ops|] == ops;
  }
}
