/** A crash, byte by byte. */
module CrashBytes {
  // The crashes of CrashSafety cut whole records; here the newest log is a file of bytes cut anywhere. Every record
  // of it is a write batch (db/db_impl.cc lines 1206-1226), framed by the log writer, and recovery reads it back
  // record by record (lines 424-461).

  import opened Basics
  import opened Coding
  import opened DbFormat
  import opened Database
  import opened Durability
  import opened CrashSafety
  import WriteBatches
  import LogWriter
  import opened LogReader
  import opened LogRecovery

  /** User keys as bytes: how a key is spelled, and the rank the user comparator gives a spelling. */
  datatype Spelling = Spelling(spell: UserKey -> Bytes, rank: Bytes -> UserKey)

  predicate SpelledOp(w: Spelling, op: Op) {
    match op
    case Put(k, v) => w.rank(w.spell(k)) == k && |w.spell(k)| < TWO32 && |v| < TWO32
    case Delete(k) => w.rank(w.spell(k)) == k && |w.spell(k)| < TWO32
  }

  ghost predicate SpelledRecord(w: Spelling, r: Durability.Record) {
    r.first < TWO64 && forall i :: 0 <= i < |r.ops| ==> SpelledOp(w, r.ops[i])
  }

  function ToBatch(w: Spelling, op: Op): WriteBatches.BatchOp {
    match op
    case Put(k, v) => WriteBatches.Put(w.spell(k), v)
    case Delete(k) => WriteBatches.Delete(w.spell(k))
  }

  function FromBatch(w: Spelling, op: WriteBatches.BatchOp): Op {
    match op
    case Put(k, v) => Put(w.rank(k), v)
    case Delete(k) => Delete(w.rank(k))
  }

  function ToBatches(w: Spelling, ops: seq<Op>): (r: seq<WriteBatches.BatchOp>)
    ensures |r| == |ops| && forall i :: 0 <= i < |r| ==> r[i] == ToBatch(w, ops[i])
  {
    seq(|ops|, i requires 0 <= i < |ops| => ToBatch(w, ops[i]))
  }

  function FromBatches(w: Spelling, ops: seq<WriteBatches.BatchOp>): (r: seq<Op>)
    ensures |r| == |ops| && forall i :: 0 <= i < |r| ==> r[i] == FromBatch(w, ops[i])
  {
    seq(|ops|, i requires 0 <= i < |ops| => FromBatch(w, ops[i]))
  }

  /** The record as AddRecord gets it. */
  ghost function RecordBytes(w: Spelling, r: Durability.Record): Bytes
    requires SpelledRecord(w, r)
  {
    WriteBatches.Rep(r.first, ToBatches(w, r.ops))
  }

  /** What recovery makes of a record's bytes. */
  function DecodeRecord(w: Spelling, bytes: Bytes): Option<Durability.Record> {
    if |bytes| < WriteBatches.HEADER then None
    else
      var v := WriteBatches.IterateRep(bytes);
      if v.error.Some? then None else Some(Durability.Record(WriteBatches.Sequence(bytes), FromBatches(w, v.ops)))
  }

  lemma RecordRoundTrip(w: Spelling, r: Durability.Record)
    requires SpelledRecord(w, r)
    ensures DecodeRecord(w, RecordBytes(w, r)) == Some(r)
  {
    hide WriteBatches.Rep, WriteBatches.IterateRep, WriteBatches.Sequence;
    var ops := ToBatches(w, r.ops);
    WriteBatches.BatchRoundTrip(r.first, ops);
    assert FromBatches(w, ops) == r.ops;
  }

  ghost predicate SpelledRecords(w: Spelling, recs: seq<Durability.Record>) {
    forall i :: 0 <= i < |recs| ==> SpelledRecord(w, recs[i])
  }

  ghost function RecordsBytes(w: Spelling, recs: seq<Durability.Record>): (r: seq<Bytes>)
    requires SpelledRecords(w, recs)
    ensures |r| == |recs| && forall i :: 0 <= i < |r| ==> r[i] == RecordBytes(w, recs[i])
  {
    seq(|recs|, i requires 0 <= i < |recs| => RecordBytes(w, recs[i]))
  }

  function DecodeRecords(w: Spelling, bytes: seq<Bytes>): Option<seq<Durability.Record>> {
    if bytes == [] then Some([])
    else
      var init, last := DecodeRecords(w, bytes[..|bytes| - 1]), DecodeRecord(w, bytes[|bytes| - 1]);
      if init.Some? && last.Some? then Some(init.value + [last.value]) else None
  }

  lemma {:induction false} RecordsRoundTrip(w: Spelling, recs: seq<Durability.Record>)
    requires SpelledRecords(w, recs)
    ensures DecodeRecords(w, RecordsBytes(w, recs)) == Some(recs)
  {
    hide SpelledRecord, DecodeRecord, RecordBytes;
    if recs != [] {
      var n := |recs| - 1;
      RecordsRoundTrip(w, recs[..n]);
      RecordRoundTrip(w, recs[n]);
      assert RecordsBytes(w, recs)[..n] == RecordsBytes(w, recs[..n]);
      assert recs == recs[..n] + [recs[n]];
    } else {
      assert recs == [];
    }
  }

  /** The bytes of a log. */
  ghost function LogBytes(crc: LogWriter.Checksum, w: Spelling, recs: seq<Durability.Record>): Bytes
    requires SpelledRecords(w, recs)
  {
    LogFile(crc, RecordsBytes(w, recs))
  }

  /** How many records of a log lie within its first `n` bytes. */
  ghost function WholeRecords(w: Spelling, recs: seq<Durability.Record>, n: nat): (cut: nat)
    requires SpelledRecords(w, recs)
    ensures cut <= |recs|
  {
    CountWithin(n, 0, RecordsBytes(w, recs))
  }

  /** A log cut at any byte is read as its records that lie before the cut, without a report. */
  lemma CutLogReads(crc: LogWriter.Checksum, w: Spelling, recs: seq<Durability.Record>, n: nat)
    requires SpelledRecords(w, recs) && n <= |LogBytes(crc, w, recs)|
    ensures var cut, events := WholeRecords(w, recs, n), Recovered(crc, true, LogBytes(crc, w, recs)[..n]);
      && DecodeRecords(w, Gots(events)) == Some(recs[..cut]) && Drops(events) == []
    ensures forall i :: 0 <= i <= |recs| ==>
      (i <= WholeRecords(w, recs, n) <==> |LogBytes(crc, w, recs[..i])| <= n)
  {
    hide Recovered, CountWithin, LogFile, SpelledRecord;
    var all, cut := RecordsBytes(w, recs), WholeRecords(w, recs, n);
    TruncatedLogReads(crc, true, all, n);
    forall i | 0 <= i <= |recs| ensures RecordsBytes(w, recs[..i]) == all[..i] { }
    RecordsRoundTrip(w, recs[..cut]);
  }

  /** What a crash that cuts the newest log after `cut` records leaves of the history. */
  ghost predicate KeepsPrefix(a: Node, b: Node, cut: nat, newLog: nat)
    requires a.logfile in a.disk.logs && cut <= |a.disk.logs[a.logfile]|
  {
    var kept := LastNumber(ManifestFlushed(a), ToReplay(CutTail(a, cut), newLog));
    && 0 <= kept <= |a.db.history| && DbInv(b.db)
    && (cut > 0 ==> var r := a.disk.logs[a.logfile][cut - 1]; r.first - 1 + |r.ops| == kept)
    && forall k :: ReadAt(All(b.db), k, b.db.lastSequence) == Lookup(a.db.history, kept, k)
  }

  /** In every reachable state, cut the newest log's bytes anywhere. The reader returns exactly the records completely
      before the cut, and reports nothing; recovery from them completes; and however it completes, the store then
      reads the history up to the last of those records. */
  lemma EveryCrashRecovers(nodes: seq<Node>, steps: seq<DurStep>, i: nat, crc: LogWriter.Checksum, w: Spelling, n: nat)
      returns (b: Node, dumps: seq<Dump>, newLog: nat)
    requires DurRun(nodes, steps) && i < |nodes| && nodes[i].logfile in nodes[i].disk.logs
    requires SpelledRecords(w, nodes[i].disk.logs[nodes[i].logfile])
    requires n <= |LogBytes(crc, w, nodes[i].disk.logs[nodes[i].logfile])|
    ensures var a := nodes[i];
      var recs := a.disk.logs[a.logfile];
      var cut, events := WholeRecords(w, recs, n), Recovered(crc, true, LogBytes(crc, w, recs)[..n]);
      && DecodeRecords(w, Gots(events)) == Some(recs[..cut]) && Drops(events) == []
      && (forall j :: 0 <= j <= |recs| ==> (j <= cut <==> |LogBytes(crc, w, recs[..j])| <= n))
      && Crash(a, b, cut, dumps, newLog)
      && forall b', dumps', newLog' :: Crash(a, b', cut, dumps', newLog') ==> KeepsPrefix(a, b', cut, newLog')
  {
    hide DurInv, Crash, Recovered, LogBytes, WholeRecords, SpelledRecords, DecodeRecords, KeepsPrefix;
    var a := nodes[i];
    var recs := a.disk.logs[a.logfile];
    var cut := WholeRecords(w, recs, n);
    EveryRunIsDurable(nodes, steps, i);
    CutLogReads(crc, w, recs, n);
    b, dumps, newLog := RecoveryAlwaysSucceeds(a, cut);
    forall b', dumps', newLog' | Crash(a, b', cut, dumps', newLog') ensures KeepsPrefix(a, b', cut, newLog') {
      CrashKeepsPrefix(a, b', cut, dumps', newLog');
    }
  }

  lemma CrashKeepsPrefix(a: Node, b: Node, cut: nat, dumps: seq<Dump>, newLog: nat)
    requires DurInv(a) && Crash(a, b, cut, dumps, newLog)
    ensures KeepsPrefix(a, b, cut, newLog)
  {
    hide DurInv, Recover, DbInv, ReadAt, Lookup, LastNumber, ToReplay;
    CrashLosesOnlyTheTail(a, b, cut, dumps, newLog);
    CrashOk(a, b, cut, dumps, newLog);
    HistoryLengthIs(a);
    assert DbInv(b.db) by { InvHasDb(b); }
  }

  lemma HistoryLengthIs(a: Node)
    requires DurInv(a)
    ensures |a.db.history| == a.db.lastSequence
  {
  }

  lemma InvHasDb(b: Node)
    requires DurInv(b)
    ensures DbInv(b.db)
  {
  }
}
