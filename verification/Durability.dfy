/** What survives a crash: logs, tables and the manifest. */
module Durability {
  // From db/db_impl.cc lines 223-278, 292-366, 535-566, 1200-1237, 1341-1366 and db/version_set.cc lines 801-884.
  // The store of module Database runs as before; every batch is first appended to the current log, a full memtable
  // takes a new log with it, and a background job builds tables, persists an edit in the manifest and only then
  // installs the new version, while writers keep going. A crash may cut the tail of the newest log.

  import opened Basics
  import opened DbFormat
  import opened Versions
  import opened ReadPath
  import opened Install
  import opened Outputs
  import opened Database

  /** A batch as logged: its operations are numbered from `first` on. */
  datatype Record = Record(first: nat, ops: seq<Op>)

  type Logs = map<nat, seq<Record>>

  datatype Manifest = Manifest(version: Version, logNumber: nat, nextFile: nat, lastSequence: Sequence)

  datatype Disk = Disk(logs: Logs, tables: set<nat>, manifest: Manifest)

  /** A flush, move or compaction under way: its tables are built; `persisted` once its edit is in the manifest. */
  datatype Job = Job(step: Step, result: Version, persisted: bool)

  /** `logNumber` is the number below which logs are no longer needed, `logfile` the log being written.
      The tables hold every write up to number `flushed`, and with the immutable memtable up to `switched`. */
  datatype Node = Node(
    db: State,
    disk: Disk,
    logNumber: nat,
    logfile: nat,
    job: Option<Job>,
    flushed: Sequence,
    switched: Sequence)

  // ---------- logs and the history they spell ----------

  ghost predicate AllNone(h: History, from: nat, top: nat) {
    from <= top <= |h| && forall i :: from <= i < top ==> h[i] == None
  }

  /** The records, in order, are exactly the writes numbered from `q + 1` to `end`. */
  ghost predicate Spelled(h: History, q: nat, recs: seq<Record>, end: nat)
    decreases |recs|
  {
    if recs == [] then AllNone(h, q, end)
    else
      var r := recs[|recs| - 1];
      && r.first > 0
      && AllNone(h, r.first - 1 + |r.ops|, end)
      && (forall i :: 0 <= i < |r.ops| ==> h[r.first - 1 + i] == Some(r.ops[i]))
      && Spelled(h, q, recs[..|recs| - 1], r.first - 1)
  }

  function LastNumber(q: nat, recs: seq<Record>): int {
    if recs == [] then q else recs[|recs| - 1].first - 1 + |recs[|recs| - 1].ops|
  }

  lemma {:induction false} SpelledBounds(h: History, q: nat, recs: seq<Record>, end: nat)
    requires Spelled(h, q, recs, end)
    ensures q <= LastNumber(q, recs) <= end <= |h|
    decreases |recs|
  {
    if recs != [] {
      SpelledBounds(h, q, recs[..|recs| - 1], recs[|recs| - 1].first - 1);
    }
  }

  lemma {:induction false} SpelledGrows(h: History, h': History, q: nat, recs: seq<Record>, end: nat)
    requires Spelled(h, q, recs, end) && h <= h'
    ensures Spelled(h', q, recs, end)
    decreases |recs|
  {
    if recs != [] {
      SpelledBounds(h, q, recs, end);
      SpelledGrows(h, h', q, recs[..|recs| - 1], recs[|recs| - 1].first - 1);
    }
  }

  lemma SpelledPad(h: History, q: nat, recs: seq<Record>, end: nat, end': nat)
    requires Spelled(h, q, recs, end) && AllNone(h, end, end')
    ensures Spelled(h, q, recs, end')
  {
  }

  lemma {:induction false} SpelledConcat(h: History, q: nat, a: seq<Record>, m: nat, b: seq<Record>, end: nat)
    requires Spelled(h, q, a, m) && Spelled(h, m, b, end)
    ensures Spelled(h, q, a + b, end)
    decreases |b|
  {
    if b == [] {
      assert a + b == a;
      SpelledPad(h, q, a, m, end);
    } else {
      assert (a + b)[..|a + b| - 1] == a + b[..|b| - 1];
      SpelledConcat(h, q, a, m, b[..|b| - 1], b[|b| - 1].first - 1);
    }
  }

  /** Without its last records a log spells the history up to its new end. */
  lemma {:induction false} SpelledPrefix(h: History, q: nat, recs: seq<Record>, end: nat, j: nat)
    requires Spelled(h, q, recs, end) && j <= |recs|
    ensures LastNumber(q, recs[..j]) >= 0 && Spelled(h, q, recs[..j], LastNumber(q, recs[..j]))
    decreases |recs|
  {
    SpelledBounds(h, q, recs, end);
    if j < |recs| {
      assert recs[..|recs| - 1][..j] == recs[..j];
      SpelledPrefix(h, q, recs[..|recs| - 1], recs[|recs| - 1].first - 1, j);
    } else {
      assert recs[..j] == recs;
    }
  }

  /** All records of the logs numbered from `from` up to but not including `to`, in ascending order. */
  function Collect(logs: Logs, from: nat, top: nat): seq<Record> {
    if from >= top then [] else Collect(logs, from, top - 1) + (if top - 1 in logs then logs[top - 1] else [])
  }

  lemma {:induction false} CollectNone(logs: Logs, from: nat, top: nat)
    requires forall k :: from <= k < top ==> k !in logs
    ensures Collect(logs, from, top) == []
  {
    if from < top { CollectNone(logs, from, top - 1); }
  }

  lemma {:induction false} CollectSplit(logs: Logs, from: nat, mid: nat, top: nat)
    requires from <= mid <= top
    ensures Collect(logs, from, top) == Collect(logs, from, mid) + Collect(logs, mid, top)
    decreases top
  {
    if mid < top { CollectSplit(logs, from, mid, top - 1); }
  }

  lemma CollectOne(logs: Logs, at: nat, top: nat)
    requires at in logs && at < top && forall k :: at < k < top ==> k !in logs
    ensures Collect(logs, at, top) == logs[at]
  {
    CollectSplit(logs, at, at + 1, top);
    CollectNone(logs, at + 1, top);
  }

  /** Two logs are needed while the older memtable waits to be flushed. */
  lemma CollectTwo(logs: Logs, a: nat, b: nat, top: nat)
    requires a in logs && b in logs && a < b < top && forall k :: a < k < top && k != b ==> k !in logs
    ensures Collect(logs, a, top) == logs[a] + logs[b]
  {
    CollectSplit(logs, a, b, top);
    CollectOne(logs, a, b);
    CollectOne(logs, b, top);
  }

  // ---------- the invariant ----------

  /** These entries are all numbered up to `q`, and at `q` they read as the history does. */
  ghost predicate ReadsUpTo(es: set<Entry>, h: History, q: Sequence) {
    && q <= |h|
    && (forall e :: e in es ==> e.ikey.seqno <= q)
    && forall k :: ReadAt(es, k, q) == Lookup(h, q, k)
  }

  ghost function FilesOf(v: Version): set<nat> {
    set l, f | 0 <= l < NUM_LEVELS && f in v[l] :: f.number
  }

  /** The store as it will be when the job is installed. */
  function AfterJob(db: State, job: Job): State {
    db.(current := job.result, imm := if job.step.DoFlush? then None else db.imm)
  }

  ghost predicate JobOk(db: State, job: Job) {
    && (job.step.DoFlush? || job.step.DoCompact? || job.step.DoMove?)
    && Next(db, AfterJob(db, job), job.step)
  }

  predicate Persisted(n: Node) {
    n.job.Some? && n.job.value.persisted
  }

  /** The manifest's edit already covers the immutable memtable. */
  predicate FlushPersisted(n: Node) {
    Persisted(n) && n.job.value.step.DoFlush?
  }

  ghost predicate LogsOk(db: State, logs: Logs, logNumber: nat, logfile: nat) {
    && logNumber <= logfile < db.nextFile
    && logfile in logs && logNumber in logs
    && (forall k :: k in logs ==> k <= logfile)
    && (forall k :: k in logs && k >= logNumber ==> k == logNumber || k == logfile)
    && (db.imm.None? <==> logNumber == logfile)
  }

  ghost predicate LogsSpell(db: State, logs: Logs, logNumber: nat, logfile: nat, flushed: nat, switched: nat)
    requires LogsOk(db, logs, logNumber, logfile)
  {
    && Spelled(db.history, switched, logs[logfile], db.lastSequence)
    && (if db.imm.Some? then Spelled(db.history, flushed, logs[logNumber], switched) else flushed == switched)
  }

  ghost predicate TablesRead(db: State, flushed: Sequence, switched: Sequence) {
    && ReadsUpTo(Entries(db.current), db.history, flushed)
    && ReadsUpTo(ImmEntries(db.imm) + Entries(db.current), db.history, switched)
  }

  ghost predicate ManifestOk(n: Node) {
    var m := n.disk.manifest;
    && m.version == (if Persisted(n) then n.job.value.result else n.db.current)
    && m.logNumber == (if FlushPersisted(n) then n.logfile else n.logNumber)
    && m.nextFile <= n.db.nextFile && m.lastSequence <= n.db.lastSequence
    && NumbersBelow(m.version, m.nextFile)
  }

  ghost predicate TablesPresent(n: Node) {
    && FilesOf(n.db.current) <= n.disk.tables
    && (n.job.Some? ==> FilesOf(n.job.value.result) <= n.disk.tables)
  }

  ghost predicate DurInv(n: Node) {
    && DbInv(n.db)
    && LogsOk(n.db, n.disk.logs, n.logNumber, n.logfile)
    && LogsSpell(n.db, n.disk.logs, n.logNumber, n.logfile, n.flushed, n.switched)
    && TablesRead(n.db, n.flushed, n.switched)
    && ManifestOk(n)
    && TablesPresent(n)
    && (n.job.Some? ==> JobOk(n.db, n.job.value))
  }

  // ---------- what recovery starts from ----------

  /** The records recovery replays: those of the logs from the manifest's log number on. */
  function ToReplay(disk: Disk, top: nat): seq<Record> {
    Collect(disk.logs, disk.manifest.logNumber, top)
  }

  /** Up to which number the manifest's tables hold every write. */
  function ManifestFlushed(n: Node): Sequence {
    if FlushPersisted(n) then n.switched else n.flushed
  }

  /** The state the manifest's tables stand for on their own. */
  function TablesOnly(version: Version, h: History, q: Sequence, nextFile: nat): State
    requires q <= |h|
  {
    State([], None, version, q, nextFile, [], h[..q])
  }

  lemma TablesOnlyOk(version: Version, h: History, q: Sequence, nextFile: nat)
    requires Inv(version) && NumbersBelow(version, nextFile) && ReadsUpTo(Entries(version), h, q)
    ensures DbInv(TablesOnly(version, h, q, nextFile))
  {
    hide Inv, Lookup;
    var st := TablesOnly(version, h, q, nextFile);
    assert All(st) == Entries(version);
    forall k, s: Sequence | Oldest(st) <= s <= st.lastSequence
      ensures ReadAt(All(st), k, s) == Lookup(st.history, s, k)
    {
      LookupPrefix(h[..q], h, q, k);
    }
  }

  lemma ReadsUpToGrows(es: set<Entry>, h: History, h': History, q: Sequence)
    requires ReadsUpTo(es, h, q) && h <= h'
    ensures ReadsUpTo(es, h', q)
  {
    forall k ensures ReadAt(es, k, q) == Lookup(h', q, k) {
      LookupPrefix(h, h', q, k);
    }
  }

  /** Tables that read alike from some number on, and hold nothing newer than `q`, read alike at `q`. */
  lemma ReadsUpToReplaced(es: set<Entry>, es': set<Entry>, h: History, q: Sequence, oldest: Sequence)
    requires ReadsUpTo(es, h, q) && es' <= es && Unique(es)
    requires forall k, s: Sequence :: s >= oldest ==> ReadAt(es', k, s) == ReadAt(es, k, s)
    ensures ReadsUpTo(es', h, q)
  {
    var s := if q < oldest then oldest else q;
    forall k ensures ReadAt(es', k, q) == Lookup(h, q, k) {
      ReadPastEnd(es', q, k, s);
      ReadPastEnd(es, q, k, s);
    }
  }

  // ---------- replaying logs ----------

  lemma {:induction false} SpelledSuffix(h: History, q: nat, a: seq<Record>, b: seq<Record>, end: nat)
    requires Spelled(h, q, a + b, end)
    ensures LastNumber(q, a) >= 0 && Spelled(h, LastNumber(q, a), b, end)
    decreases |b|
  {
    if b == [] {
      assert a + b == a;
      SpelledBounds(h, q, a, end);
    } else {
      assert (a + b)[..|a + b| - 1] == a + b[..|b| - 1];
      SpelledSuffix(h, q, a, b[..|b| - 1], b[|b| - 1].first - 1);
    }
  }

  predicate Replayable(q: nat, recs: seq<Record>)
    decreases |recs|
  {
    recs == [] ||
    var r := recs[|recs| - 1];
    && r.first > 0 && LastNumber(q, recs[..|recs| - 1]) <= r.first - 1 && r.first - 1 + |r.ops| <= MAX_SEQUENCE
    && Replayable(q, recs[..|recs| - 1])
  }

  /** The records of a log enter the memtable under their own numbers. */
  function Replay(st: State, recs: seq<Record>): (r: State)
    requires Replayable(st.lastSequence, recs)
    ensures r.lastSequence == LastNumber(st.lastSequence, recs)
    decreases |recs|
  {
    if recs == [] then st
    else
      var r := recs[|recs| - 1];
      var s := Replay(st, recs[..|recs| - 1]);
      AddOps(BurnNumbers(s, r.first - 1 - s.lastSequence), r.ops)
  }

  lemma {:induction false} SpelledReplayable(h: History, q: nat, recs: seq<Record>, end: nat)
    requires Spelled(h, q, recs, end) && end <= MAX_SEQUENCE
    ensures Replayable(q, recs)
    decreases |recs|
  {
    if recs != [] {
      SpelledBounds(h, q, recs[..|recs| - 1], recs[|recs| - 1].first - 1);
      SpelledReplayable(h, q, recs[..|recs| - 1], recs[|recs| - 1].first - 1);
    }
  }

  lemma {:induction false} ReplayOk(st: State, recs: seq<Record>)
    requires DbInv(st) && Replayable(st.lastSequence, recs)
    ensures DbInv(Replay(st, recs))
    decreases |recs|
  {
    hide DbInv;
    if recs != [] {
      var r := recs[|recs| - 1];
      var s := Replay(st, recs[..|recs| - 1]);
      ReplayOk(st, recs[..|recs| - 1]);
      BurnOk(s, r.first - 1 - s.lastSequence);
      AddOpsOk(BurnNumbers(s, r.first - 1 - s.lastSequence), r.ops);
    }
  }

  lemma {:induction false} AddOpsFrame(st: State, ops: seq<Op>, h: History)
    requires st.lastSequence + |ops| <= MAX_SEQUENCE && |st.history| == st.lastSequence
    requires st.lastSequence + |ops| <= |h| && st.history == h[..st.lastSequence]
    requires forall i :: 0 <= i < |ops| ==> h[st.lastSequence + i] == Some(ops[i])
    ensures AddOps(st, ops) ==
      st.(mem := AddOps(st, ops).mem, lastSequence := st.lastSequence + |ops|, history := h[..st.lastSequence + |ops|])
  {
    if ops != [] {
      AddOpsFrame(st, ops[..|ops| - 1], h);
    }
  }

  lemma BurnFrame(st: State, n: nat, h: History)
    requires st.lastSequence + n <= MAX_SEQUENCE && st.lastSequence <= |h| && st.history == h[..st.lastSequence]
    requires AllNone(h, st.lastSequence, st.lastSequence + n)
    ensures BurnNumbers(st, n) == st.(lastSequence := st.lastSequence + n, history := h[..st.lastSequence + n])
  {
  }

  lemma {:induction false} SpelledTail(h: History, q: nat, recs: seq<Record>, end: nat)
    requires Spelled(h, q, recs, end)
    ensures LastNumber(q, recs) >= 0 && AllNone(h, LastNumber(q, recs), end)
  {
    SpelledBounds(h, q, recs, end);
  }

  /** Replaying the records that spell a part of the history rebuilds that part. */
  lemma {:induction false} ReplayHistory(st: State, recs: seq<Record>, h: History, end: nat)
    requires Spelled(h, st.lastSequence, recs, end) && end <= MAX_SEQUENCE
    requires st.lastSequence <= |h| && st.history == h[..st.lastSequence]
    requires Replayable(st.lastSequence, recs)
    ensures var r := Replay(st, recs);
      && r.lastSequence <= |h|
      && r == st.(mem := r.mem, lastSequence := r.lastSequence, history := h[..r.lastSequence])
    decreases |recs|
  {
    hide AddOps, BurnNumbers;
    if recs != [] {
      var init, r := recs[..|recs| - 1], recs[|recs| - 1];
      ReplayHistory(st, init, h, r.first - 1);
      SpelledTail(h, st.lastSequence, init, r.first - 1);
      var s := Replay(st, init);
      SpelledBounds(h, st.lastSequence, recs, end);
      BurnFrame(s, r.first - 1 - s.lastSequence, h);
      AddOpsFrame(BurnNumbers(s, r.first - 1 - s.lastSequence), r.ops, h);
    }
  }

  // ---------- rebuilding the tables ----------

  /** A replayed memtable goes to a table at level 0 (WriteLevel0Table without a base version). */
  function DumpMemtable(st: State, number: nat, size: nat): State {
    if st.mem == [] then st.(nextFile := number + 1)
    else
      st.(mem := [], current := Installed(st.current, FlushEdit(0, RunFile(number, size, st.mem))),
          nextFile := number + 1)
  }

  lemma DumpOk(st: State, number: nat, size: nat)
    requires DbInv(st) && st.imm.None? && st.nextFile <= number
    ensures DbInv(DumpMemtable(st, number, size))
  {
    hide DbInv, Installed, FlushEdit, RunFile, NumbersBelow;
    var a := st.(mem := [], imm := Some(st.mem));
    SwitchOk(st, a);
    NumbersStayBelow(st, number);
    FlushOk(a, DumpMemtable(st, number, size), 0, size, number);
  }

  lemma NumbersStayBelow(st: State, number: nat)
    requires DbInv(st) && st.nextFile <= number
    ensures NumbersBelow(st.current, number)
  {
  }

  /** What one replayed memtable held, and the table it became. */
  datatype Dump = Dump(recs: seq<Record>, number: nat, size: nat)

  function DumpedRecords(dumps: seq<Dump>): seq<Record> {
    if dumps == [] then [] else DumpedRecords(dumps[..|dumps| - 1]) + dumps[|dumps| - 1].recs
  }

  function Numbers(dumps: seq<Dump>): set<nat> {
    set i | 0 <= i < |dumps| :: dumps[i].number
  }

  /** RecoverLogFile for all logs: memtable after memtable, each under a number not yet in use. */
  function Rebuild(st: State, dumps: seq<Dump>): Option<State> {
    if dumps == [] then Some(st)
    else
      match Rebuild(st, dumps[..|dumps| - 1])
      case None => None
      case Some(mid) =>
        var d := dumps[|dumps| - 1];
        if Replayable(mid.lastSequence, d.recs) && mid.nextFile <= d.number
        then Some(DumpMemtable(Replay(mid, d.recs), d.number, d.size))
        else None
  }

  lemma DumpedFiles(st: State, number: nat, size: nat)
    requires DbInv(st) && st.nextFile <= number
    ensures FilesOf(DumpMemtable(st, number, size).current) <= FilesOf(st.current) + {number}
  {
    if st.mem != [] {
      var f := RunFile(number, size, st.mem);
      FlushInstalled(st.current, 0, f);
    }
  }

  /** What recovery has made of the records so far. */
  ghost predicate RebuiltFrom(st: State, h: History, numbers: set<nat>, b: State) {
    && DbInv(b) && b.mem == [] && b.imm == None && b.snapshots == []
    && b.lastSequence <= |h| && b.history == h[..b.lastSequence]
    && FilesOf(b.current) <= FilesOf(st.current) + numbers
    && st.nextFile <= b.nextFile
  }

  lemma RebuildStep(st: State, h: History, numbers: set<nat>, mid: State, d: Dump, end: nat)
    requires RebuiltFrom(st, h, numbers, mid)
    requires Spelled(h, mid.lastSequence, d.recs, end) && end <= MAX_SEQUENCE
    requires Replayable(mid.lastSequence, d.recs) && mid.nextFile <= d.number
    ensures RebuiltFrom(st, h, numbers + {d.number}, DumpMemtable(Replay(mid, d.recs), d.number, d.size))
    ensures DumpMemtable(Replay(mid, d.recs), d.number, d.size).lastSequence == LastNumber(mid.lastSequence, d.recs)
  {
    hide DbInv, FilesOf, Spelled, Replayable;
    HistoryLength(mid);
    ReplayOk(mid, d.recs);
    ReplayHistory(mid, d.recs, h, end);
    var r := Replay(mid, d.recs);
    DumpOk(r, d.number, d.size);
    DumpedFiles(r, d.number, d.size);
  }

  lemma HistoryLength(st: State)
    requires DbInv(st)
    ensures |st.history| == st.lastSequence
  {
  }

  lemma NumbersSnoc(dumps: seq<Dump>, d: Dump)
    ensures Numbers(dumps + [d]) == Numbers(dumps) + {d.number}
  {
    var all := dumps + [d];
    forall n | n in Numbers(dumps) ensures n in Numbers(all) {
      var i :| 0 <= i < |dumps| && dumps[i].number == n;
      assert all[i].number == n;
    }
    assert all[|dumps|].number == d.number;
  }

  /** Recovery rebuilds the history up to the last record it replays, and every invariant with it. */
  lemma {:induction false} RebuildOk(st: State, dumps: seq<Dump>, h: History, end: nat)
    requires RebuiltFrom(st, h, {}, st)
    requires Spelled(h, st.lastSequence, DumpedRecords(dumps), end) && end <= MAX_SEQUENCE
    requires Rebuild(st, dumps).Some?
    ensures var b := Rebuild(st, dumps).value;
      RebuiltFrom(st, h, Numbers(dumps), b) && b.lastSequence == LastNumber(st.lastSequence, DumpedRecords(dumps))
  {
    hide RebuiltFrom, Spelled, LastNumber, Replayable, DumpMemtable;
    if dumps == [] {
      assert Numbers(dumps) == {};
      NoRecords(st.lastSequence);
    } else {
      var init, d := dumps[..|dumps| - 1], dumps[|dumps| - 1];
      var before, m := DumpedRecords(init), LastNumber(st.lastSequence, DumpedRecords(init));
      SpelledSuffix(h, st.lastSequence, before, d.recs, end);
      assert (before + d.recs)[..|before|] == before;
      SpelledPrefix(h, st.lastSequence, before + d.recs, end, |before|);
      SpelledBounds(h, m, d.recs, end);
      SpelledBounds(h, st.lastSequence, before, m);
      RebuildOk(st, init, h, m);
      var mid := Rebuild(st, init).value;
      RebuildStep(st, h, Numbers(init), mid, d, end);
      NumbersSnoc(init, d);
      assert dumps == init + [d];
      LastNumberAppend(st.lastSequence, before, d.recs);
    }
  }

  lemma NoRecords(q: nat)
    ensures LastNumber(q, []) == q
  {
  }

  lemma LastNumberAppend(q: nat, a: seq<Record>, b: seq<Record>)
    requires LastNumber(q, a) >= 0
    ensures LastNumber(q, a + b) == LastNumber(LastNumber(q, a), b)
  {
    if b == [] { assert a + b == a; }
  }
}
