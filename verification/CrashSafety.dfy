/** Every run of the durable store, crashes included. */
module CrashSafety {
  // The tables of the persisted version and the logs from its log number on always spell the history
  // (db/db_impl.cc lines 223-278, 292-366, 535-566, 1200-1237, 1341-1366).

  import opened Basics
  import opened DbFormat
  import opened Versions
  import opened ReadPath
  import opened DropRules
  import opened Setup
  import opened Steps
  import opened Install
  import opened Outputs
  import opened Database
  import opened Durability

  // ---------- the steps ----------

  /** A batch is appended to the log and enters the memtable. */
  ghost predicate LogWrite(a: Node, b: Node, ops: seq<Op>) {
    && a.db.lastSequence + |ops| <= MAX_SEQUENCE
    && a.logfile in a.disk.logs
    && b == a.(
         db := AddOps(a.db, ops),
         disk := a.disk.(
           logs := a.disk.logs[a.logfile := a.disk.logs[a.logfile] + [Record(a.db.lastSequence + 1, ops)]]))
  }

  /** A failed append leaves nothing in the log but uses up its numbers. */
  ghost predicate LogWriteFails(a: Node, b: Node, n: nat) {
    && a.db.lastSequence + n <= MAX_SEQUENCE
    && b == a.(db := BurnNumbers(a.db, n))
  }

  /** MakeRoomForWrite: the full memtable waits for its flush, a new log takes the next writes. */
  ghost predicate SwitchLog(a: Node, b: Node) {
    && a.db.imm.None?
    && b == a.(
         db := a.db.(mem := [], imm := Some(a.db.mem), nextFile := a.db.nextFile + 1),
         disk := a.disk.(logs := a.disk.logs[a.db.nextFile := []]),
         logfile := a.db.nextFile,
         switched := a.db.lastSequence)
  }

  /** The background thread has written the tables of its job. */
  ghost predicate BuildTables(a: Node, b: Node, job: Job) {
    && a.job.None? && !job.persisted
    && a.db.nextFile <= b.db.nextFile
    && JobOk(b.db, job)
    && b == a.(
         db := a.db.(nextFile := b.db.nextFile),
         disk := a.disk.(tables := a.disk.tables + (FilesOf(job.result) - FilesOf(a.db.current))),
         job := Some(job))
  }

  /** The job failed before its edit was written. */
  ghost predicate Abandon(a: Node, b: Node) {
    a.job.Some? && !a.job.value.persisted && b == a.(job := None)
  }

  /** LogAndApply: the edit is in the manifest. A flush makes all logs before the current one obsolete. */
  ghost predicate Persist(a: Node, b: Node) {
    && a.job.Some? && !a.job.value.persisted
    && var job := a.job.value;
       var log := if job.step.DoFlush? then a.logfile else a.logNumber;
       b == a.(
         disk := a.disk.(manifest := Manifest(job.result, log, a.db.nextFile, a.db.lastSequence)),
         job := Some(job.(persisted := true)))
  }

  /** LogAndApply, after the manifest write: the new version becomes current. */
  ghost predicate InstallJob(a: Node, b: Node) {
    && Persisted(a)
    && b == a.(
         db := AfterJob(a.db, a.job.value),
         logNumber := a.disk.manifest.logNumber,
         flushed := ManifestFlushed(a),
         job := None)
  }

  /** DeleteObsoleteFiles, between two jobs; `live` are the tables of the versions still referenced. */
  ghost predicate DeleteObsolete(a: Node, b: Node, live: set<nat>) {
    && a.job.None? && FilesOf(a.db.current) <= live
    && b == a.(disk := a.disk.(
         logs := map k | k in a.disk.logs && k >= a.logNumber :: a.disk.logs[k],
         tables := a.disk.tables * live))
  }

  ghost predicate NewSnapshot(a: Node, b: Node) {
    TakeSnapshot(a.db, b.db) && b == a.(db := b.db)
  }

  ghost predicate DropSnapshot(a: Node, b: Node, i: nat) {
    ReleaseSnapshot(a.db, b.db, i) && b == a.(db := b.db)
  }

  /** The disk after a crash that loses all but the first `cut` records of the newest log. */
  function CutTail(a: Node, cut: nat): Disk
    requires a.logfile in a.disk.logs && cut <= |a.disk.logs[a.logfile]|
  {
    a.disk.(logs := a.disk.logs[a.logfile := a.disk.logs[a.logfile][..cut]])
  }

  /** What recovery leaves beside the logs and tables it found: its own tables, and the tables and empty logs of
      recoveries that were themselves cut short before their manifest edit. */
  ghost predicate LeftBy(disk: Disk, after: Disk, built: set<nat>, newLog: nat) {
    && disk.tables + built <= after.tables
    && newLog in after.logs && after.logs[newLog] == []
    && (forall k :: k in disk.logs ==> k in after.logs && after.logs[k] == disk.logs[k])
    && (forall k :: k in after.logs && k !in disk.logs ==> k <= newLog && after.logs[k] == [])
  }

  /** Recover and the rest of DB::Open: the manifest's tables, the logs replayed into further tables, and a new log. */
  ghost predicate Recover(disk: Disk, start: State, b: Node, dumps: seq<Dump>, newLog: nat) {
    && (forall k :: k in disk.logs ==> k < newLog)
    && DumpedRecords(dumps) == ToReplay(disk, newLog)
    && Rebuild(start, dumps).Some?
    && var s := Rebuild(start, dumps).value;
       var last: Sequence :=
         if s.lastSequence < disk.manifest.lastSequence then disk.manifest.lastSequence else s.lastSequence;
       && s.nextFile <= newLog
       && b == Node(
            BurnNumbers(s, last - s.lastSequence).(nextFile := newLog + 1),
            b.disk.(manifest := Manifest(s.current, newLog, newLog + 1, last)),
            newLog, newLog, None, last, last)
       && LeftBy(disk, b.disk, FilesOf(s.current) - FilesOf(disk.manifest.version), newLog)
  }

  /** What the manifest of a node stands for before any log is replayed. */
  ghost function StartOf(a: Node): State
    requires ManifestFlushed(a) <= |a.db.history|
  {
    TablesOnly(a.disk.manifest.version, a.db.history, ManifestFlushed(a), a.disk.manifest.nextFile + 1)
  }

  ghost predicate Crash(a: Node, b: Node, cut: nat, dumps: seq<Dump>, newLog: nat) {
    && a.logfile in a.disk.logs && cut <= |a.disk.logs[a.logfile]|
    && ManifestFlushed(a) <= |a.db.history|
    && Recover(CutTail(a, cut), StartOf(a), b, dumps, newLog)
  }

  datatype DurStep =
    | DoLogWrite(ops: seq<Op>)
    | DoLogWriteFails(n: nat)
    | DoSwitchLog
    | DoBuild(job: Job)
    | DoAbandon
    | DoPersist
    | DoInstall
    | DoDelete(live: set<nat>)
    | DoNewSnapshot
    | DoDropSnapshot(i: nat)
    | DoCrash(cut: nat, dumps: seq<Dump>, newLog: nat)

  ghost predicate DurNext(a: Node, b: Node, step: DurStep) {
    match step
    case DoLogWrite(ops) => LogWrite(a, b, ops)
    case DoLogWriteFails(n) => LogWriteFails(a, b, n)
    case DoSwitchLog => SwitchLog(a, b)
    case DoBuild(job) => BuildTables(a, b, job)
    case DoAbandon => Abandon(a, b)
    case DoPersist => Persist(a, b)
    case DoInstall => InstallJob(a, b)
    case DoDelete(live) => DeleteObsolete(a, b, live)
    case DoNewSnapshot => NewSnapshot(a, b)
    case DoDropSnapshot(i) => DropSnapshot(a, b, i)
    case DoCrash(cut, dumps, newLog) => Crash(a, b, cut, dumps, newLog)
  }

  // ---------- writers beside a job ----------

  /** What writers and snapshots may do while a job runs. */
  ghost predicate Beside(a: State, b: State) {
    b.current == a.current && a.nextFile <= b.nextFile && Oldest(a) <= Oldest(b)
  }

  lemma JobStays(a: State, b: State, job: Job)
    requires JobOk(a, job) && Beside(a, b) && (job.step.DoFlush? ==> b.imm == a.imm)
    ensures JobOk(b, job)
  {
    hide Picked, NoSplitKey, CompactionOutputs, Installed, CompactionEdit, FlushEdit, RunFile, NumbersBelow,
      FlushLevelOk;
  }

  lemma {:induction false} AddOpsKeeps(st: State, ops: seq<Op>)
    requires st.lastSequence + |ops| <= MAX_SEQUENCE && |st.history| == st.lastSequence
    ensures var r := AddOps(st, ops);
      && r == st.(mem := r.mem, lastSequence := st.lastSequence + |ops|, history := r.history)
      && |r.history| == st.lastSequence + |ops| && st.history <= r.history
      && forall i :: 0 <= i < |ops| ==> r.history[st.lastSequence + i] == Some(ops[i])
  {
    if ops != [] {
      AddOpsKeeps(st, ops[..|ops| - 1]);
    }
  }

  lemma TablesReadGrows(a: State, b: State, flushed: Sequence, switched: Sequence)
    requires TablesRead(a, flushed, switched) && b.current == a.current && b.imm == a.imm && a.history <= b.history
    ensures TablesRead(b, flushed, switched)
  {
    ReadsUpToGrows(Entries(a.current), a.history, b.history, flushed);
    ReadsUpToGrows(ImmEntries(a.imm) + Entries(a.current), a.history, b.history, switched);
  }

  lemma OldestBelowLast(st: State)
    requires DbInv(st)
    ensures Oldest(st) <= st.lastSequence && |st.history| == st.lastSequence
  {
  }

  lemma LogWriteOk(a: Node, b: Node, ops: seq<Op>)
    requires DurInv(a) && LogWrite(a, b, ops)
    ensures DurInv(b)
  {
    hide DbInv, TablesRead, Spelled, NumbersBelow, FilesOf, JobOk;
    OldestBelowLast(a.db);
    AddOpsOk(a.db, ops);
    AddOpsKeeps(a.db, ops);
    TablesReadGrows(a.db, b.db, a.flushed, a.switched);
    if a.job.Some? { JobStays(a.db, b.db, a.job.value); }
    WriteSpelled(a.db.history, b.db.history, a.switched, a.disk.logs[a.logfile], a.db.lastSequence, ops);
    if a.db.imm.Some? {
      SpelledGrows(a.db.history, b.db.history, a.flushed, a.disk.logs[a.logNumber], a.switched);
    }
  }

  lemma WriteSpelled(h: History, h': History, q: nat, recs: seq<Record>, last: nat, ops: seq<Op>)
    requires Spelled(h, q, recs, last) && h <= h' && |h'| == last + |ops|
    requires forall i :: 0 <= i < |ops| ==> h'[last + i] == Some(ops[i])
    ensures Spelled(h', q, recs + [Record(last + 1, ops)], last + |ops|)
  {
    SpelledGrows(h, h', q, recs, last);
    assert (recs + [Record(last + 1, ops)])[..|recs|] == recs;
  }

  lemma LogWriteFailsOk(a: Node, b: Node, n: nat)
    requires DurInv(a) && LogWriteFails(a, b, n)
    ensures DurInv(b)
  {
    hide DbInv, TablesRead, Spelled, NumbersBelow, FilesOf, JobOk;
    OldestBelowLast(a.db);
    BurnOk(a.db, n);
    TablesReadGrows(a.db, b.db, a.flushed, a.switched);
    if a.job.Some? { JobStays(a.db, b.db, a.job.value); }
    SpelledGrows(a.db.history, b.db.history, a.switched, a.disk.logs[a.logfile], a.db.lastSequence);
    SpelledPad(b.db.history, a.switched, a.disk.logs[a.logfile], a.db.lastSequence, b.db.lastSequence);
    if a.db.imm.Some? {
      SpelledGrows(a.db.history, b.db.history, a.flushed, a.disk.logs[a.logNumber], a.switched);
    }
  }

  lemma SwitchReads(db: State)
    requires DbInv(db) && db.imm.None?
    ensures ReadsUpTo(ImmEntries(Some(db.mem)) + Entries(db.current), db.history, db.lastSequence)
  {
    assert ImmEntries(Some(db.mem)) + Entries(db.current) == All(db);
  }

  lemma NextFileMoves(db: State, n: nat)
    requires DbInv(db) && db.nextFile <= n
    ensures DbInv(db.(nextFile := n))
  {
    assert All(db.(nextFile := n)) == All(db);
  }

  lemma SwitchLogOk(a: Node, b: Node)
    requires DurInv(a) && SwitchLog(a, b)
    ensures DurInv(b)
  {
    hide DbInv, ReadsUpTo, NumbersBelow, FilesOf, JobOk;
    OldestBelowLast(a.db);
    SwitchReads(a.db);
    SwitchOk(a.db, a.db.(mem := [], imm := Some(a.db.mem)));
    NextFileMoves(a.db.(mem := [], imm := Some(a.db.mem)), a.db.nextFile + 1);
    if a.job.Some? {
      FlushHasImm(a.db, a.job.value);
      JobStays(a.db, b.db, a.job.value);
    }
  }

  lemma FlushHasImm(db: State, job: Job)
    requires JobOk(db, job)
    ensures job.step.DoFlush? ==> db.imm.Some?
  {
  }

  // ---------- jobs ----------

  lemma BuildOk(a: Node, b: Node, job: Job)
    requires DurInv(a) && BuildTables(a, b, job)
    ensures DurInv(b)
  {
    hide DbInv, TablesRead, Spelled, NumbersBelow, FilesOf, JobOk;
    NextFileMoves(a.db, b.db.nextFile);
    TablesReadGrows(a.db, b.db, a.flushed, a.switched);
  }

  lemma PersistOk(a: Node, b: Node)
    requires DurInv(a) && Persist(a, b)
    ensures DurInv(b)
  {
    hide DbInv, TablesRead, Spelled, NumbersBelow, FilesOf, Next, LogsSpell;
    var job := a.job.value;
    NextOk(a.db, AfterJob(a.db, job), job.step);
    NumbersStayBelow(AfterJob(a.db, job), a.db.nextFile);
  }

  /** A compaction or move leaves fewer entries that read alike for every reader. */
  lemma JobPreservesReads(a: State, b: State, step: Step)
    requires DbInv(a) && Next(a, b, step) && (step.DoCompact? || step.DoMove?)
    ensures Entries(b.current) <= Entries(a.current) &&
      ReadsPreserved(Entries(a.current), Entries(b.current), Oldest(a))
    ensures Inv(b.current)
  {
    hide NoSplitKey, Installed, CompactionEdit, ReadAt;
    NextOk(a, b, step);
    var v, v' := a.current, b.current;
    match step
    case DoCompact(level, in0, in1, oldest, outs) =>
      var _, _ := PickedLocated(v, level, in0, in1);
      NumberedFits(v, level, in0, outs, b.nextFile);
      CompactionInstalled(v, level, in0, in1, outs);
      CompactionPreservesReads(v, level, in0, in1, oldest, outs, v');
      CompactionShrinks(v, level, in0, in1, oldest, outs, v');
    case DoMove(level, f) =>
      MoveReplaces(v, level, f, v');
  }

  lemma CompactionShrinks(
      v: Version, level: nat, in0: seq<File>, in1: seq<File>, oldest: Sequence, outs: seq<File>, v': Version)
    requires Located(v, level, in0, in1) && CompactionOutputs(v, level, in0, in1, oldest, outs)
    requires Replaced(v, level, in0, in1, outs, v')
    ensures Entries(v') <= Entries(v)
  {
    ShrinkingEntries(v, level, in0, in1, outs, v');
  }

  /** The tables a job leaves read the history up to the number the manifest then stands for. */
  lemma ReplacedTablesRead(a: State, b: State, step: Step, flushed: Sequence, switched: Sequence)
    requires DbInv(a) && Next(a, b, step) && (step.DoCompact? || step.DoMove?)
    requires b == a.(current := b.current, nextFile := b.nextFile)
    requires TablesRead(a, flushed, switched)
    ensures TablesRead(b, flushed, switched)
  {
    hide DbInv, Next, ReadAt, Inv;
    JobPreservesReads(a, b, step);
    LayerFacts(a);
    var es, es', imm := Entries(a.current), Entries(b.current), ImmEntries(a.imm);
    ReadsUpToReplaced(es, es', a.history, flushed, Oldest(a));
    forall k, s: Sequence | s >= Oldest(a) ensures ReadAt(imm + es', k, s) == ReadAt(imm + es, k, s) {
      BelowReadsAlike(imm, es, es', k, s);
    }
    ReadsUpToReplaced(imm + es, imm + es', a.history, switched, Oldest(a));
  }

  lemma LayerFacts(st: State)
    requires DbInv(st)
    ensures NewerThan(ImmEntries(st.imm), Entries(st.current)) && Unique(ImmEntries(st.imm)) &&
      Unique(Entries(st.current))
    ensures Unique(ImmEntries(st.imm) + Entries(st.current))
  {
    assert ImmEntries(st.imm) + Entries(st.current) <= All(st);
    LayersUnique(st);
  }

  lemma FlushedTablesRead(a: State, b: State, step: Step, flushed: Sequence, switched: Sequence)
    requires DbInv(a) && Next(a, b, step) && step.DoFlush? && TablesRead(a, flushed, switched)
    ensures TablesRead(b, switched, switched)
  {
    hide DbInv, Installed, FlushEdit, RunFile, ReadAt, FlushLevelOk, NumbersBelow;
    if a.imm.value != [] {
      FlushNonempty(a, b, step.level, step.size, step.number);
    }
    assert Entries(b.current) == ImmEntries(a.imm) + Entries(a.current);
    assert ImmEntries(b.imm) + Entries(b.current) == Entries(b.current);
  }

  lemma InstallOk(a: Node, b: Node)
    requires DurInv(a) && InstallJob(a, b)
    ensures DurInv(b)
  {
    hide DbInv, TablesRead, Spelled, NumbersBelow, FilesOf, Next;
    var job := a.job.value;
    NextOk(a.db, b.db, job.step);
    FlushHasImm(a.db, job);
    if job.step.DoFlush? {
      FlushedTablesRead(a.db, b.db, job.step, a.flushed, a.switched);
    } else {
      ReplacedTablesRead(a.db, b.db, job.step, a.flushed, a.switched);
    }
  }

  lemma DeleteOk(a: Node, b: Node, live: set<nat>)
    requires DurInv(a) && DeleteObsolete(a, b, live)
    ensures DurInv(b)
  {
    hide DbInv, TablesRead, Spelled, NumbersBelow, FilesOf;
  }

  /** What is deleted is nothing that the recovery from the manifest would need: its tables stay, and the logs
      it would replay stay as they are. */
  lemma DeletionKeepsWhatRecoveryNeeds(a: Node, b: Node, live: set<nat>, top: nat)
    requires DurInv(a) && DeleteObsolete(a, b, live)
    ensures FilesOf(b.disk.manifest.version) <= b.disk.tables
    ensures ToReplay(b.disk, top) == ToReplay(a.disk, top)
  {
    hide DbInv, TablesRead, Spelled, NumbersBelow, FilesOf;
    CollectSame(a.disk.logs, b.disk.logs, a.logNumber, top);
  }

  lemma {:induction false} CollectSame(logs: Logs, logs': Logs, from: nat, top: nat)
    requires forall k :: k >= from ==> (k in logs <==> k in logs')
    requires forall k :: k >= from && k in logs ==> logs[k] == logs'[k]
    ensures Collect(logs, from, top) == Collect(logs', from, top)
  {
    if from < top { CollectSame(logs, logs', from, top - 1); }
  }

  lemma SnapshotOk(a: Node, b: Node)
    requires DurInv(a) && (NewSnapshot(a, b) || exists i :: DropSnapshot(a, b, i))
    ensures DurInv(b)
  {
    hide TablesRead, Spelled, NumbersBelow, FilesOf, JobOk, LayersInv, ReadAt, All;
    SnapshotDb(a, b);
    TablesReadGrows(a.db, b.db, a.flushed, a.switched);
    if a.job.Some? { JobStays(a.db, b.db, a.job.value); }
  }

  lemma SnapshotDb(a: Node, b: Node)
    requires DbInv(a.db) && (NewSnapshot(a, b) || exists i :: DropSnapshot(a, b, i))
    ensures DbInv(b.db) && b.db == a.db.(snapshots := b.db.snapshots) && Oldest(a.db) <= Oldest(b.db)
    ensures b == a.(db := b.db)
  {
    hide DbInv, LayersInv, ReadAt;
    OldestBelowLast(a.db);
    if NewSnapshot(a, b) {
      NextOk(a.db, b.db, DoTakeSnapshot);
    } else {
      var i :| DropSnapshot(a, b, i);
      ReleaseOk(a.db, b.db, i);
    }
  }

  // ---------- crashes ----------

  /** The tables of the persisted version are all there and read the history up to the number the manifest
      stands for. */
  lemma ManifestTables(a: Node)
    requires DurInv(a)
    ensures var m := a.disk.manifest;
      && Inv(m.version) && NumbersBelow(m.version, m.nextFile)
      && FilesOf(m.version) <= a.disk.tables
      && ReadsUpTo(Entries(m.version), a.db.history, ManifestFlushed(a))
  {
    hide DbInv, Spelled, NumbersBelow, FilesOf, Next, Inv, ReadsUpTo;
    CurrentInv(a.db);
    if Persisted(a) {
      var job := a.job.value;
      NextOk(a.db, AfterJob(a.db, job), job.step);
      CurrentInv(AfterJob(a.db, job));
      if job.step.DoFlush? {
        FlushedTablesRead(a.db, AfterJob(a.db, job), job.step, a.flushed, a.switched);
      } else {
        ReplacedTablesRead(a.db, AfterJob(a.db, job), job.step, a.flushed, a.switched);
      }
    }
  }

  lemma CurrentInv(st: State)
    requires DbInv(st)
    ensures Inv(st.current)
  {
  }

  /** After the crash the logs to replay spell the history from where the manifest's tables end. */
  lemma CutSpelled(a: Node, cut: nat, top: nat)
    requires DurInv(a) && cut <= |a.disk.logs[a.logfile]| && forall k :: k in a.disk.logs ==> k < top
    ensures var recs, q := ToReplay(CutTail(a, cut), top), ManifestFlushed(a);
      LastNumber(q, recs) >= 0 && Spelled(a.db.history, q, recs, LastNumber(q, recs))
  {
    hide DbInv, TablesRead, Spelled, NumbersBelow, FilesOf, Collect, LastNumber;
    var logs := CutTail(a, cut).logs;
    var h, tail := a.db.history, a.disk.logs[a.logfile][..cut];
    JobHasImm(a);
    SpelledPrefix(h, a.switched, a.disk.logs[a.logfile], a.db.lastSequence, cut);
    if FlushPersisted(a) || a.db.imm.None? {
      CollectOne(logs, a.logfile, top);
    } else {
      CollectTwo(logs, a.logNumber, a.logfile, top);
      var older := a.disk.logs[a.logNumber];
      SpelledConcat(h, a.flushed, older, a.switched, tail, LastNumber(a.switched, tail));
      assert (older + tail)[..|older + tail|] == older + tail;
      SpelledPrefix(h, a.flushed, older + tail, LastNumber(a.switched, tail), |older + tail|);
    }
  }

  lemma JobHasImm(a: Node)
    requires DurInv(a)
    ensures FlushPersisted(a) ==> a.db.imm.Some?
  {
    if a.job.Some? { FlushHasImm(a.db, a.job.value); }
  }

  lemma StartOk(a: Node)
    requires DurInv(a)
    ensures ManifestFlushed(a) <= |a.db.history|
    ensures RebuiltFrom(StartOf(a), a.db.history, {}, StartOf(a))
  {
    hide Inv, NumbersBelow, FilesOf, DurInv;
    ManifestTables(a);
    NumbersBelowMore(a.disk.manifest.version, a.disk.manifest.nextFile);
    TablesOnlyOk(a.disk.manifest.version, a.db.history, ManifestFlushed(a), a.disk.manifest.nextFile + 1);
  }

  lemma NumbersBelowMore(v: Version, n: nat)
    requires NumbersBelow(v, n)
    ensures NumbersBelow(v, n + 1)
  {
  }

  /** What recovery rebuilds before it gives the store a new log. */
  lemma RebuiltState(a: Node, b: Node, cut: nat, dumps: seq<Dump>, newLog: nat)
    requires DurInv(a) && Crash(a, b, cut, dumps, newLog)
    ensures var s := Rebuild(StartOf(a), dumps).value;
      && RebuiltFrom(StartOf(a), a.db.history, Numbers(dumps), s)
      && s.lastSequence == LastNumber(ManifestFlushed(a), ToReplay(CutTail(a, cut), newLog))
  {
    hide RebuiltFrom, Spelled, LastNumber, FilesOf, Rebuild, StartOf;
    LogsBelow(a, b, cut, dumps, newLog);
    SpelledFits(a, cut, newLog);
    StartOk(a);
    StartNumber(a);
    RebuildOk(StartOf(a), dumps, a.db.history, LastNumber(ManifestFlushed(a), ToReplay(CutTail(a, cut), newLog)));
  }

  lemma LogsBelow(a: Node, b: Node, cut: nat, dumps: seq<Dump>, newLog: nat)
    requires Crash(a, b, cut, dumps, newLog)
    ensures forall k :: k in a.disk.logs ==> k < newLog
  {
    forall k | k in a.disk.logs ensures k < newLog {
      assert k in CutTail(a, cut).logs;
    }
  }

  lemma StartNumber(a: Node)
    requires ManifestFlushed(a) <= |a.db.history|
    ensures StartOf(a).lastSequence == ManifestFlushed(a)
  {
  }

  lemma SpelledFits(a: Node, cut: nat, top: nat)
    requires DurInv(a) && cut <= |a.disk.logs[a.logfile]| && forall k :: k in a.disk.logs ==> k < top
    ensures var recs, q := ToReplay(CutTail(a, cut), top), ManifestFlushed(a);
      q <= LastNumber(q, recs) <= a.db.lastSequence && Spelled(a.db.history, q, recs, LastNumber(q, recs))
  {
    hide LogsSpell, TablesRead, Spelled, NumbersBelow, FilesOf, LastNumber, ToReplay;
    CutSpelled(a, cut, top);
    OldestBelowLast(a.db);
    var recs, q := ToReplay(CutTail(a, cut), top), ManifestFlushed(a);
    SpelledBounds(a.db.history, q, recs, LastNumber(q, recs));
  }

  lemma EmptyMemtables(st: State)
    requires DbInv(st) && st.mem == [] && st.imm == None
    ensures TablesRead(st, st.lastSequence, st.lastSequence)
  {
    assert Entries(st.current) == All(st);
    assert ImmEntries(None) + Entries(st.current) == All(st);
  }

  lemma CrashOk(a: Node, b: Node, cut: nat, dumps: seq<Dump>, newLog: nat)
    requires DurInv(a) && Crash(a, b, cut, dumps, newLog)
    ensures DurInv(b)
  {
    hide DbInv, TablesRead, FilesOf, Rebuild, StartOf, ToReplay;
    RebuiltState(a, b, cut, dumps, newLog);
    var s := Rebuild(StartOf(a), dumps).value;
    BurnOk(s, b.db.lastSequence - s.lastSequence);
    NextFileMoves(BurnNumbers(s, b.db.lastSequence - s.lastSequence), newLog + 1);
    EmptyMemtables(b.db);
    HistoryLength(b.db);
    StateNumbers(b.db);
    ManifestTables(a);
    assert Spelled(b.db.history, b.db.lastSequence, [], b.db.lastSequence);
  }

  lemma StateNumbers(st: State)
    requires DbInv(st)
    ensures NumbersBelow(st.current, st.nextFile)
  {
  }

  /** After a crash the store holds the history up to the last record still completely in a log, and nothing after it:
      every record that was not cut off is there, none is reordered or invented. */
  lemma CrashLosesOnlyTheTail(a: Node, b: Node, cut: nat, dumps: seq<Dump>, newLog: nat)
    requires DurInv(a) && Crash(a, b, cut, dumps, newLog)
    ensures var kept := LastNumber(ManifestFlushed(a), ToReplay(CutTail(a, cut), newLog));
      && 0 <= kept <= a.db.lastSequence && kept <= b.db.lastSequence
      && b.db.history == a.db.history[..kept] + seq(b.db.lastSequence - kept, _ => None)
      && (cut > 0 ==> var r := a.disk.logs[a.logfile][cut - 1]; r.first - 1 + |r.ops| == kept)
      && (cut == |a.disk.logs[a.logfile]| ==> AllNone(a.db.history, kept, a.db.lastSequence))
      && forall k :: ReadAt(All(b.db), k, b.db.lastSequence) == Lookup(a.db.history, kept, k)
  {
    hide DbInv, FilesOf, Rebuild, StartOf, ReadAt, Spelled, TablesRead;
    RebuiltState(a, b, cut, dumps, newLog);
    LogsBelow(a, b, cut, dumps, newLog);
    SpelledFits(a, cut, newLog);
    var kept := LastNumber(ManifestFlushed(a), ToReplay(CutTail(a, cut), newLog));
    CrashOk(a, b, cut, dumps, newLog);
    CutEnd(a, cut, newLog);
    ReadsKept(a.db.history, kept, b.db);
  }

  /** A store whose history is a prefix of another, with lost numbers behind it, reads that prefix. */
  lemma ReadsKept(history: History, kept: nat, st: State)
    requires DbInv(st) && kept <= |history| && kept <= st.lastSequence
    requires st.history == history[..kept] + seq(st.lastSequence - kept, _ => None)
    ensures forall k :: ReadAt(All(st), k, st.lastSequence) == Lookup(history, kept, k)
  {
    hide DbInv, ReadAt;
    forall k ensures ReadAt(All(st), k, st.lastSequence) == Lookup(history, kept, k) {
      LatestRead(st, k);
      LookupBurnt(history[..kept], st.lastSequence - kept, st.lastSequence - kept, k);
      LookupPrefix(history[..kept], history, kept, k);
    }
  }

  lemma LatestRead(st: State, k: UserKey)
    requires DbInv(st)
    ensures |st.history| == st.lastSequence &&
      ReadAt(All(st), k, st.lastSequence) == Lookup(st.history, st.lastSequence, k)
  {
  }

  lemma CutEnd(a: Node, cut: nat, top: nat)
    requires DurInv(a) && cut <= |a.disk.logs[a.logfile]| && forall k :: k in a.disk.logs ==> k < top
    ensures var kept := LastNumber(ManifestFlushed(a), ToReplay(CutTail(a, cut), top));
      && (cut > 0 ==> var r := a.disk.logs[a.logfile][cut - 1]; r.first - 1 + |r.ops| == kept)
      && (cut == |a.disk.logs[a.logfile]| ==> kept >= 0 && AllNone(a.db.history, kept, a.db.lastSequence))
  {
    hide DbInv, TablesRead, NumbersBelow, FilesOf, Collect;
    var logs := CutTail(a, cut).logs;
    var whole := a.disk.logs[a.logfile];
    var tail := whole[..cut];
    JobHasImm(a);
    SpelledBounds(a.db.history, a.switched, whole, a.db.lastSequence);
    assert whole[..|whole|] == whole;
    if FlushPersisted(a) || a.db.imm.None? {
      CollectOne(logs, a.logfile, top);
    } else {
      CollectTwo(logs, a.logNumber, a.logfile, top);
      var older := a.disk.logs[a.logNumber];
      SpelledBounds(a.db.history, a.flushed, older, a.switched);
      LastNumberAppend(a.flushed, older, tail);
      if tail == [] {
        SpelledTail(a.db.history, a.flushed, older, a.switched);
      }
    }
  }

  /** The manifest never stands in the way: after any crash recovery finds its tables and can complete. */
  lemma RecoveryAlwaysSucceeds(a: Node, cut: nat) returns (b: Node, dumps: seq<Dump>, newLog: nat)
    requires DurInv(a) && cut <= |a.disk.logs[a.logfile]|
    ensures FilesOf(a.disk.manifest.version) <= CutTail(a, cut).tables
    ensures Crash(a, b, cut, dumps, newLog)
  {
    hide DurInv, FilesOf, StartOf, Rebuild, ToReplay, Replayable, DumpedRecords;
    ManifestTables(a);
    StartOk(a);
    ManifestNumbers(a);
    newLog := a.db.nextFile + 2;
    var disk, start := CutTail(a, cut), StartOf(a);
    SpelledFits(a, cut, newLog);
    StartNumber(a);
    StartNextFile(a);
    OneDump(a.db.history, start, ToReplay(disk, newLog), start.nextFile);
    dumps := [Dump(ToReplay(disk, newLog), start.nextFile, 0)];
    var s := Rebuild(start, dumps).value;
    var last: Sequence :=
      if s.lastSequence < disk.manifest.lastSequence then disk.manifest.lastSequence else s.lastSequence;
    b := Node(
      BurnNumbers(s, last - s.lastSequence).(nextFile := newLog + 1),
      Disk(disk.logs[newLog := []], disk.tables + (FilesOf(s.current) - FilesOf(disk.manifest.version)),
           Manifest(s.current, newLog, newLog + 1, last)),
      newLog, newLog, None, last, last);
  }

  lemma ManifestNumbers(a: Node)
    requires DurInv(a)
    ensures a.disk.manifest.nextFile <= a.db.nextFile && a.logfile in a.disk.logs
    ensures forall k :: k in a.disk.logs ==> k < a.db.nextFile
  {
  }

  /** All records in a single memtable. */
  lemma OneDump(h: History, start: State, recs: seq<Record>, number: nat)
    requires 0 <= LastNumber(start.lastSequence, recs) <= MAX_SEQUENCE && start.nextFile <= number
    requires Spelled(h, start.lastSequence, recs, LastNumber(start.lastSequence, recs))
    ensures DumpedRecords([Dump(recs, number, 0)]) == recs
    ensures var s := Rebuild(start, [Dump(recs, number, 0)]); s.Some? && s.value.nextFile == number + 1
  {
    hide Spelled, LastNumber, Replay, Installed, FlushEdit, RunFile;
    var dumps := [Dump(recs, number, 0)];
    assert dumps[..0] == [] && DumpedRecords(dumps[..0]) == [] && [] + recs == recs;
    SpelledReplayable(h, start.lastSequence, recs, LastNumber(start.lastSequence, recs));
    assert Rebuild(start, dumps[..0]) == Some(start);
  }

  lemma StartNextFile(a: Node)
    requires ManifestFlushed(a) <= |a.db.history|
    ensures StartOf(a).nextFile == a.disk.manifest.nextFile + 1
  {
  }

  // ---------- every run ----------

  /** Each step keeps the store recoverable. */
  lemma DurNextOk(a: Node, b: Node, step: DurStep)
    requires DurInv(a) && DurNext(a, b, step)
    ensures DurInv(b)
  {
    hide DurInv, Crash;
    match step
    case DoLogWrite(ops) => LogWriteOk(a, b, ops);
    case DoLogWriteFails(n) => LogWriteFailsOk(a, b, n);
    case DoSwitchLog => SwitchLogOk(a, b);
    case DoBuild(job) => BuildOk(a, b, job);
    case DoAbandon => AbandonOk(a, b);
    case DoPersist => PersistOk(a, b);
    case DoInstall => InstallOk(a, b);
    case DoDelete(live) => DeleteOk(a, b, live);
    case DoNewSnapshot => SnapshotOk(a, b);
    case DoDropSnapshot(i) => SnapshotOk(a, b);
    case DoCrash(cut, dumps, newLog) => CrashOk(a, b, cut, dumps, newLog);
  }

  lemma AbandonOk(a: Node, b: Node)
    requires DurInv(a) && Abandon(a, b)
    ensures DurInv(b)
  {
    hide DbInv, TablesRead, FilesOf, Spelled, NumbersBelow;
  }

  /** A freshly created store: an empty version in the manifest and an empty log. */
  ghost predicate DurInit(n: Node) {
    && n.db == State([], None, seq(NUM_LEVELS, _ => []), 0, 4, [], [])
    && n.disk == Disk(map[3 := []], {}, Manifest(seq(NUM_LEVELS, _ => []), 3, 4, 0))
    && n.logNumber == 3 && n.logfile == 3 && n.job == None && n.flushed == 0 && n.switched == 0
  }

  lemma DurInitOk(n: Node)
    requires DurInit(n)
    ensures DurInv(n)
  {
    hide DbInv, TablesRead;
    var empty := n.db.(nextFile := 2);
    InitOk(empty);
    NextFileMoves(empty, 4);
    EmptyMemtables(n.db);
    assert FilesOf(n.db.current) == {};
  }

  ghost predicate DurRun(nodes: seq<Node>, steps: seq<DurStep>) {
    && |nodes| == |steps| + 1
    && DurInit(nodes[0])
    && forall i :: 0 <= i < |steps| ==> DurNext(nodes[i], nodes[i + 1], steps[i])
  }

  /** In every state of every run, with crashes anywhere: recovery would find its tables and succeed, and what the
      persisted tables and the logs to replay hold is the history of writes up to the end of the logs. */
  lemma {:induction false} EveryRunIsDurable(nodes: seq<Node>, steps: seq<DurStep>, i: nat)
    requires DurRun(nodes, steps) && i < |nodes|
    ensures DurInv(nodes[i])
  {
    hide DurInv, DurNext, DurInit;
    if i == 0 {
      DurInitOk(nodes[0]);
    } else {
      EveryRunIsDurable(nodes, steps, i - 1);
      DurNextOk(nodes[i - 1], nodes[i], steps[i - 1]);
    }
  }
}
