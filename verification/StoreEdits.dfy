/** The edits of a store's run replay exactly. Files get their numbers from a counter that only grows
    (db/version_set.h, NewFileNumber; db/db_impl.cc lines 491-533, 786-809), a number reserved for a table may be used
    any time later, and a trivial move gives a file's own number to the level below. So no level gets a number back,
    and recovery rebuilds the version (db/version_set.cc lines 886-1000). */
module StoreEdits {
  import opened DbFormat
  import opened Versions
  import opened Setup
  import opened Steps
  import opened Builder
  import opened Install
  import opened Outputs
  import opened Database
  import opened Manifest
  import opened ManifestReplay

  /** The store, the edits in its manifest that touch files, and the numbers handed out to tables being written. */
  datatype Store = Store(db: State, edits: seq<VersionEdit>, reserved: set<nat>)

  datatype StoreStep = Reserve | Do(step: Step)

  /** What a step writes to the manifest. */
  function EditsOf(db: State, step: Step): seq<VersionEdit> {
    match step
    case DoFlush(level, size, number) =>
      if db.imm.Some? && db.imm.value != [] && level < NUM_LEVELS
      then [FlushEdit(level, RunFile(number, size, db.imm.value))] else []
    case DoCompact(level, in0, in1, _, outs) =>
      if level + 1 < NUM_LEVELS then [CompactionEdit(level, in0, in1, outs)] else []
    case DoMove(level, f) => if level + 1 < NUM_LEVELS then [CompactionEdit(level, [f], [], [f])] else []
    case _ => []
  }

  function NumbersOf(files: seq<File>): set<nat> {
    set f | f in files :: f.number
  }

  /** The numbers a step gives to new tables. */
  function NumbersUsed(step: Step): set<nat> {
    match step
    case DoFlush(_, _, number) => {number}
    case DoCompact(_, _, _, _, outs) => NumbersOf(outs)
    case _ => {}
  }

  ghost predicate StoreNext(a: Store, b: Store, s: StoreStep) {
    match s
    case Reserve =>
      b == a.(db := a.db.(nextFile := a.db.nextFile + 1), reserved := a.reserved + {a.db.nextFile})
    case Do(step) =>
      && Next(a.db, b.db, step) && NumbersUsed(step) <= a.reserved
      && b.reserved == a.reserved - NumbersUsed(step)
      && b.edits == a.edits + EditsOf(a.db, step)
  }

  ghost predicate StoreInit(s: Store) {
    Init(s.db) && s.edits == [] && s.reserved == {}
  }

  ghost predicate StoreRun(stores: seq<Store>, steps: seq<StoreStep>) {
    && |stores| == |steps| + 1 && StoreInit(stores[0])
    && forall i :: 0 <= i < |steps| ==> StoreNext(stores[i], stores[i + 1], steps[i])
  }

  // ---------- the invariant ----------

  /** A number in use at a level was never given to a deeper one. */
  ghost predicate NumbersSink(v: Version, added: seq<(nat, File)>) {
    forall l, f, m, g :: (l, f) in added && 0 <= m < NUM_LEVELS && g in v[m] && g.number == f.number ==> l <= m
  }

  ghost predicate AddedAreUsed(added: seq<(nat, File)>, reserved: set<nat>, nextFile: nat) {
    forall l, f :: (l, f) in added ==> f.number < nextFile && f.number !in reserved
  }

  ghost predicate StoreInv(s: Store) {
    && DbInv(s.db)
    && AllLevelsValid(s.edits) && NeverReadded(EmptyVersion(), s.edits)
    && s.db.current == InstallAll(EmptyVersion(), s.edits)
    && AddedAreUsed(AddedBy(s.edits), s.reserved, s.db.nextFile)
    && (forall n :: n in s.reserved ==> n < s.db.nextFile)
    && NumbersSink(s.db.current, AddedBy(s.edits))
  }

  // ---------- one edit ----------

  /** A new file of an edit has a reserved number, or comes down from a level that loses it. */
  ghost predicate ComesFrom(s: Store, e: VersionEdit, l: nat, f: File) {
    || f.number in s.reserved
    || exists k: nat :: k < l && k < NUM_LEVELS && f in s.db.current[k] && (k, f.number) in e.deletedFiles
  }

  ghost predicate GoodEdit(s: Store, e: VersionEdit, l: nat) {
    && ValidLevels(e) && l < NUM_LEVELS && NewNumbersDistinct(e.newFiles)
    && forall m, f :: (m, f) in e.newFiles ==> m == l && ComesFrom(s, e, l, f)
  }

  lemma CurrentWasAdded(s: Store, m: nat, g: File)
    requires StoreInv(s) && m < NUM_LEVELS && g in s.db.current[m]
    ensures (m, g) in AddedBy(s.edits)
  {
    hide DbInv, NeverReadded, InstallAll, FinallyLive, NumbersSink;
    NeverReaddedKeepsFiles(s.edits);
    InstalledAreLive(s.edits, m);
    LiveWasAdded(s.edits, m, g);
  }

  /** The new files of an edit have numbers their level never had. */
  lemma EditIsNew(s: Store, e: VersionEdit, l: nat, f: File, h: File)
    requires StoreInv(s) && GoodEdit(s, e, l) && (l, f) in e.newFiles && (l, h) in AddedBy(s.edits)
    ensures f.number != h.number
  {
    hide DbInv, NeverReadded, InstallAll;
    assert ComesFrom(s, e, l, f);
  }

  lemma AddEdit(s: Store, e: VersionEdit, l: nat)
    requires StoreInv(s) && GoodEdit(s, e, l)
    ensures AllLevelsValid(s.edits + [e]) && NeverReadded(EmptyVersion(), s.edits + [e])
    ensures InstallAll(EmptyVersion(), s.edits + [e]) == Installed(s.db.current, e)
    ensures AddedBy(s.edits + [e]) == AddedBy(s.edits) + e.newFiles
  {
    hide DbInv, ComesFrom, Installed, NumbersSink, AddedAreUsed, NewNumbersDistinct;
    var edits := s.edits + [e];
    assert edits[..|s.edits|] == s.edits;
    forall m, f, h | (m, f) in e.newFiles && (m, h) in AddedBy(s.edits) ensures f.number != h.number {
      EditIsNew(s, e, l, f, h);
    }
    DistinctJoined(AddedBy(s.edits), e.newFiles);
  }

  lemma DistinctJoined(a: seq<(nat, File)>, b: seq<(nat, File)>)
    requires NewNumbersDistinct(a) && NewNumbersDistinct(b)
    requires forall m, f, h :: (m, f) in b && (m, h) in a ==> f.number != h.number
    ensures NewNumbersDistinct(a + b)
  {
    var all := a + b;
    forall i, j | 0 <= i < j < |all| && all[i].0 == all[j].0 ensures all[i].1.number != all[j].1.number {
      if i < |a| && j >= |a| {
        assert (all[i].0, all[i].1) in a && (all[j].0, all[j].1) in b;
      }
    }
  }

  /** After the edit, too, no number in use was ever given to a deeper level. */
  lemma EditSinks(s: Store, e: VersionEdit, l: nat, v: Version)
    requires StoreInv(s) && GoodEdit(s, e, l)
    requires forall m, g :: 0 <= m < NUM_LEVELS && g in v[m] ==>
      (g in s.db.current[m] && (m, g.number) !in e.deletedFiles) || (m, g) in e.newFiles
    ensures NumbersSink(v, AddedBy(s.edits) + e.newFiles)
  {
    hide DbInv, NeverReadded, InstallAll, NewNumbersDistinct;
    forall k, f, m, g
      | (k, f) in AddedBy(s.edits) + e.newFiles && 0 <= m < NUM_LEVELS && g in v[m] && g.number == f.number
      ensures k <= m
    {
      if (k, f) in e.newFiles && (m, g) !in e.newFiles {
        CurrentWasAdded(s, m, g);
        NotBothLive(s, e, l, f, m, g);
      }
    }
  }

  /** A file that stays has no new file's number. */
  lemma NotBothLive(s: Store, e: VersionEdit, l: nat, f: File, m: nat, g: File)
    requires StoreInv(s) && GoodEdit(s, e, l) && (l, f) in e.newFiles && m < NUM_LEVELS
    requires g in s.db.current[m] && (m, g.number) !in e.deletedFiles && (m, g) in AddedBy(s.edits)
    ensures g.number != f.number
  {
    hide NeverReadded, InstallAll, NewNumbersDistinct, NumbersSink, ReadsHistory, SnapshotsOk;
    assert ComesFrom(s, e, l, f);
    assert DistinctNumbers(s.db.current) by { CurrentDistinct(s.db); }
  }

  lemma CurrentDistinct(db: State)
    requires DbInv(db)
    ensures DistinctNumbers(db.current) && LevelsOrdered(db.current) && NumbersBelow(db.current, db.nextFile)
  {
  }

  lemma EditOk(a: Store, b: Store, e: VersionEdit, l: nat, used: set<nat>)
    requires StoreInv(a) && GoodEdit(a, e, l) && DbInv(b.db) && a.db.nextFile <= b.db.nextFile
    requires b.edits == a.edits + [e] && b.reserved == a.reserved - used
    requires forall m, f :: (m, f) in e.newFiles && f.number in a.reserved ==> f.number in used
    requires b.db.current == Installed(a.db.current, e)
    ensures StoreInv(b)
  {
    hide DbInv, NeverReadded, InstallAll, Installed, NewNumbersDistinct, NumbersSink;
    AddEdit(a, e, l);
    CurrentDistinct(a.db);
    EditIsFreshHere(a, e, l);
    InstalledMembers(a.db.current, e);
    EditSinks(a, e, l, b.db.current);
    forall m, f | (m, f) in e.newFiles ensures f.number < b.db.nextFile && f.number !in b.reserved {
      NewNumberUsed(a, e, l, f);
    }
  }

  lemma EditIsFreshHere(a: Store, e: VersionEdit, l: nat)
    requires StoreInv(a) && GoodEdit(a, e, l)
    ensures ValidLevels(e) && FreshNumbers(a.db.current, e)
  {
    hide DbInv, NeverReadded, InstallAll, NewNumbersDistinct, NumbersSink, AddedAreUsed;
    forall i, g | 0 <= i < |e.newFiles| && g in a.db.current[e.newFiles[i].0]
      ensures g.number != e.newFiles[i].1.number
    {
      assert (e.newFiles[i].0, e.newFiles[i].1) in e.newFiles;
      CurrentWasAdded(a, l, g);
      EditIsNew(a, e, l, e.newFiles[i].1, g);
    }
  }

  lemma NewNumberUsed(a: Store, e: VersionEdit, l: nat, f: File)
    requires StoreInv(a) && GoodEdit(a, e, l) && (l, f) in e.newFiles
    ensures f.number < a.db.nextFile
  {
    hide DbInv, NeverReadded, InstallAll, NewNumbersDistinct, NumbersSink;
    assert ComesFrom(a, e, l, f);
    CurrentDistinct(a.db);
  }

  // ---------- the steps ----------

  lemma ReserveOk(a: Store, b: Store)
    requires StoreInv(a) && StoreNext(a, b, Reserve)
    ensures StoreInv(b)
  {
    hide NeverReadded, InstallAll, ReadsHistory;
    assert All(b.db) == All(a.db) && Oldest(b.db) == Oldest(a.db);
    assert ReadsHistory(b.db) by { SameReads(a.db, b.db); }
  }

  lemma SameReads(a: State, b: State)
    requires |a.history| == a.lastSequence && ReadsHistory(a) && b == a.(nextFile := b.nextFile)
    ensures ReadsHistory(b)
  {
  }

  lemma FlushEditOk(a: Store, b: Store, level: nat, size: nat, number: nat)
    requires StoreInv(a) && StoreNext(a, b, Do(DoFlush(level, size, number)))
    ensures StoreInv(b)
  {
    hide NeverReadded, InstallAll, Installed, FlushLevelOk, StoreInv, DbInv;
    assert DbInv(b.db) by { DbStep(a, b, DoFlush(level, size, number)); }
    if a.db.imm.value == [] {
      NoEditOk(a, b);
    } else {
      assert level < NUM_LEVELS by { FlushedLevel(a.db.current, level, RunFile(number, size, a.db.imm.value)); }
      var f := RunFile(number, size, a.db.imm.value);
      var e := FlushEdit(level, f);
      assert e.newFiles == [(level, f)];
      OneNewFile(level, f);
      assert ComesFrom(a, e, level, f);
      EditOk(a, b, e, level, {number});
    }
  }

  lemma FlushedLevel(v: Version, level: nat, f: File)
    requires FlushLevelOk(v, level, f)
    ensures level < NUM_LEVELS
  {
  }

  lemma DbStep(a: Store, b: Store, step: Step)
    requires StoreInv(a) && Next(a.db, b.db, step)
    ensures DbInv(b.db) && a.db.nextFile <= b.db.nextFile
  {
    hide DbInv, NeverReadded, InstallAll, AddedAreUsed, NumbersSink;
    NextOk(a.db, b.db, step);
    assert a.db.nextFile <= b.db.nextFile by { NextFileGrows(a.db, b.db, step); }
  }

  lemma NextFileGrows(a: State, b: State, step: Step)
    requires Next(a, b, step)
    ensures a.nextFile <= b.nextFile
  {
    hide Picked, NoSplitKey, CompactionOutputs, Installed, FreshFiles, AddOps;
    match step
    case DoWrite(ops) => AddOpsKeepFiles(a, ops);
    case _ =>
  }

  lemma {:induction false} AddOpsKeepFiles(a: State, ops: seq<Op>)
    requires a.lastSequence + |ops| <= MAX_SEQUENCE
    ensures AddOps(a, ops).nextFile == a.nextFile && AddOps(a, ops).current == a.current
  {
    if ops != [] { AddOpsKeepFiles(a, ops[..|ops| - 1]); }
  }

  /** A step that adds no file. */
  lemma NoEditOk(a: Store, b: Store)
    requires StoreInv(a) && DbInv(b.db) && b.edits == a.edits && b.reserved <= a.reserved
    requires b.db.current == a.db.current && a.db.nextFile <= b.db.nextFile
    ensures StoreInv(b)
  {
    hide DbInv, NeverReadded, InstallAll;
  }

  lemma CompactEditOk(a: Store, b: Store, level: nat, in0: seq<File>, in1: seq<File>, oldest: Sequence, outs: seq<File>)
    requires StoreInv(a) && StoreNext(a, b, Do(DoCompact(level, in0, in1, oldest, outs)))
    ensures StoreInv(b)
  {
    hide NeverReadded, InstallAll, Installed, StoreInv, DbInv, NoSplitKey, CompactionOutputs, Detached, OverlapsHull;
    DbStep(a, b, DoCompact(level, in0, in1, oldest, outs));
    var e, l := CompactionEdit(level, in0, in1, outs), level + 1;
    forall m, f | (m, f) in e.newFiles ensures m == l && f.number in NumbersOf(outs) && ComesFrom(a, e, l, f) {
      assert e.newFiles == AtLevel(l, outs);
    }
    EditOk(a, b, e, l, NumbersOf(outs));
  }

  lemma MoveEditOk(a: Store, b: Store, level: nat, f: File)
    requires StoreInv(a) && StoreNext(a, b, Do(DoMove(level, f)))
    ensures StoreInv(b)
  {
    hide NeverReadded, InstallAll, Installed, StoreInv, DbInv, Detached, OverlapsHull;
    DbStep(a, b, DoMove(level, f));
    var e := CompactionEdit(level, [f], [], [f]);
    assert f in [f];
    assert f in a.db.current[level] && (level, f.number) in e.deletedFiles;
    assert e.newFiles == [(level + 1, f)];
    OneNewFile(level + 1, f);
    assert ComesFrom(a, e, level + 1, f);
    MovedNumber(a, level, f);
    EditOk(a, b, e, level + 1, {});
  }

  lemma MovedNumber(a: Store, level: nat, f: File)
    requires StoreInv(a) && level < NUM_LEVELS && f in a.db.current[level]
    ensures f.number !in a.reserved
  {
    hide DbInv, NeverReadded, InstallAll, NumbersSink;
    CurrentWasAdded(a, level, f);
  }

  lemma StoreNextOk(a: Store, b: Store, s: StoreStep)
    requires StoreInv(a) && StoreNext(a, b, s)
    ensures StoreInv(b)
  {
    hide StoreInv, Picked, CompactionOutputs, NoSplitKey, FlushLevelOk;
    match s
    case Reserve => ReserveOk(a, b);
    case Do(DoFlush(level, size, number)) => FlushEditOk(a, b, level, size, number);
    case Do(DoCompact(level, in0, in1, oldest, outs)) => CompactEditOk(a, b, level, in0, in1, oldest, outs);
    case Do(DoMove(level, f)) => MoveEditOk(a, b, level, f);
    case Do(DoWrite(ops)) =>
      DbStep(a, b, DoWrite(ops));
      AddOpsKeepFiles(a.db, ops);
      NoEditOk(a, b);
    case Do(step) =>
      DbStep(a, b, step);
      NoEditOk(a, b);
  }

  lemma StoreInitOk(s: Store)
    requires StoreInit(s)
    ensures StoreInv(s)
  {
    InitOk(s.db);
    assert AddedBy([]) == [];
  }

  /** Along every run no level gets a number back, whatever was in flight meanwhile, and replaying the edits with one
      builder gives the current version. */
  lemma {:induction false} EveryRunReplays(stores: seq<Store>, steps: seq<StoreStep>, n: nat)
    requires StoreRun(stores, steps) && n < |stores|
    ensures StoreInv(stores[n])
    ensures NeverReadded(EmptyVersion(), stores[n].edits)
    ensures Save(EmptyVersion(), ApplyAll(EmptyState(), stores[n].edits)) == stores[n].db.current
  {
    hide StoreNext, DbInv, NeverReadded, Save, ApplyAll, InstallAll, AddedAreUsed, NumbersSink;
    if n == 0 {
      StoreInitOk(stores[0]);
    } else {
      EveryRunReplays(stores, steps, n - 1);
      StoreNextOk(stores[n - 1], stores[n], steps[n - 1]);
    }
    EmptyIsOrdered();
    ManifestReplayExact(EmptyVersion(), stores[n].edits);
  }
}
