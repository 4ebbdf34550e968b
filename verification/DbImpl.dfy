/** DBImpl: the fields its methods update, each method a step of the state machine
    (db/db_impl.cc lines 491-566, 688-744, 860-895, 1100-1174, 1345-1366). */
module DbImpl {
  import opened Basics
  import opened DbFormat
  import opened Versions
  import opened ReadPath
  import opened DropRules
  import opened CompactionLoop
  import opened Picking
  import opened Setup
  import opened Steps
  import opened Install
  import opened Grandparents
  import opened Outputs
  import opened Database
  import opened Builder
  import opened DbIterator

  /** No output reaches further into the level two below than the limit and one more file. */
  ghost predicate OutputsBounded(v: Version, level: nat, outs: seq<File>, max: nat) {
    level + 2 < NUM_LEVELS ==> forall f :: f in outs ==> BytesBounded(v[level + 2], f.smallest, f.largest, max)
  }

  /** The outputs are the merged inputs' kept entries, cut where the limits on bytes demand it and nowhere else. */
  ghost predicate OutputsCut(picks: Picks, maxGp: nat, maxFile: nat, fileSize: seq<Entry> -> nat, outs: seq<File>) {
    && (forall f :: f in outs ==> f.fileSize == fileSize(f.entries))
    && exists merged, stops :: CutOf(picks, maxGp, maxFile, fileSize, merged, stops, RunsOf(outs))
  }

  ghost predicate CutOf(picks: Picks, maxGp: nat, maxFile: nat, fileSize: seq<Entry> -> nat,
      merged: seq<Entry>, stops: seq<nat>, runs: seq<seq<Entry>>)
  {
    && Sorted(merged) && SetOf(merged) == InputEntries(picks.inputs0, picks.inputs1)
    && StopsRight(picks.grandparents, merged, maxGp, stops, |merged|)
    && CutRight(merged, stops, fileSize, maxFile, runs)
  }

  ghost function RunsOf(files: seq<File>): seq<seq<Entry>> {
    seq(|files|, i requires 0 <= i < |files| => files[i].entries)
  }

  /** WriteBatchInternal::InsertInto: the operations enter the memtable under consecutive sequence numbers. */
  method InsertInto(mem: seq<Entry>, last: Sequence, ops: seq<Op>) returns (table: seq<Entry>)
    requires last + |ops| <= MAX_SEQUENCE
    ensures table == Inserted(mem, last, ops)
  {
    table := mem;
    var sequence := last;
    for i := 0 to |ops|
      invariant sequence == last + i && table == Inserted(mem, last, ops[..i])
    {
      sequence := sequence + 1;
      table := InsertSorted(table, EntryOfOp(ops[i], sequence));
      assert ops[..i + 1][..i] == ops[..i];
    }
    assert ops[..|ops|] == ops;
  }

  function Inserted(mem: seq<Entry>, last: Sequence, ops: seq<Op>): seq<Entry>
    requires last + |ops| <= MAX_SEQUENCE
  {
    if ops == [] then mem
    else InsertSorted(Inserted(mem, last, ops[..|ops| - 1]), EntryOfOp(ops[|ops| - 1], last + |ops|))
  }

  function Recorded(ops: seq<Op>): History {
    if ops == [] then [] else Recorded(ops[..|ops| - 1]) + [Some(ops[|ops| - 1])]
  }

  lemma {:induction false} AddOpsParts(st: State, ops: seq<Op>)
    requires st.lastSequence + |ops| <= MAX_SEQUENCE
    ensures AddOps(st, ops) ==
      st.(mem := Inserted(st.mem, st.lastSequence, ops), lastSequence := st.lastSequence + |ops|,
      history := st.history + Recorded(ops))
  {
    if ops == [] {
      assert st.history + [] == st.history;
    } else {
      AddOpsParts(st, ops[..|ops| - 1]);
    }
  }

  class DBImpl {
    const options: Options
    var mem: seq<Entry>
    var imm: Option<seq<Entry>>
    var current: Version
    var lastSequence: Sequence
    var nextFileNumber: nat
    var snapshots: seq<Sequence>
    ghost var history: History

    ghost function Abs(): State
      reads this
    {
      State(mem, imm, current, lastSequence, nextFileNumber, snapshots, history)
    }

    ghost predicate Valid()
      reads this
    {
      DbInv(Abs())
    }

    constructor (o: Options)
      ensures Valid() && Init(Abs())
    {
      options := o;
      mem, imm, current := [], None, seq(NUM_LEVELS, _ => []);
      lastSequence, nextFileNumber, snapshots, history := 0, 2, [], [];
      new;
      InitOk(Abs());
    }

    /** DBImpl::Get at a live snapshot, or at the latest sequence number without one. */
    method Get(k: UserKey, snapshot: Option<Sequence>) returns (r: Option<Bytes>)
      requires Valid() && (snapshot.Some? ==> snapshot.value in snapshots)
      ensures r == Lookup(history, if snapshot.Some? then snapshot.value else lastSequence, k)
    {
      var s := lastSequence;
      if snapshot.Some? {
        s := snapshot.value;
      }
      r := ReadPath.Get(mem, imm, current, k, s);
    }

    /** DBImpl::NewIterator over all layers merged, at a live snapshot or at the latest sequence number. */
    method NewIterator(snapshot: Option<Sequence>) returns (it: DBIter)
      requires Valid() && (snapshot.Some? ==> snapshot.value in snapshots)
      ensures fresh(it) && it.Valid() && it.Abs() == Invalid
      ensures it.sequence == (if snapshot.Some? then snapshot.value else lastSequence)
      ensures ShowsHistory(it.TheView(), history, it.sequence)
    {
      var merged := NewInternalIterator();
      var s := if snapshot.Some? then snapshot.value else lastSequence;
      it := new DBIter(merged, s);
      ViewShowsHistory(Abs(), merged, s);
    }

    /** The memtables and every table, merged into one sorted run. */
    method NewInternalIterator() returns (merged: seq<Entry>)
      requires Valid()
      ensures Sorted(merged) && SetOf(merged) == All(Abs())
    {
      hide EntriesAbove, EntriesOf, Entries, DbInv, Unique, Sorted, AllEntriesOf;
      var all := mem + (if imm.Some? then imm.value else []);
      NoLevels(current);
      for level := 0 to NUM_LEVELS
        invariant SetOf(all) == SetOf(mem) + ImmEntries(imm) + EntriesAbove(current, level)
      {
        AllEntriesMembers(current[level]);
        NextLevelEntries(current, level);
        SetOfAppend(all, AllEntriesOf(current[level]));
        all := all + AllEntriesOf(current[level]);
      }
      StateFacts(Abs());
      merged := SortEntries(all);
      SortKeepsAll(all);
    }

    /** The batch of the leading writer, once its record is in the log (`logged`). */
    method Write(ops: seq<Op>, logged: bool)
      requires Valid() && lastSequence + |ops| <= MAX_SEQUENCE
      modifies this
      ensures Valid() && Database.Write(old(Abs()), Abs(), ops)
      ensures history == old(history) + (if logged then Recorded(ops) else seq(|ops|, _ => None))
    {
      ghost var a, b := Abs(), if logged then AddOps(Abs(), ops) else BurnNumbers(Abs(), |ops|);
      NextOk(a, b, DoWrite(ops));
      if logged {
        AddOpsParts(a, ops);
        mem := InsertInto(mem, lastSequence, ops);
        history := history + Recorded(ops);
      } else {
        history := history + seq(|ops|, _ => None);
      }
      lastSequence := lastSequence + |ops|;
      assert Abs() == b;
    }

    /** The switch in MakeRoomForWrite. */
    method SwitchToNewMemtable()
      requires Valid() && imm.None?
      modifies this
      ensures Valid() && SwitchMemtable(old(Abs()), Abs())
    {
      imm := Some(mem);
      mem := [];
      NextOk(old(Abs()), Abs(), DoSwitch);
    }

    /** CompactMemTable: writes the immutable memtable as a table at the level PickLevelForMemTableOutput chooses. */
    method CompactMemTable(fileSize: nat)
      requires Valid() && imm.Some?
      modifies this
      ensures Valid() && exists level ::
        && Flush(old(Abs()), Abs(), level, fileSize, old(nextFileNumber))
        && (old(imm.value) != [] ==>
             var run := old(imm.value);
             IsFlushLevel(old(current), run[0].ikey.user, run[|run| - 1].ikey.user,
               MaxGrandParentOverlapBytes(options), level))
    {
      var number := nextFileNumber;
      ghost var chosen := 0;
      if imm.value != [] {
        var f := RunFile(number, fileSize, imm.value);
        FileBounds(f, f.entries[0]);
        var level := PickLevelForMemTableOutput(current, f.smallest.user, f.largest.user,
          MaxGrandParentOverlapBytes(options));
        chosen := level;
        var v := InstallEdit(FlushEdit(level, f));
        current := v;
      }
      imm := None;
      nextFileNumber := number + 1;
      assert Flush(old(Abs()), Abs(), chosen, fileSize, number);
      NextOk(old(Abs()), Abs(), DoFlush(chosen, fileSize, number));
    }

    /** The version a builder makes of the current one and an edit (VersionSet::LogAndApply). */
    method InstallEdit(edit: VersionEdit) returns (v: Version)
      requires Valid() && ValidLevels(edit)
      ensures v == Installed(current, edit)
    {
      var builder := new VersionBuilder(current, map[]);
      builder.Apply(edit);
      v := builder.SaveTo();
    }

    method GetSnapshot() returns (s: Sequence)
      requires Valid()
      modifies this
      ensures Valid() && TakeSnapshot(old(Abs()), Abs()) && s == lastSequence && s in snapshots
    {
      snapshots := snapshots + [lastSequence];
      s := lastSequence;
      NextOk(old(Abs()), Abs(), DoTakeSnapshot);
    }

    method ReleaseSnapshot(i: nat)
      requires Valid() && i < |snapshots|
      modifies this
      ensures Valid() && Database.ReleaseSnapshot(old(Abs()), Abs(), i)
    {
      snapshots := snapshots[..i] + snapshots[i + 1..];
      NextOk(old(Abs()), Abs(), DoReleaseSnapshot(i));
    }

    /** BackgroundCompaction for a picked level: a trivial move or a full compaction.
        `fileSize` stands for the table builder. */
    method BackgroundCompaction(picks: Picks, level: nat, isManual: bool, fileSize: seq<Entry> -> nat)
      requires Valid() && Picked(current, level, picks.inputs0, picks.inputs1)
      requires NoSplitKey(current, level, picks.inputs1)
      requires GrandparentsOf(current, level, picks.inputs0, picks.inputs1, picks.grandparents)
      requires lastSequence < MAX_SEQUENCE
      modifies this
      ensures Valid() && history == old(history) && snapshots == old(snapshots)
      ensures var maxGp := MaxGrandParentOverlapBytes(options);
        if !isManual && |picks.inputs0| == 1 && picks.inputs1 == [] && TotalFileSize(picks.grandparents) <= maxGp then
          Next(old(Abs()), Abs(), DoMove(level, picks.inputs0[0]))
        else exists outs ::
          && Next(old(Abs()), Abs(), DoCompact(level, picks.inputs0, picks.inputs1, old(Oldest(Abs())), outs))
          && OutputsBounded(old(current), level, outs, maxGp)
          && OutputsCut(picks, maxGp, options.maxFileSize, fileSize, outs)
    {
      hide DbInv, Picked, Next, NoSplitKey, GrandparentsOf, OutputsBounded, OutputsCut, TotalFileSize;
      if !isManual && |picks.inputs0| == 1 && |picks.inputs1| == 0
         && TotalFileSize(picks.grandparents) <= MaxGrandParentOverlapBytes(options) {
        assert picks.inputs0 == [picks.inputs0[0]] && picks.inputs1 == [];
        MoveDown(level, picks.inputs0[0]);
      } else {
        var outs := CompactFiles(picks, level, fileSize);
      }
    }

    method MoveDown(level: nat, f: File)
      requires Valid() && Picked(current, level, [f], [])
      modifies this
      ensures Valid() && history == old(history) && snapshots == old(snapshots)
      ensures Next(old(Abs()), Abs(), DoMove(level, f))
    {
      var v := InstallEdit(CompactionEdit(level, [f], [], [f]));
      ghost var b := Abs().(current := v);
      NextOk(Abs(), b, DoMove(level, f));
      current := v;
      assert Abs() == b;
    }

    method CompactFiles(picks: Picks, level: nat, fileSize: seq<Entry> -> nat) returns (outs: seq<File>)
      requires Valid() && Picked(current, level, picks.inputs0, picks.inputs1)
      requires NoSplitKey(current, level, picks.inputs1)
      requires GrandparentsOf(current, level, picks.inputs0, picks.inputs1, picks.grandparents)
      requires lastSequence < MAX_SEQUENCE
      modifies this
      ensures Valid() && history == old(history) && snapshots == old(snapshots)
      ensures Next(old(Abs()), Abs(), DoCompact(level, picks.inputs0, picks.inputs1, old(Oldest(Abs())), outs))
      ensures OutputsBounded(old(current), level, outs, MaxGrandParentOverlapBytes(options))
      ensures OutputsCut(picks, MaxGrandParentOverlapBytes(options), options.maxFileSize, fileSize, outs)
    {
      hide DbInv, Picked, CompactionOutputs, Next, Installed, CompactionEdit, NumberedFrom, NoSplitKey, GrandparentsOf,
        OutputsBounded, OutputsCut;
      ghost var a := Abs();
      StateFacts(a);
      var v;
      outs, v := CompactedVersion(picks, level, if snapshots == [] then lastSequence else snapshots[0], fileSize);
      ghost var b := CompactStep(a, level, picks.inputs0, picks.inputs1, outs);
      current := v;
      nextFileNumber := nextFileNumber + |outs|;
      assert Abs() == b;
    }

    /** The output tables and the version that holds them in place of the inputs. */
    method CompactedVersion(picks: Picks, level: nat, oldest: Sequence, fileSize: seq<Entry> -> nat)
        returns (outs: seq<File>, v: Version)
      requires Valid() && Picked(current, level, picks.inputs0, picks.inputs1) && oldest < MAX_SEQUENCE
      requires GrandparentsOf(current, level, picks.inputs0, picks.inputs1, picks.grandparents)
      ensures CompactionOutputs(current, level, picks.inputs0, picks.inputs1, oldest, outs)
      ensures NumberedFrom(outs, nextFileNumber)
      ensures OutputsBounded(current, level, outs, MaxGrandParentOverlapBytes(options))
      ensures OutputsCut(picks, MaxGrandParentOverlapBytes(options), options.maxFileSize, fileSize, outs)
      ensures level + 1 < NUM_LEVELS &&
        v == Installed(current, CompactionEdit(level, picks.inputs0, picks.inputs1, outs))
    {
      hide DbInv, CompactionOutputs, Installed, NumberedFrom, GrandparentsOf, OutputsBounded, OutputsCut, Detached,
        OverlapsHull,
        NoDuplicates;
      StateFacts(Abs());
      outs := RunCompaction(picks, level, oldest, fileSize);
      v := InstallEdit(CompactionEdit(level, picks.inputs0, picks.inputs1, outs));
    }

    /** Merges the inputs and writes the output tables. */
    method RunCompaction(picks: Picks, level: nat, oldest: Sequence, fileSize: seq<Entry> -> nat)
        returns (outs: seq<File>)
      requires DeepLevelsSorted(current) && Unique(Entries(current)) && oldest < MAX_SEQUENCE
      requires Picked(current, level, picks.inputs0, picks.inputs1)
      requires GrandparentsOf(current, level, picks.inputs0, picks.inputs1, picks.grandparents)
      ensures CompactionOutputs(current, level, picks.inputs0, picks.inputs1, oldest, outs)
      ensures NumberedFrom(outs, nextFileNumber)
      ensures OutputsBounded(current, level, outs, MaxGrandParentOverlapBytes(options))
      ensures OutputsCut(picks, MaxGrandParentOverlapBytes(options), options.maxFileSize, fileSize, outs)
    {
      hide DeepLevelsSorted, Picked, GrandparentsOf, StopsRight, CutRight, OutputsBounded, Unique;
      InputsUnique(current, level, picks.inputs0, picks.inputs1);
      GrandparentsDisjoint(current, level, picks.inputs0, picks.inputs1, picks.grandparents);
      var merged := MakeInputIterator(picks.inputs0, picks.inputs1);
      ghost var stops;
      var runs;
      runs, stops := MergeAndDrop(picks.grandparents, level, merged, oldest, fileSize);
      outs := WriteOutputs(runs, fileSize);
      assert RunsOf(outs) == runs;
      assert CutOf(picks, MaxGrandParentOverlapBytes(options), options.maxFileSize, fileSize, merged, stops, runs);
      OutputsHoldKept(merged, runs, outs, Kept(SetOf(merged), oldest, BaseLevelOf(current, level)));
      OutputsReach(current, level, picks, outs, runs, MaxGrandParentOverlapBytes(options));
    }

    method MergeAndDrop(
        grandparents: Level, level: nat, merged: seq<Entry>, oldest: Sequence, fileSize: seq<Entry> -> nat)
        returns (runs: seq<seq<Entry>>, ghost stops: seq<nat>)
      requires DeepLevelsSorted(current) && ValidFiles(grandparents) && Disjoint(grandparents)
      requires Sorted(merged) && Unique(SetOf(merged)) && oldest < MAX_SEQUENCE
      ensures Flatten(runs) == Filter(merged, Kept(SetOf(merged), oldest, BaseLevelOf(current, level)))
      ensures forall i :: 0 <= i < |runs| ==> RunBounded(grandparents, runs[i], MaxGrandParentOverlapBytes(options))
      ensures StopsRight(grandparents, merged, MaxGrandParentOverlapBytes(options), stops, |merged|)
      ensures CutRight(merged, stops, fileSize, options.maxFileSize, runs)
    {
      hide StopsRight, CutRight;
      var c := new Compaction(level, current, grandparents, MaxGrandParentOverlapBytes(options), options.maxFileSize);
      var compact := new CompactionState(c, fileSize);
      DoCompactionWork(compact, merged, oldest);
      runs, stops := compact.outputs, compact.stops;
    }

    method WriteOutputs(runs: seq<seq<Entry>>, fileSize: seq<Entry> -> nat) returns (outs: seq<File>)
      requires forall i :: 0 <= i < |runs| ==> |runs[i]| > 0
      ensures FilesOfRuns(outs, runs) && NumberedFrom(outs, nextFileNumber)
      ensures forall i :: 0 <= i < |outs| ==> outs[i].fileSize == fileSize(runs[i])
    {
      outs := [];
      for i := 0 to |runs|
        invariant |outs| == i && NumberedFrom(outs, nextFileNumber)
        invariant forall j :: 0 <= j < i ==> outs[j] == RunFile(outs[j].number, fileSize(runs[j]), runs[j])
      {
        outs := outs + [RunFile(nextFileNumber + i, fileSize(runs[i]), runs[i])];
      }
    }
  }

  /** What the merge loop keeps of a run it has closed. */
  ghost predicate RunBounded(grandparents: Level, run: seq<Entry>, max: nat) {
    |run| > 0 && OverlapBounded(grandparents, run[0].ikey, run[|run| - 1].ikey, max)
  }

  lemma OutputsReach(v: Version, level: nat, picks: Picks, outs: seq<File>, runs: seq<seq<Entry>>, max: nat)
    requires DeepLevelsSorted(v) && Picked(v, level, picks.inputs0, picks.inputs1)
    requires GrandparentsOf(v, level, picks.inputs0, picks.inputs1, picks.grandparents)
    requires ValidFiles(outs) && EntriesOf(outs) <= InputEntries(picks.inputs0, picks.inputs1) &&
      FilesOfRuns(outs, runs)
    requires forall i :: 0 <= i < |runs| ==> RunBounded(picks.grandparents, runs[i], max)
    ensures OutputsBounded(v, level, outs, max)
  {
    hide BytesBounded, OverlapBounded, GrandparentsOf, Sorted;
    if level + 2 < NUM_LEVELS {
      var _, _ := PickedLocated(v, level, picks.inputs0, picks.inputs1);
      forall f | f in outs ensures BytesBounded(v[level + 2], f.smallest, f.largest, max) {
        var i :| 0 <= i < |outs| && outs[i] == f;
        assert RunBounded(picks.grandparents, runs[i], max);
        var first, last := runs[i][0], runs[i][|runs[i]| - 1];
        InLevel(outs, i, first);
        InLevel(outs, i, last);
        BoundReachesLevel(v, level, picks.inputs0, picks.inputs1, picks.grandparents, first, last, max);
      }
    }
  }

  lemma StateFacts(st: State)
    requires DbInv(st)
    ensures DeepLevelsSorted(st.current) && Unique(Entries(st.current)) && Oldest(st) <= st.lastSequence
    ensures Unique(All(st)) && NumbersBelow(st.current, st.nextFile)
  {
    LayersUnique(st);
  }

  /** A sorted list of exactly the keys present at number `n`, each with the value last written. */
  ghost predicate ShowsHistory(view: seq<Entry>, h: History, n: nat)
    requires n <= |h|
  {
    && (forall p, q :: 0 <= p < q < |view| ==> view[p].ikey.user < view[q].ikey.user)
    && (forall e :: e in view ==> Lookup(h, n, e.ikey.user) == Some(e.value))
    && (forall k :: Lookup(h, n, k).Some? ==> exists e :: e in view && e.ikey.user == k)
  }

  lemma ViewShowsHistory(st: State, merged: seq<Entry>, s: Sequence)
    requires DbInv(st) && Sorted(merged) && SetOf(merged) == All(st) && Oldest(st) <= s <= st.lastSequence
    ensures ShowsHistory(View(merged, s, |merged|), st.history, s)
  {
    hide LayersInv, Sorted, All, View, Unique;
    StateFacts(st);
    ViewIsSnapshot(merged, s);
  }

  ghost function EntriesAbove(v: Version, level: nat): set<Entry>
    requires level <= NUM_LEVELS
  {
    set l, e | 0 <= l < level && e in EntriesOf(v[l]) :: e
  }

  lemma NoLevels(v: Version)
    ensures EntriesAbove(v, 0) == {} && EntriesAbove(v, NUM_LEVELS) == Entries(v)
  {
  }

  lemma NextLevelEntries(v: Version, level: nat)
    requires level < NUM_LEVELS
    ensures EntriesAbove(v, level + 1) == EntriesAbove(v, level) + EntriesOf(v[level])
  {
  }

  /** New files are numbered upwards from the allocation counter. */
  ghost predicate NumberedFrom(files: seq<File>, n: nat) {
    forall i :: 0 <= i < |files| ==> files[i].number == n + i
  }

  lemma NumberedIsFresh(v: Version, files: seq<File>, n: nat)
    requires NumbersBelow(v, n) && NumberedFrom(files, n)
    ensures FreshFiles(v, files, n + |files|)
  {
  }

  lemma CompactStep(a: State, level: nat, in0: seq<File>, in1: seq<File>, outs: seq<File>)
      returns (b: State)
    requires DbInv(a) && Picked(a.current, level, in0, in1) && NoSplitKey(a.current, level, in1)
    requires CompactionOutputs(a.current, level, in0, in1, Oldest(a), outs) && NumberedFrom(outs, a.nextFile)
    ensures b ==
      a.(current := Installed(a.current, CompactionEdit(level, in0, in1, outs)), nextFile := a.nextFile + |outs|)
    ensures Next(a, b, DoCompact(level, in0, in1, Oldest(a), outs)) && DbInv(b)
  {
    hide DbInv, NoSplitKey, CompactionOutputs, NumberedFrom, Installed, CompactionEdit, Detached, OverlapsHull,
      NoDuplicates;
    b := a.(current := Installed(a.current, CompactionEdit(level, in0, in1, outs)), nextFile := a.nextFile + |outs|);
    StateFacts(a);
    NumberedIsFresh(a.current, outs, a.nextFile);
    NextOk(a, b, DoCompact(level, in0, in1, Oldest(a), outs));
  }

  lemma OutputsHoldKept(merged: seq<Entry>, runs: seq<seq<Entry>>, outs: seq<File>, keep: set<Entry>)
    requires Sorted(merged) && keep <= SetOf(merged)
    requires Flatten(runs) == Filter(merged, keep) && FilesOfRuns(outs, runs)
    ensures ValidFiles(outs) && Disjoint(outs) && EntriesOf(outs) == keep
  {
    FilterProps(merged, keep);
    RunsAreFiles(outs, runs);
  }

  lemma InputsUnique(v: Version, level: nat, in0: seq<File>, in1: seq<File>)
    requires Unique(Entries(v)) && Picked(v, level, in0, in1)
    ensures Unique(InputEntries(in0, in1))
  {
    var _, _ := PickedLocated(v, level, in0, in1);
    EntriesSplit(v, level, in0, in1);
  }
}
