/** Why a compaction needs the split-key hypothesis: a version that satisfies every invariant, inputs that the selection
    may return, and a deleted key that comes back (db/version_set.cc lines 1410, 1533-1552). */
module SplitKey {
  import opened Basics
  import opened DbFormat
  import opened Versions
  import opened DropRules
  import opened CompactionLoop
  import opened Picking
  import opened Setup
  import opened Steps
  import opened Install

  function Stored(key: UserKey, seqno: Sequence, kind: Kind): Entry {
    Entry(IKey(key, seqno, kind), [])
  }

  function TableOf(number: nat, es: seq<Entry>): File
    requires es != []
  {
    File(number, 1, es[0].ikey, es[|es| - 1].ikey, es)
  }

  const NEWEST := Stored(1.0, 10, Value)
  const OLDEST := Stored(1.0, 3, Value)
  const TOMBSTONE := Stored(2.0, 8, Deletion)
  const DELETED := Stored(2.0, 5, Value)

  /** One file at level 1; at level 2 the versions of key 2.0 straddle two files. */
  const UPPER := TableOf(7, [NEWEST])
  const LOWER := TableOf(5, [OLDEST, TOMBSTONE])
  const BEYOND := TableOf(6, [DELETED])

  ghost predicate IsSplit(v: Version) {
    && v[1] == [UPPER] && v[2] == [LOWER, BEYOND]
    && forall l :: 0 <= l < NUM_LEVELS && l != 1 && l != 2 ==> v[l] == []
  }

  lemma SplitEntries(v: Version)
    requires IsSplit(v)
    ensures EntriesOf(v[1]) == {NEWEST} && EntriesOf(v[2]) == {OLDEST, TOMBSTONE, DELETED}
    ensures forall l :: 0 <= l < NUM_LEVELS && l != 1 && l != 2 ==> EntriesOf(v[l]) == {}
    ensures Entries(v) == {NEWEST, OLDEST, TOMBSTONE, DELETED}
  {
    EntriesOfOne(UPPER, NEWEST);
    assert LOWER in v[2] && BEYOND in v[2];
    assert OLDEST in LOWER.entries && TOMBSTONE in LOWER.entries && DELETED in BEYOND.entries;
    forall e | e in EntriesOf(v[2]) ensures e in {OLDEST, TOMBSTONE, DELETED} {
      var f := FileWith(v[2], e);
    }
    assert NEWEST in EntriesOf(v[1]) && TOMBSTONE in EntriesOf(v[2]);
  }

  lemma EntriesOfOne(f: File, e: Entry)
    requires f.entries == [e]
    ensures EntriesOf([f]) == {e}
  {
    assert f in [f] && e in f.entries;
  }

  lemma SplitLevelsSorted(v: Version)
    requires IsSplit(v)
    ensures DeepLevelsSorted(v) && LevelsOrdered(v)
  {
    assert ValidFile(UPPER) && ValidFile(LOWER) && ValidFile(BEYOND);
    assert Less(LOWER.largest, BEYOND.smallest) && KeyLess(LOWER, BEYOND);
    forall l | 0 <= l < NUM_LEVELS ensures ValidFiles(v[l]) && Disjoint(v[l]) && StrictlyOrdered(v[l]) {
      if l == 1 { assert v[l] == [UPPER]; }
      if l == 2 { assert v[l] == [LOWER, BEYOND]; }
    }
  }

  lemma SplitDataOrdered(v: Version)
    requires IsSplit(v)
    ensures LevelsNewer(v) && Unique(Entries(v)) && NewestFirst(v[0]) && DistinctNumbers(v)
  {
    hide LevelsNewer, NewestFirst, DistinctNumbers, EntriesOf, Entries, IsSplit;
    SplitEntries(v);
    SplitNewer(v);
    SplitNumbers(v);
    assert Unique({NEWEST, OLDEST, TOMBSTONE, DELETED});
  }

  lemma SplitNewer(v: Version)
    requires EntriesOf(v[1]) == {NEWEST} && EntriesOf(v[2]) == {OLDEST, TOMBSTONE, DELETED}
    requires forall l :: 0 <= l < NUM_LEVELS && l != 1 && l != 2 ==> EntriesOf(v[l]) == {}
    ensures LevelsNewer(v)
  {
    hide EntriesOf;
    forall l, m | 0 <= l < m < NUM_LEVELS ensures NewerThan(EntriesOf(v[l]), EntriesOf(v[m])) {
      if l == 1 && m == 2 { assert NewerThan({NEWEST}, {OLDEST, TOMBSTONE, DELETED}); }
    }
  }

  lemma SplitNumbers(v: Version)
    requires IsSplit(v)
    ensures NewestFirst(v[0]) && DistinctNumbers(v)
  {
    forall l, m, f, g | 0 <= l < NUM_LEVELS && 0 <= m < NUM_LEVELS && f in v[l] && g in v[m] && f.number == g.number
      ensures l == m && f == g
    {
      assert (l == 1 && f == UPPER) || (l == 2 && (f == LOWER || f == BEYOND));
      assert (m == 1 && g == UPPER) || (m == 2 && (g == LOWER || g == BEYOND));
    }
  }

  lemma SplitIsPicked(v: Version)
    requires IsSplit(v)
    ensures Picked(v, 1, [UPPER], [LOWER]) && !NoSplitKey(v, 1, [LOWER])
  {
    hide Less;
    var r, in0, in1 := Range(Some(1.0), Some(1.0)), [UPPER], [LOWER];
    OverlapsTheLower(r);
    assert UPPER in in0;
    LessTotal(UPPER.smallest, UPPER.largest);
    assert IsHull(in0, UPPER.smallest, UPPER.largest);
    assert HullOf(v[2], in0, in1, UPPER.smallest, UPPER.largest);
    assert NoDuplicates(in0) && Detached(v[1], 1, in0);
    assert Picked(v, 1, in0, in1);
    TombstoneFirst();
    assert LOWER in in1 && BEYOND in v[2] && BEYOND !in in1 && IsBoundary(BEYOND, LOWER.largest);
  }

  lemma TombstoneFirst()
    ensures Less(LOWER.largest, BEYOND.smallest)
  {
  }

  lemma OverlapsTheLower(r: Range)
    requires r == Range(Some(1.0), Some(1.0))
    ensures OverlapFilter([LOWER, BEYOND], r) == [LOWER]
  {
    var files := [LOWER, BEYOND];
    assert files[..1] == [LOWER] && files[..1][..0] == [];
    assert OverlapFilter([], r) == [];
    assert OverlapFilter(files[..1], r) == [LOWER];
  }

  lemma SplitKept(v: Version, input: set<Entry>)
    requires IsSplit(v) && input == {NEWEST, OLDEST, TOMBSTONE}
    ensures Kept(input, 10, BaseLevelOf(v, 1)) == {NEWEST}
  {
    assert Hidden(input, 10, OLDEST) by { assert NEWEST in input; }
    assert BaseLevel(v, 1, 2.0);
    assert Obsolete(10, BaseLevelOf(v, 1), TOMBSTONE);
    assert !Hidden(input, 10, NEWEST);
  }

  lemma OneVisible(es: set<Entry>, k: UserKey, s: Sequence, e: Entry)
    requires Unique(es) && IsNewest(es, k, s, e)
    ensures ReadAt(es, k, s) == Meaning(Some(e))
  {
    NewestIs(es, k, s, e);
  }

  function SplitVersion(): Version {
    seq(NUM_LEVELS, l => if l == 1 then [UPPER] else if l == 2 then [LOWER, BEYOND] else [])
  }

  /** The one table the merge writes. */
  const OUTPUT := TableOf(9, [NEWEST])

  function VersionAfter(): Version {
    Installed(SplitVersion(), CompactionEdit(1, [UPPER], [LOWER], [OUTPUT]))
  }

  /** The merge of these inputs with no snapshot older than number 10, and the version it installs. */
  lemma SplitCompacts()
    ensures IsSplit(SplitVersion())
    ensures CompactionOutputs(SplitVersion(), 1, [UPPER], [LOWER], 10, [OUTPUT])
    ensures Replaced(SplitVersion(), 1, [UPPER], [LOWER], [OUTPUT], VersionAfter())
  {
    hide Replaced, LevelsOrdered, DistinctNumbers, Installed, CompactionEdit, Kept, EntriesOf, InputEntries, ValidFiles,
      Disjoint, BaseLevelOf;
    var v := SplitVersion();
    assert IsSplit(v);
    SplitLevelsSorted(v);
    SplitDataOrdered(v);
    OutputIsValid();
    EntriesOfOne(OUTPUT, NEWEST);
    SplitInputs();
    SplitKept(v, InputEntries([UPPER], [LOWER]));
    assert UPPER in v[1] && LOWER in v[2];
    CompactionInstalled(v, 1, [UPPER], [LOWER], [OUTPUT]);
  }

  lemma OutputIsValid()
    ensures ValidFiles([OUTPUT]) && Disjoint([OUTPUT])
  {
    assert ValidFile(OUTPUT);
  }

  lemma SplitInputs()
    ensures InputEntries([UPPER], [LOWER]) == {NEWEST, OLDEST, TOMBSTONE}
  {
    hide EntriesOf;
    EntriesOfOne(UPPER, NEWEST);
    LowerEntries();
  }

  /** With no snapshot older than number 10, the merge drops the tombstone of key 2.0 (no deeper level has the key)
      while the next file of level 2 still holds what it deleted: the value reads as present again. */
  lemma SplitKeyResurrectsDeleted()
    ensures var v, v' := SplitVersion(), VersionAfter();
      && Inv(v) && Picked(v, 1, [UPPER], [LOWER])
      && CompactionOutputs(v, 1, [UPPER], [LOWER], 10, [OUTPUT])
      && Replaced(v, 1, [UPPER], [LOWER], [OUTPUT], v')
      && ReadAt(Entries(v), 2.0, 10) == None && ReadAt(Entries(v'), 2.0, 10) == Some([])
  {
    hide CompactionOutputs, Replaced, IsSplit, ReadAt, Picked, Inv, SplitVersion, VersionAfter;
    SplitCompacts();
    SplitReads(SplitVersion(), [OUTPUT], VersionAfter());
  }

  lemma SplitReads(v: Version, outs: seq<File>, v': Version)
    requires IsSplit(v)
    requires CompactionOutputs(v, 1, [UPPER], [LOWER], 10, outs) && Replaced(v, 1, [UPPER], [LOWER], outs, v')
    ensures Inv(v) && Picked(v, 1, [UPPER], [LOWER])
    ensures ReadAt(Entries(v), 2.0, 10) == None && ReadAt(Entries(v'), 2.0, 10) == Some([])
  {
    hide Picked, IsSplit, Replaced, DeepLevelsSorted, LevelsOrdered, LevelsNewer, NewestFirst, DistinctNumbers, Entries,
      RestEntries, EntriesOf, Kept, ReadAt, ValidFiles, Disjoint;
    SplitLevelsSorted(v);
    SplitDataOrdered(v);
    SplitIsPicked(v);
    SplitEntries(v);
    EntriesAfter(v, 1, [UPPER], [LOWER], outs, v');
    EntriesOfOne(UPPER, NEWEST);
    SplitRest(v);
    LowerEntries();
    SplitKept(v, InputEntries([UPPER], [LOWER]));
    OneVisible(Entries(v), 2.0, 10, TOMBSTONE);
    OneVisible(Entries(v'), 2.0, 10, DELETED);
  }

  lemma LowerEntries()
    ensures EntriesOf([LOWER]) == {OLDEST, TOMBSTONE}
  {
    assert LOWER in [LOWER] && OLDEST in LOWER.entries && TOMBSTONE in LOWER.entries;
  }

  lemma SplitRest(v: Version)
    requires IsSplit(v)
    ensures RestEntries(v, 1, [UPPER], [LOWER]) == {DELETED}
  {
    var rest := RestEntries(v, 1, [UPPER], [LOWER]);
    assert BEYOND in v[2] && Remains(v, 1, [UPPER], [LOWER], 2, BEYOND) && DELETED in BEYOND.entries;
    forall e | e in rest ensures e == DELETED {
      var l, f :| 0 <= l < NUM_LEVELS && f in v[l] && Remains(v, 1, [UPPER], [LOWER], l, f) && e in f.entries;
    }
  }
}
