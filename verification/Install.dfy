/** From an edit to the version it installs (db/version_set.cc lines 650-754, 801-823), and the flush step. */
module Install {
  import opened Basics
  import opened DbFormat
  import opened Versions
  import opened Builder
  import opened Picking
  import opened Steps

  /** The version LogAndApply installs for an edit on top of `v`. */
  function Installed(v: Version, e: VersionEdit): Version
    requires ValidLevels(e)
  {
    Save(v, ApplyEdit(EmptyState(), e))
  }

  /** No level is given two files of one number. */
  ghost predicate NewNumbersDistinct(files: seq<(nat, File)>) {
    forall i, j :: 0 <= i < j < |files| && files[i].0 == files[j].0 ==> files[i].1.number != files[j].1.number
  }

  ghost function NewNumbers(files: seq<(nat, File)>, level: nat): set<nat> {
    set i | 0 <= i < |files| && files[i].0 == level :: files[i].1.number
  }

  ghost predicate AddedAre(s: BuilderState, files: seq<(nat, File)>) {
    forall l, f :: 0 <= l < NUM_LEVELS ==> (f in s[l].added <==> (l, f) in files)
  }

  lemma AddOneMembers(s: BuilderState, files: seq<(nat, File)>, level: nat, f: File)
    requires ValidState(s) && level < NUM_LEVELS && AddedAre(s, files)
    requires forall i :: 0 <= i < |files| && files[i].0 == level ==> files[i].1.number != f.number
    ensures AddedAre(AddFile(s, level, f), files + [(level, f)])
  {
    forall g | g in s[level].added ensures KeyLess(f, g) || KeyLess(g, f) {
      assert (level, g) in files;
    }
    forall l, g | 0 <= l < NUM_LEVELS ensures g in AddFile(s, level, f)[l].added <==> (l, g) in files + [(level, f)] {
    }
  }

  lemma {:induction false} AddFilesMembers(s: BuilderState, earlier: seq<(nat, File)>, files: seq<(nat, File)>)
    requires ValidState(s) && (forall i :: 0 <= i < |files| ==> files[i].0 < NUM_LEVELS)
    requires AddedAre(s, earlier) && NewNumbersDistinct(earlier + files)
    ensures AddedAre(AddFiles(s, files), earlier + files)
  {
    hide NewNumbersDistinct, AddedAre, AddFile, ValidState;
    if files == [] {
      assert earlier + files == earlier;
    } else {
      var init, last := files[..|files| - 1], files[|files| - 1];
      assert earlier + files == (earlier + init) + [last] && files == init + [last];
      DistinctLast(earlier + init, last);
      AddFilesMembers(s, earlier, init);
      AddOneMembers(AddFiles(s, init), earlier + init, last.0, last.1);
    }
  }

  /** Adding files takes their numbers off the recorded deletions of their levels. */
  lemma {:induction false} AddFilesDeleted(s: BuilderState, files: seq<(nat, File)>, l: nat)
    requires ValidState(s) && l < NUM_LEVELS && (forall i :: 0 <= i < |files| ==> files[i].0 < NUM_LEVELS)
    ensures AddFiles(s, files)[l].deleted == s[l].deleted - NewNumbers(files, l)
  {
    hide AddFile, NewNumbers, ValidState;
    if files == [] {
      NoNewNumbers();
    } else {
      var init, last := files[..|files| - 1], files[|files| - 1];
      assert files == init + [last];
      AddFilesDeleted(s, init, l);
      NewNumbersSnoc(init, last, l);
      AddFileDeleted(AddFiles(s, init), last.0, last.1, l);
    }
  }

  lemma AddFileDeleted(s: BuilderState, level: nat, f: File, l: nat)
    requires ValidState(s) && level < NUM_LEVELS && l < NUM_LEVELS
    ensures AddFile(s, level, f)[l].deleted == s[l].deleted - (if l == level then {f.number} else {})
  {
  }

  lemma NoNewNumbers()
    ensures forall l :: NewNumbers([], l) == {}
  {
  }

  lemma DistinctLast(files: seq<(nat, File)>, last: (nat, File))
    requires NewNumbersDistinct(files + [last])
    ensures NewNumbersDistinct(files)
    ensures forall i :: 0 <= i < |files| && files[i].0 == last.0 ==> files[i].1.number != last.1.number
  {
    var all := files + [last];
    assert forall i :: 0 <= i < |files| ==> all[i] == files[i];
    assert all[|files|] == last;
  }

  lemma NewNumbersSnoc(init: seq<(nat, File)>, last: (nat, File), l: nat)
    ensures NewNumbers(init + [last], l) == NewNumbers(init, l) + (if last.0 == l then {last.1.number} else {})
  {
    var files := init + [last];
    forall n | n in NewNumbers(init, l) ensures n in NewNumbers(files, l) {
      var i :| 0 <= i < |init| && init[i].0 == l && init[i].1.number == n;
      assert files[i] == init[i];
    }
    if last.0 == l { assert files[|init|] == last; assert last.1.number in NewNumbers(files, l); }
  }

  /** New files bring numbers that no file of their level has. */
  ghost predicate FreshNumbers(v: Version, e: VersionEdit)
    requires ValidLevels(e)
  {
    forall i, g :: 0 <= i < |e.newFiles| && g in v[e.newFiles[i].0] ==> g.number != e.newFiles[i].1.number
  }

  /** An edit with fresh file numbers removes exactly its deletions and adds exactly its new files. */
  lemma InstalledMembers(v: Version, e: VersionEdit)
    requires ValidLevels(e) && LevelsOrdered(v) && NewNumbersDistinct(e.newFiles) && FreshNumbers(v, e)
    ensures LevelsOrdered(Installed(v, e))
    ensures forall l, f :: 0 <= l < NUM_LEVELS ==>
      (f in Installed(v, e)[l] <==> (f in v[l] && (l, f.number) !in e.deletedFiles) || (l, f) in e.newFiles)
  {
    hide StrictlyOrdered, Save, SaveLevel, NumbersAt, NewNumbers, ApplyEdit, NewNumbersDistinct;
    EmptyIsValid(e.deletedFiles);
    var s := ApplyEdit(EmptyState(), e);
    AppliedMembers(e);
    forall l | 0 <= l < NUM_LEVELS
      ensures StrictlyOrdered(Installed(v, e)[l])
      ensures forall f :: f in Installed(v, e)[l] <==>
        (f in v[l] && (l, f.number) !in e.deletedFiles) || (l, f) in e.newFiles
    {
      forall f, g | (l, f) in e.newFiles && g in v[l] ensures f.number != g.number {
        var i :| 0 <= i < |e.newFiles| && e.newFiles[i] == (l, f);
      }
      InstalledLevel(v[l], e, l, s[l]);
      SavedLevel(v, s, l);
    }
  }

  lemma EmptyIsValid(del: set<(nat, nat)>)
    ensures ValidState(EmptyState()) && ValidState(DeleteFiles(EmptyState(), del))
  {
  }

  lemma SavedLevel(v: Version, s: BuilderState, l: nat)
    requires l < NUM_LEVELS
    ensures Save(v, s)[l] == SaveLevel(v[l], s[l])
  {
  }

  lemma AppliedMembers(e: VersionEdit)
    requires ValidLevels(e) && NewNumbersDistinct(e.newFiles)
    ensures var s := ApplyEdit(EmptyState(), e);
      forall l :: 0 <= l < NUM_LEVELS ==>
        && StrictlyOrdered(s[l].added)
        && (forall f :: f in s[l].added <==> (l, f) in e.newFiles)
        && s[l].deleted == NumbersAt(e.deletedFiles, l) - NewNumbers(e.newFiles, l)
  {
    hide NewNumbersDistinct, NewNumbers, NumbersAt, StrictlyOrdered;
    EmptyIsValid(e.deletedFiles);
    var s0 := DeleteFiles(EmptyState(), e.deletedFiles);
    assert AddedAre(s0, []) && [] + e.newFiles == e.newFiles;
    AddFilesMembers(s0, [], e.newFiles);
    forall l | 0 <= l < NUM_LEVELS
      ensures AddFiles(s0, e.newFiles)[l].deleted == s0[l].deleted - NewNumbers(e.newFiles, l)
    {
      AddFilesDeleted(s0, e.newFiles, l);
    }
    forall l | 0 <= l < NUM_LEVELS ensures s0[l].deleted == NumbersAt(e.deletedFiles, l) {
      assert {} + NumbersAt(e.deletedFiles, l) == NumbersAt(e.deletedFiles, l);
    }
  }

  lemma InstalledLevel(base: Level, e: VersionEdit, l: nat, s: LevelState)
    requires StrictlyOrdered(base) && StrictlyOrdered(s.added) && l < NUM_LEVELS
    requires forall f :: f in s.added <==> (l, f) in e.newFiles
    requires s.deleted == NumbersAt(e.deletedFiles, l) - NewNumbers(e.newFiles, l)
    requires forall f, g :: (l, f) in e.newFiles && g in base ==> f.number != g.number
    ensures StrictlyOrdered(SaveLevel(base, s))
    ensures forall f :: f in SaveLevel(base, s) <==>
      (f in base && (l, f.number) !in e.deletedFiles) || (l, f) in e.newFiles
  {
    hide NumbersAt, StrictlyOrdered, SaveLevel;
    assert Apart(base, s.added) by {
      forall f, g | f in base && g in s.added ensures KeyLess(f, g) || KeyLess(g, f) {
        assert (l, g) in e.newFiles;
      }
    }
    SaveLevelIs(base, s);
    forall f: File
      ensures f.number in NumbersAt(e.deletedFiles, l) <==> (l, f.number) in e.deletedFiles
    {
      NumberAt(e.deletedFiles, l, f.number);
    }
    forall f | (l, f) in e.newFiles ensures f.number in NewNumbers(e.newFiles, l) {
      var i :| 0 <= i < |e.newFiles| && e.newFiles[i] == (l, f);
    }
    forall f | f in base ensures f.number !in NewNumbers(e.newFiles, l) {
      forall i | 0 <= i < |e.newFiles| && e.newFiles[i].0 == l ensures e.newFiles[i].1.number != f.number {
        assert (l, e.newFiles[i].1) in e.newFiles;
      }
    }
  }

  lemma NumberAt(del: set<(nat, nat)>, l: nat, n: nat)
    ensures n in NumbersAt(del, l) <==> (l, n) in del
  {
    if n in NumbersAt(del, l) {
      var d :| d in del && d.0 == l && d.1 == n;
      assert d == (l, n);
    }
    if (l, n) in del { assert (l, n).0 == l && (l, n).1 == n; }
  }

  // ---------- compaction and move ----------

  /** AddInputDeletions and the output additions of InstallCompactionResults; a trivial move is the case of
      one input that is also the output. */
  function CompactionEdit(level: nat, in0: seq<File>, in1: seq<File>, outs: seq<File>): (e: VersionEdit)
    requires level + 1 < NUM_LEVELS
    ensures ValidLevels(e)
  {
    EMPTY_EDIT.(
      deletedFiles := (set f | f in in0 :: (level, f.number)) + (set f | f in in1 :: (level + 1, f.number)),
      newFiles := AtLevel(level + 1, outs))
  }

  function AtLevel(level: nat, files: seq<File>): (r: seq<(nat, File)>)
    ensures |r| == |files| && forall i :: 0 <= i < |r| ==> r[i] == (level, files[i])
  {
    seq(|files|, i requires 0 <= i < |files| => (level, files[i]))
  }

  lemma DeletedByCompaction(v: Version, level: nat, in0: seq<File>, in1: seq<File>, outs: seq<File>, l: nat, f: File)
    requires Located(v, level, in0, in1) && DistinctNumbers(v) && l < NUM_LEVELS && f in v[l]
    ensures (l, f.number) !in CompactionEdit(level, in0, in1, outs).deletedFiles <==> Remains(v, level, in0, in1, l, f)
  {
    var del := CompactionEdit(level, in0, in1, outs).deletedFiles;
    if l == level && f in in0 { assert (l, f.number) in del; }
    if l == level + 1 && f in in1 { assert (l, f.number) in del; }
    if (l, f.number) in del {
      if g :| g in in0 && (level, g.number) == (l, f.number) {
        assert g == f;
      } else {
        var g :| g in in1 && (level + 1, g.number) == (l, f.number);
        assert g == f;
      }
    }
  }

  /** The outputs' numbers differ from one another and are not taken at their level. */
  ghost predicate OutputNumbers(v: Version, level: nat, outs: seq<File>)
    requires level + 1 < NUM_LEVELS
  {
    && (forall i, j :: 0 <= i < j < |outs| ==> outs[i].number != outs[j].number)
    && (forall f, g :: f in outs && g in v[level + 1] ==> f.number != g.number)
  }

  lemma CompactionIsFresh(v: Version, level: nat, in0: seq<File>, in1: seq<File>, outs: seq<File>)
    requires Located(v, level, in0, in1) && OutputNumbers(v, level, outs)
    ensures FreshNumbers(v, CompactionEdit(level, in0, in1, outs))
  {
    var e := CompactionEdit(level, in0, in1, outs);
    forall i | 0 <= i < |e.newFiles|
      ensures forall g :: g in v[e.newFiles[i].0] ==> g.number != e.newFiles[i].1.number
    {
      assert outs[i] in outs;
    }
  }

  lemma AtLevelMembers(level: nat, files: seq<File>, l: nat, f: File)
    ensures (l, f) in AtLevel(level, files) <==> l == level && f in files
  {
    if l == level && f in files {
      var i :| 0 <= i < |files| && files[i] == f;
      assert AtLevel(level, files)[i] == (l, f);
    }
  }

  lemma CompactionInstalled(v: Version, level: nat, in0: seq<File>, in1: seq<File>, outs: seq<File>)
    requires Located(v, level, in0, in1) && DistinctNumbers(v) && LevelsOrdered(v) && OutputNumbers(v, level, outs)
    ensures Replaced(v, level, in0, in1, outs, Installed(v, CompactionEdit(level, in0, in1, outs)))
  {
    var e := CompactionEdit(level, in0, in1, outs);
    CompactionIsFresh(v, level, in0, in1, outs);
    InstalledMembers(v, e);
    forall l, f | 0 <= l < NUM_LEVELS
      ensures f in Installed(v, e)[l] <==> Remains(v, level, in0, in1, l, f) || (l == level + 1 && f in outs)
    {
      if f in v[l] { DeletedByCompaction(v, level, in0, in1, outs, l, f); }
      AtLevelMembers(level + 1, outs, l, f);
    }
  }

  // ---------- flush ----------

  function FlushEdit(level: nat, f: File): (e: VersionEdit)
    requires level < NUM_LEVELS
    ensures ValidLevels(e)
  {
    EMPTY_EDIT.(newFiles := [(level, f)])
  }

  ghost predicate NumbersBelow(v: Version, n: nat) {
    forall l, f :: 0 <= l < NUM_LEVELS && f in v[l] ==> f.number < n
  }

  /** The flushed table may skip levels only if none down to its own overlaps it. */
  ghost predicate FlushLevelOk(v: Version, level: nat, f: File) {
    && level < NUM_LEVELS
    && (level > 0 ==> forall l :: 0 <= l <= level ==> NoOverlap(v[l], f.smallest.user, f.largest.user))
  }

  ghost predicate Flushed(v: Version, level: nat, f: File, v': Version)
    requires level < NUM_LEVELS
  {
    && LevelsOrdered(v')
    && forall l, g :: 0 <= l < NUM_LEVELS ==> (g in v'[l] <==> g in v[l] || (l == level && g == f))
  }

  lemma FlushInstalled(v: Version, level: nat, f: File)
    requires LevelsOrdered(v) && NumbersBelow(v, f.number) && level < NUM_LEVELS
    ensures Flushed(v, level, f, Installed(v, FlushEdit(level, f)))
  {
    FlushInstalledBy(v, level, f, FlushEdit(level, f));
  }

  lemma FlushInstalledBy(v: Version, level: nat, f: File, e: VersionEdit)
    requires LevelsOrdered(v) && NumbersBelow(v, f.number) && level < NUM_LEVELS
    requires e.deletedFiles == {} && e.newFiles == [(level, f)] && e.compactPointers == []
    ensures Flushed(v, level, f, Installed(v, e))
  {
    hide StrictlyOrdered, Installed;
    InstalledMembers(v, e);
    var v' := Installed(v, e);
    forall l, g | 0 <= l < NUM_LEVELS ensures g in v'[l] <==> g in v[l] || (l == level && g == f) {
      assert (l, g) in e.newFiles <==> l == level && g == f;
    }
  }

  lemma FlushedEntries(v: Version, level: nat, f: File, v': Version)
    requires level < NUM_LEVELS && Flushed(v, level, f, v')
    ensures Entries(v') == Entries(v) + SetOf(f.entries)
  {
    forall e | e in Entries(v') ensures e in Entries(v) + SetOf(f.entries) {
      var l := LevelWith(v', e);
      var g := FileWith(v'[l], e);
      if g in v[l] { EntryOf(v, l, g, e); }
    }
    forall e | e in Entries(v) ensures e in Entries(v') {
      var l := LevelWith(v, e);
      EntryOf(v', l, FileWith(v[l], e), e);
    }
    forall e | e in f.entries ensures e in Entries(v') {
      EntryOf(v', level, f, e);
    }
  }

  lemma ApartFromRange(f: File, g: File)
    requires ValidFile(f) && ValidFile(g) && !InRange(g, Range(Some(f.smallest.user), Some(f.largest.user)))
    ensures Less(f.largest, g.smallest) || Less(g.largest, f.smallest)
    ensures forall x, y :: x in f.entries && y in g.entries ==> x.ikey.user != y.ikey.user
  {
    forall x, y | x in f.entries && y in g.entries ensures x.ikey.user != y.ikey.user {
      FileBounds(f, x);
      FileBounds(g, y);
    }
  }

  lemma FlushedLevelSorted(v: Version, level: nat, f: File, v': Version, l: nat)
    requires DeepLevelsSorted(v) && ValidFile(f) && FlushLevelOk(v, level, f) && Flushed(v, level, f, v') &&
      l < NUM_LEVELS
    ensures ValidFiles(v'[l]) && (l >= 1 ==> Disjoint(v'[l]))
  {
    var fs := v'[l];
    assert forall i :: 0 <= i < |fs| ==> fs[i] in fs;
    if l >= 1 {
      forall g, h | g in fs && h in fs && g != h ensures Less(g.largest, h.smallest) || Less(h.largest, g.smallest) {
        if g !in v[l] {
          ApartFromRange(f, h);
        } else if h !in v[l] {
          ApartFromRange(f, g);
        }
      }
      PairwiseDisjoint(fs);
    }
  }

  lemma FlushedPairNewer(
      v: Version, level: nat, f: File, v': Version, l: nat, m: nat, g: File, h: File, x: Entry, y: Entry)
    requires DeepLevelsSorted(v) && LevelsNewer(v) && ValidFile(f) && FlushLevelOk(v, level, f) &&
      Flushed(v, level, f, v')
    requires NewerThan(SetOf(f.entries), Entries(v))
    requires l < m < NUM_LEVELS && g in v'[l] && h in v'[m] && x in g.entries && y in h.entries &&
      x.ikey.user == y.ikey.user
    ensures x.ikey.seqno > y.ikey.seqno
  {
    if g in v[l] && h in v[m] {
      NewerAcross(v, l, m, g, h, x, y);
    } else if h in v[m] {
      EntryOf(v, m, h, y);
      assert x in SetOf(f.entries);
    } else {
      assert g in v[l];
      ApartFromRange(f, g);
    }
  }

  lemma FlushedLevel0(v: Version, level: nat, f: File, v': Version)
    requires NewestFirst(v[0]) && level < NUM_LEVELS && Flushed(v, level, f, v')
    requires NumbersBelow(v, f.number) && NewerThan(SetOf(f.entries), Entries(v))
    ensures NewestFirst(v'[0])
  {
    forall g, h | g in v'[0] && h in v'[0] && g.number > h.number
      ensures NewerThan(SetOf(g.entries), SetOf(h.entries))
    {
      if g in v[0] && h in v[0] {
      } else {
        assert g == f && h in v[0];
        forall y | y in h.entries ensures y in Entries(v) { EntryOf(v, 0, h, y); }
      }
    }
  }

  lemma FlushedLevelsNewer(v: Version, level: nat, f: File, v': Version)
    requires DeepLevelsSorted(v) && LevelsNewer(v) && ValidFile(f) && FlushLevelOk(v, level, f) &&
      Flushed(v, level, f, v')
    requires NewerThan(SetOf(f.entries), Entries(v))
    ensures LevelsNewer(v')
  {
    forall l, m, x, y | 0 <= l < m < NUM_LEVELS && x in EntriesOf(v'[l]) && y in EntriesOf(v'[m]) &&
      x.ikey.user == y.ikey.user
      ensures x.ikey.seqno > y.ikey.seqno
    {
      FlushedPairNewer(v, level, f, v', l, m, FileWith(v'[l], x), FileWith(v'[m], y), x, y);
    }
  }

  /** Installing a flushed memtable keeps every invariant and adds exactly its entries. */
  lemma FlushKeepsInv(v: Version, level: nat, f: File, v': Version)
    requires Inv(v) && ValidFile(f) && FlushLevelOk(v, level, f) && Flushed(v, level, f, v')
    requires NumbersBelow(v, f.number)
    requires NewerThan(SetOf(f.entries), Entries(v)) && Unique(SetOf(f.entries))
    ensures Inv(v') && Entries(v') == Entries(v) + SetOf(f.entries)
  {
    assert DeepLevelsSorted(v') by {
      forall l | 0 <= l < NUM_LEVELS ensures ValidFiles(v'[l]) && (l >= 1 ==> Disjoint(v'[l])) {
        FlushedLevelSorted(v, level, f, v', l);
      }
    }
    FlushedLevelsNewer(v, level, f, v');
    FlushedLevel0(v, level, f, v');
    FlushedEntries(v, level, f, v');
    FlushedNumbers(v, level, f, v');
    UniqueUnion(Entries(v), SetOf(f.entries), Entries(v'));
  }

  lemma UniqueUnion(below: set<Entry>, top: set<Entry>, all: set<Entry>)
    requires Unique(below) && Unique(top) && NewerThan(top, below) && all == below + top
    ensures Unique(all)
  {
  }

  lemma FlushedNumbers(v: Version, level: nat, f: File, v': Version)
    requires DistinctNumbers(v) && level < NUM_LEVELS && Flushed(v, level, f, v') && NumbersBelow(v, f.number)
    ensures DistinctNumbers(v')
  {
    forall l, m, g, h | 0 <= l < NUM_LEVELS && 0 <= m < NUM_LEVELS && g in v'[l] && h in v'[m] && g.number == h.number
      ensures l == m && g == h
    {
      assert g in v[l] || (l == level && g == f);
      assert h in v[m] || (m == level && h == f);
    }
  }
}
