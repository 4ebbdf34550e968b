/** When replaying the manifest is exact. */
module ManifestReplay {
  // Recovery applies all edits to one builder over the empty version (db/version_set.cc lines 886-1000). The builder
  // keeps the files added at a level in a set ordered by smallest key and number (lines 587-592), and an addition
  // takes its number off the deletions recorded so far (lines 671-692). A level that is given a number back may thus
  // get back an older file of that number too.

  import opened DbFormat
  import opened Versions
  import opened Basics
  import opened Builder
  import opened Install
  import opened Manifest

  /** What LogAndApply was given: every edit brought numbers that the version it was installed on did not hold. */
  ghost predicate FreshRun(edits: seq<VersionEdit>)
    requires AllLevelsValid(edits)
  {
    edits == [] ||
    var init, e := edits[..|edits| - 1], edits[|edits| - 1];
    FreshRun(init) && NewNumbersDistinct(e.newFiles) && FreshNumbers(InstallAll(EmptyVersion(), init), e)
  }

  /** The edits add `f` at the level and do not delete it afterwards. */
  predicate FinallyLive(edits: seq<VersionEdit>, l: nat, f: File) {
    edits != [] &&
    var init, e := edits[..|edits| - 1], edits[|edits| - 1];
    (l, f) in e.newFiles || (FinallyLive(init, l, f) && (l, f.number) !in e.deletedFiles)
  }

  /** The first file added at the level under a number. */
  function FirstAdded(files: seq<(nat, File)>, l: nat, n: nat): Option<File> {
    if files == [] then None
    else
      var r, last := FirstAdded(files[..|files| - 1], l, n), files[|files| - 1];
      if r.Some? then r else if last.0 == l && last.1.number == n then Some(last.1) else None
  }

  /** The first file added at the level under a number and a smallest key. */
  function FirstWithKey(files: seq<(nat, File)>, l: nat, n: nat, key: IKey): Option<File> {
    if files == [] then None
    else
      var r, last := FirstWithKey(files[..|files| - 1], l, n, key), files[|files| - 1];
      if r.Some? then r
      else if last.0 == l && last.1.number == n && last.1.smallest == key then Some(last.1) else None
  }

  /** Whatever was added at the level under the number of `g` starts where `g` does, and `g` came first. */
  ghost predicate OneFile(files: seq<(nat, File)>, l: nat, g: File) {
    && (forall f :: (l, f) in files && f.number == g.number ==> f.smallest == g.smallest)
    && FirstAdded(files, l, g.number) == Some(g)
  }

  lemma {:induction false} FirstWithKeyIs(files: seq<(nat, File)>, l: nat, n: nat, key: IKey)
    ensures var r := FirstWithKey(files, l, n, key);
      && (r.Some? ==> (l, r.value) in files && r.value.number == n && r.value.smallest == key)
      && (r.None? ==> forall f :: (l, f) in files && f.number == n ==> f.smallest != key)
  {
    if files != [] {
      assert files == files[..|files| - 1] + [files[|files| - 1]];
      FirstWithKeyIs(files[..|files| - 1], l, n, key);
    }
  }

  lemma {:induction false} FirstOfOneKey(files: seq<(nat, File)>, l: nat, n: nat, key: IKey)
    requires forall f :: (l, f) in files && f.number == n ==> f.smallest == key
    ensures FirstWithKey(files, l, n, key) == FirstAdded(files, l, n)
  {
    if files != [] {
      var init, last := files[..|files| - 1], files[|files| - 1];
      assert files == init + [last];
      assert last == (last.0, last.1) && last in files;
      FirstOfOneKey(init, l, n, key);
    }
  }

  // ---------- the builder's state ----------

  /** The set of added files holds the first file of every number and smallest key. */
  ghost predicate HoldsFirsts(s: BuilderState, l: nat, files: seq<(nat, File)>)
    requires l < NUM_LEVELS
  {
    forall f :: f in s[l].added <==> FirstWithKey(files, l, f.number, f.smallest) == Some(f)
  }

  lemma {:induction false} SetInsertPresent(fs: seq<File>, f: File, h: File)
    requires StrictlyOrdered(fs) && h in fs && h.number == f.number && h.smallest == f.smallest
    ensures SetInsert(fs, f) == fs
    decreases |fs|
  {
    if h != fs[0] {
      assert fs == [fs[0]] + fs[1..] && KeyLess(fs[0], h);
      LessTotal(fs[0].smallest, f.smallest);
      SetInsertPresent(fs[1..], f, h);
    }
  }

  lemma AddOneHoldsFirsts(s: BuilderState, files: seq<(nat, File)>, level: nat, f: File, l: nat)
    requires ValidState(s) && level < NUM_LEVELS && l < NUM_LEVELS && HoldsFirsts(s, l, files)
    ensures HoldsFirsts(AddFile(s, level, f), l, files + [(level, f)])
  {
    hide SetInsert;
    var all, fs := files + [(level, f)], s[l].added;
    assert all[..|files|] == files;
    if l == level {
      FirstWithKeyIs(files, l, f.number, f.smallest);
      var r := FirstWithKey(files, l, f.number, f.smallest);
      if r.Some? {
        assert r.value in fs;
        SetInsertPresent(fs, f, r.value);
      } else {
        forall g | g in fs ensures KeyLess(f, g) || KeyLess(g, f) { LessTotal(f.smallest, g.smallest); }
        assert f in SetInsert(fs, f) && forall g :: g in SetInsert(fs, f) <==> g in fs || g == f by {
          InsertNew(fs, f);
        }
      }
    }
  }

  lemma InsertNew(fs: seq<File>, f: File)
    requires StrictlyOrdered(fs) && forall g :: g in fs ==> KeyLess(f, g) || KeyLess(g, f)
    ensures forall g :: g in SetInsert(fs, f) <==> g in fs || g == f
  {
  }

  lemma {:induction false} AddFilesHoldsFirsts(
      s: BuilderState, earlier: seq<(nat, File)>, files: seq<(nat, File)>, l: nat)
    requires ValidState(s) && (forall i :: 0 <= i < |files| ==> files[i].0 < NUM_LEVELS)
    requires l < NUM_LEVELS && HoldsFirsts(s, l, earlier)
    ensures HoldsFirsts(AddFiles(s, files), l, earlier + files)
    decreases |files|
  {
    hide HoldsFirsts, AddFile, ValidState;
    if files == [] {
      assert earlier + files == earlier;
    } else {
      var init, last := files[..|files| - 1], files[|files| - 1];
      AddFilesHoldsFirsts(s, earlier, init, l);
      AddOneHoldsFirsts(AddFiles(s, init), earlier + init, last.0, last.1, l);
      assert earlier + files == (earlier + init) + [(last.0, last.1)];
    }
  }

  lemma {:induction false} ReplayHoldsFirsts(edits: seq<VersionEdit>, l: nat)
    requires AllLevelsValid(edits) && l < NUM_LEVELS
    ensures HoldsFirsts(ApplyAll(EmptyState(), edits), l, AddedBy(edits))
  {
    hide HoldsFirsts, ValidState;
    if edits == [] {
      assert HoldsFirsts(EmptyState(), l, []) by { EmptyHoldsFirsts(l); }
    } else {
      var init, e := edits[..|edits| - 1], edits[|edits| - 1];
      AllPrefix(edits);
      ReplayHoldsFirsts(init, l);
      var s := ApplyAll(EmptyState(), init);
      assert HoldsFirsts(DeleteFiles(s, e.deletedFiles), l, AddedBy(init)) by {
        DeleteHoldsFirsts(s, e.deletedFiles, l, AddedBy(init));
      }
      DeleteKeepsValid(s, e.deletedFiles);
      AddFilesHoldsFirsts(DeleteFiles(s, e.deletedFiles), AddedBy(init), e.newFiles, l);
    }
  }

  lemma EmptyHoldsFirsts(l: nat)
    requires l < NUM_LEVELS
    ensures HoldsFirsts(EmptyState(), l, [])
  {
  }

  lemma DeleteKeepsValid(s: BuilderState, del: set<(nat, nat)>)
    requires ValidState(s)
    ensures ValidState(DeleteFiles(s, del))
  {
  }

  lemma DeleteHoldsFirsts(s: BuilderState, del: set<(nat, nat)>, l: nat, files: seq<(nat, File)>)
    requires l < NUM_LEVELS && HoldsFirsts(s, l, files)
    ensures HoldsFirsts(DeleteFiles(s, del), l, files)
  {
  }

  // ---------- the installed versions ----------

  ghost predicate NumberLive(edits: seq<VersionEdit>, l: nat, n: nat) {
    exists f :: FinallyLive(edits, l, f) && f.number == n
  }

  /** The last installed version holds the finally live files, of each number at most one. */
  lemma {:induction false} InstalledAreLive(edits: seq<VersionEdit>, l: nat)
    requires AllLevelsValid(edits) && FreshRun(edits) && l < NUM_LEVELS
    ensures LevelsOrdered(InstallAll(EmptyVersion(), edits))
    ensures forall f :: f in InstallAll(EmptyVersion(), edits)[l] <==> FinallyLive(edits, l, f)
    ensures forall f, g :: FinallyLive(edits, l, f) && FinallyLive(edits, l, g) && f.number == g.number ==> f == g
  {
    hide StrictlyOrdered, Installed;
    if edits == [] {
      assert LevelsOrdered(EmptyVersion()) by { EmptyIsOrdered(); }
    } else {
      var init, e := edits[..|edits| - 1], edits[|edits| - 1];
      AllPrefix(edits);
      InstalledAreLive(init, l);
      InstalledMembers(InstallAll(EmptyVersion(), init), e);
      OneOfEachNumber(init, e, l);
    }
  }

  lemma EmptyIsOrdered()
    ensures LevelsOrdered(EmptyVersion())
  {
  }

  lemma OneOfEachNumber(init: seq<VersionEdit>, e: VersionEdit, l: nat)
    requires AllLevelsValid(init) && ValidLevels(e) && l < NUM_LEVELS
    requires NewNumbersDistinct(e.newFiles) && FreshNumbers(InstallAll(EmptyVersion(), init), e)
    requires forall f :: f in InstallAll(EmptyVersion(), init)[l] <==> FinallyLive(init, l, f)
    requires forall f, g :: FinallyLive(init, l, f) && FinallyLive(init, l, g) && f.number == g.number ==> f == g
    ensures (init + [e])[..|init|] == init
    ensures forall f, g :: FinallyLive(init + [e], l, f) && FinallyLive(init + [e], l, g) && f.number == g.number ==>
      f == g
  {
    assert (init + [e])[..|init|] == init;
    forall f, g | (l, f) in e.newFiles && (l, g) in e.newFiles && f.number == g.number ensures f == g {
      var i :| 0 <= i < |e.newFiles| && e.newFiles[i] == (l, f);
      var j :| 0 <= j < |e.newFiles| && e.newFiles[j] == (l, g);
    }
    forall f, g | (l, f) in e.newFiles && FinallyLive(init, l, g) ensures f.number != g.number {
      var i :| 0 <= i < |e.newFiles| && e.newFiles[i] == (l, f);
    }
  }

  /** A number added at a level is among the builder's deletions exactly when no file of it is live there. */
  lemma {:induction false} DeletedAreDead(edits: seq<VersionEdit>, l: nat, n: nat)
    requires AllLevelsValid(edits) && l < NUM_LEVELS
    requires FirstAdded(AddedBy(edits), l, n).Some?
    ensures n in ApplyAll(EmptyState(), edits)[l].deleted <==> !NumberLive(edits, l, n)
  {
    hide NewNumbers, NumbersAt, ValidState;
    if edits != [] {
      var init, e := edits[..|edits| - 1], edits[|edits| - 1];
      AllPrefix(edits);
      var s := ApplyAll(EmptyState(), init);
      DeleteKeepsValid(s, e.deletedFiles);
      AddFilesDeleted(DeleteFiles(s, e.deletedFiles), e.newFiles, l);
      NumberAt(e.deletedFiles, l, n);
      NewNumberIff(e.newFiles, l, n);
      FirstOfTwo(AddedBy(init), e.newFiles, l, n);
      if FirstAdded(AddedBy(init), l, n).Some? {
        DeletedAreDead(init, l, n);
      }
      LiveStep(edits, l, n);
    }
  }

  lemma NewNumberIff(files: seq<(nat, File)>, l: nat, n: nat)
    ensures n in NewNumbers(files, l) <==> exists f :: (l, f) in files && f.number == n
  {
    if n in NewNumbers(files, l) {
      var i :| 0 <= i < |files| && files[i].0 == l && files[i].1.number == n;
      assert (l, files[i].1) in files;
    }
    if f :| (l, f) in files && f.number == n { NewNumberOf(files, l, f); }
  }

  lemma {:induction false} FirstOfTwo(a: seq<(nat, File)>, b: seq<(nat, File)>, l: nat, n: nat)
    ensures FirstAdded(a, l, n).Some? ==> FirstAdded(a + b, l, n) == FirstAdded(a, l, n)
    ensures FirstAdded(a, l, n) == None && FirstAdded(a + b, l, n).Some? ==> exists f :: (l, f) in b && f.number == n
    decreases |b|
  {
    if b == [] {
      assert a + b == a;
    } else {
      assert (a + b)[..|a + b| - 1] == a + b[..|b| - 1];
      FirstOfTwo(a, b[..|b| - 1], l, n);
      assert b[|b| - 1] == (b[|b| - 1].0, b[|b| - 1].1);
    }
  }

  lemma LiveStep(edits: seq<VersionEdit>, l: nat, n: nat)
    requires edits != []
    ensures var init, e := edits[..|edits| - 1], edits[|edits| - 1];
      NumberLive(edits, l, n) <==>
      (exists f :: (l, f) in e.newFiles && f.number == n) || (NumberLive(init, l, n) && (l, n) !in e.deletedFiles)
  {
    var init, e := edits[..|edits| - 1], edits[|edits| - 1];
    if f :| (l, f) in e.newFiles && f.number == n { assert FinallyLive(edits, l, f); }
    if NumberLive(init, l, n) && (l, n) !in e.deletedFiles {
      var f :| FinallyLive(init, l, f) && f.number == n;
      assert FinallyLive(edits, l, f);
    }
  }

  lemma {:induction false} LiveWasAdded(edits: seq<VersionEdit>, l: nat, f: File)
    requires FinallyLive(edits, l, f)
    ensures (l, f) in AddedBy(edits)
  {
    var init, e := edits[..|edits| - 1], edits[|edits| - 1];
    if (l, f) !in e.newFiles { LiveWasAdded(init, l, f); }
  }

  // ---------- the exact condition ----------

  /** What recovery saves at a level: of each live number, the first file of every smallest key it was added with. */
  lemma ReplayedMembers(edits: seq<VersionEdit>, l: nat)
    requires AllLevelsValid(edits) && l < NUM_LEVELS
    ensures var w := Save(EmptyVersion(), ApplyAll(EmptyState(), edits));
      && StrictlyOrdered(w[l])
      && forall f :: f in w[l] <==>
           FirstWithKey(AddedBy(edits), l, f.number, f.smallest) == Some(f) && NumberLive(edits, l, f.number)
  {
    hide StrictlyOrdered, NumberLive;
    var s, w := ApplyAll(EmptyState(), edits), Save(EmptyVersion(), ApplyAll(EmptyState(), edits));
    ReplayHoldsFirsts(edits, l);
    NothingMerged(s[l]);
    SavedLevel(EmptyVersion(), s, l);
    forall f: File | FirstWithKey(AddedBy(edits), l, f.number, f.smallest) == Some(f)
      ensures f.number in s[l].deleted <==> !NumberLive(edits, l, f.number)
    {
      FirstWithKeyIs(AddedBy(edits), l, f.number, f.smallest);
      AddedHasFirst(AddedBy(edits), l, f);
      DeletedAreDead(edits, l, f.number);
    }
  }

  lemma NothingMerged(s: LevelState)
    requires StrictlyOrdered(s.added)
    ensures StrictlyOrdered(SaveLevel([], s))
    ensures forall f :: f in SaveLevel([], s) <==> f in s.added && f.number !in s.deleted
  {
    hide KeyLess;
    SaveLevelIs([], s);
  }

  lemma {:induction false} AddedHasFirst(files: seq<(nat, File)>, l: nat, f: File)
    requires (l, f) in files
    ensures FirstAdded(files, l, f.number).Some?
  {
    var init, last := files[..|files| - 1], files[|files| - 1];
    assert files == init + [last];
    if last != (l, f) { AddedHasFirst(init, l, f); }
  }

  /** Every file finally live at the level came first under its number, and whatever else was added under that number
      starts at the same key. */
  ghost predicate NumbersKeepFiles(edits: seq<VersionEdit>, l: nat) {
    forall g :: FinallyLive(edits, l, g) ==> OneFile(AddedBy(edits), l, g)
  }

  /** Recovery rebuilds a level exactly if and only if its numbers keep their files. */
  lemma ReplayExactIff(edits: seq<VersionEdit>, l: nat)
    requires AllLevelsValid(edits) && FreshRun(edits) && l < NUM_LEVELS
    ensures Save(EmptyVersion(), ApplyAll(EmptyState(), edits))[l] == InstallAll(EmptyVersion(), edits)[l] <==>
      NumbersKeepFiles(edits, l)
  {
    hide StrictlyOrdered, FreshRun, FinallyLive, FirstWithKey, Save, InstallAll, ApplyAll, NumbersKeepFiles, NumberLive;
    var w, v := Save(EmptyVersion(), ApplyAll(EmptyState(), edits))[l], InstallAll(EmptyVersion(), edits)[l];
    ReplayedMembers(edits, l);
    InstalledAreLive(edits, l);
    if w == v {
      ExactKeepsFiles(edits, l);
    } else if NumbersKeepFiles(edits, l) {
      forall f: File ensures f in w <==> f in v { KeptFile(edits, l, f); }
      LevelIsOrdered(InstallAll(EmptyVersion(), edits), l);
      SameMembers(w, v);
    }
  }

  lemma LevelIsOrdered(v: Version, l: nat)
    requires LevelsOrdered(v) && l < NUM_LEVELS
    ensures StrictlyOrdered(v[l])
  {
  }

  lemma ExactKeepsFiles(edits: seq<VersionEdit>, l: nat)
    requires forall f, h :: FinallyLive(edits, l, f) && FinallyLive(edits, l, h) && f.number == h.number ==> f == h
    requires forall f :: FinallyLive(edits, l, f) <==>
      FirstWithKey(AddedBy(edits), l, f.number, f.smallest) == Some(f) && NumberLive(edits, l, f.number)
    ensures NumbersKeepFiles(edits, l)
  {
    hide FinallyLive, FirstAdded, FirstWithKey, AddedBy;
    forall g | FinallyLive(edits, l, g) ensures OneFile(AddedBy(edits), l, g) { ExactHasOneFile(edits, l, g); }
  }

  lemma ExactHasOneFile(edits: seq<VersionEdit>, l: nat, g: File)
    requires FinallyLive(edits, l, g)
    requires forall f, h :: FinallyLive(edits, l, f) && FinallyLive(edits, l, h) && f.number == h.number ==> f == h
    requires forall f :: FinallyLive(edits, l, f) <==>
      FirstWithKey(AddedBy(edits), l, f.number, f.smallest) == Some(f) && NumberLive(edits, l, f.number)
    ensures OneFile(AddedBy(edits), l, g)
  {
    hide FinallyLive, FirstAdded, FirstWithKey, AddedBy;
    var files := AddedBy(edits);
    forall f: File | (l, f) in files && f.number == g.number ensures f.smallest == g.smallest {
      FirstWithKeyIs(files, l, f.number, f.smallest);
      var h := FirstWithKey(files, l, f.number, f.smallest).value;
      assert FinallyLive(edits, l, h);
    }
    FirstOfOneKey(files, l, g.number, g.smallest);
  }

  lemma KeptFile(edits: seq<VersionEdit>, l: nat, f: File)
    requires NumbersKeepFiles(edits, l)
    ensures FinallyLive(edits, l, f) <==>
      FirstWithKey(AddedBy(edits), l, f.number, f.smallest) == Some(f) && NumberLive(edits, l, f.number)
  {
    hide FinallyLive, FirstAdded, FirstWithKey, AddedBy;
    var files := AddedBy(edits);
    if FinallyLive(edits, l, f) {
      FirstOfOneKey(files, l, f.number, f.smallest);
    }
    if FirstWithKey(files, l, f.number, f.smallest) == Some(f) && NumberLive(edits, l, f.number) {
      var g :| FinallyLive(edits, l, g) && g.number == f.number;
      FirstWithKeyIs(files, l, f.number, f.smallest);
      FirstOfOneKey(files, l, g.number, g.smallest);
    }
  }

  /** The whole version comes back exactly if and only if every level does. */
  lemma RecoveryExactIff(edits: seq<VersionEdit>)
    requires AllLevelsValid(edits) && FreshRun(edits)
    ensures Save(EmptyVersion(), ApplyAll(EmptyState(), edits)) == InstallAll(EmptyVersion(), edits) <==>
      forall l: nat :: l < NUM_LEVELS ==> NumbersKeepFiles(edits, l)
  {
    hide FreshRun, Save, InstallAll, ApplyAll, NumbersKeepFiles;
    var w, v := Save(EmptyVersion(), ApplyAll(EmptyState(), edits)), InstallAll(EmptyVersion(), edits);
    forall l: nat | l < NUM_LEVELS ensures w[l] == v[l] <==> NumbersKeepFiles(edits, l) {
      ReplayExactIff(edits, l);
    }
    if forall l: nat :: l < NUM_LEVELS ==> NumbersKeepFiles(edits, l) {
      assert forall l :: 0 <= l < NUM_LEVELS ==> w[l] == v[l];
    }
  }

  /** Numbers that are never given back to a level are a special case. */
  lemma {:induction false} NeverReaddedKeepsFiles(edits: seq<VersionEdit>)
    requires AllLevelsValid(edits) && NeverReadded(EmptyVersion(), edits)
    ensures FreshRun(edits)
    ensures forall l: nat :: l < NUM_LEVELS ==> NumbersKeepFiles(edits, l)
  {
    hide NeverReadded, Save, InstallAll, ApplyAll, NumbersKeepFiles;
    EmptyIsOrdered();
    if edits != [] {
      NeverReaddedPrefix(EmptyVersion(), edits);
      var init := edits[..|edits| - 1];
      NeverReaddedKeepsFiles(init);
      ManifestReplayExact(EmptyVersion(), init);
      EditIsFresh(EmptyVersion(), edits, InstallAll(EmptyVersion(), init));
    }
    ManifestReplayExact(EmptyVersion(), edits);
    RecoveryExactIff(edits);
  }

  /** A file is added, deleted, and its number given to a file that starts elsewhere: recovery brings the first one
      back. */
  lemma ReaddedNumberRevivesFile(l: nat, f: File, g: File)
    requires l < NUM_LEVELS && g.number == f.number && f.smallest != g.smallest
    ensures var edits := AddDeleteAdd(l, f, g);
      && AllLevelsValid(edits) && FreshRun(edits)
      && f in Save(EmptyVersion(), ApplyAll(EmptyState(), edits))[l] && f !in InstallAll(EmptyVersion(), edits)[l]
  {
    hide Save, InstallAll, ApplyAll, FirstWithKey, FinallyLive, FreshRun, AddedBy;
    var edits := AddDeleteAdd(l, f, g);
    AddDeleteAddFacts(l, f, g);
    InstalledAreLive(edits, l);
    ReplayedMembers(edits, l);
    assert FinallyLive(edits, l, g);
  }

  lemma AddDeleteAddFacts(l: nat, f: File, g: File)
    requires l < NUM_LEVELS && g.number == f.number && f.smallest != g.smallest
    ensures var edits := AddDeleteAdd(l, f, g);
      && AllLevelsValid(edits) && FreshRun(edits) && AddedBy(edits) == [(l, f), (l, g)]
      && FirstWithKey([(l, f), (l, g)], l, f.number, f.smallest) == Some(f)
      && FinallyLive(edits, l, g) && !FinallyLive(edits, l, f)
  {
    hide Installed, FirstWithKey, NewNumbersDistinct;
    var edits := AddDeleteAdd(l, f, g);
    var one, two := edits[..1], edits[..2];
    assert edits[..2][..1] == one && one[..0] == [];
    OneNewFile(l, f);
    OneNewFile(l, g);
    assert FreshRun(one) by { assert forall h :: h !in EmptyVersion()[l]; }
    assert FreshRun(two);
    InstalledAreLive(two, l);
    assert forall h :: FinallyLive(one, l, h) <==> h == f;
    assert forall h :: FinallyLive(two, l, h) ==> false;
    assert AddedBy(one) == [(l, f)] && AddedBy(two) == [(l, f)];
    FirstOfPair(l, f, g);
  }

  lemma OneNewFile(l: nat, f: File)
    ensures NewNumbersDistinct([(l, f)]) && NewNumbersDistinct([])
  {
  }

  lemma FirstOfPair(l: nat, f: File, g: File)
    ensures FirstWithKey([(l, f), (l, g)], l, f.number, f.smallest) == Some(f)
  {
    assert [(l, f), (l, g)][..1] == [(l, f)];
    assert FirstWithKey([(l, f)], l, f.number, f.smallest) == Some(f);
  }

  function AddDeleteAdd(l: nat, f: File, g: File): seq<VersionEdit> {
    [EMPTY_EDIT.(newFiles := [(l, f)]), EMPTY_EDIT.(deletedFiles := {(l, f.number)}), EMPTY_EDIT.(newFiles := [(l, g)])]
  }
}
