/** Replaying the manifest through one builder: all edits applied to one builder against a version built after every
    edit (db/version_set.cc lines 650-754, 886-1000, 1086-1117). */
module Manifest {
  import opened DbFormat
  import opened Versions
  import opened Builder
  import opened Install

  function EmptyVersion(): Version {
    seq(NUM_LEVELS, _ => [])
  }

  predicate AllLevelsValid(edits: seq<VersionEdit>) {
    forall i :: 0 <= i < |edits| ==> ValidLevels(edits[i])
  }

  /** One builder through all edits. */
  function ApplyAll(s: BuilderState, edits: seq<VersionEdit>): (r: BuilderState)
    requires ValidState(s) && AllLevelsValid(edits)
    ensures ValidState(r)
  {
    if edits == [] then s else ApplyEdit(ApplyAll(s, edits[..|edits| - 1]), edits[|edits| - 1])
  }

  /** A new version after every edit, as LogAndApply installs them. */
  function InstallAll(v: Version, edits: seq<VersionEdit>): Version
    requires AllLevelsValid(edits)
  {
    if edits == [] then v else Installed(InstallAll(v, edits[..|edits| - 1]), edits[|edits| - 1])
  }

  function AddedBy(edits: seq<VersionEdit>): seq<(nat, File)> {
    if edits == [] then [] else AddedBy(edits[..|edits| - 1]) + edits[|edits| - 1].newFiles
  }

  /** No edit gives a level a file number that the level has held before. */
  ghost predicate NeverReadded(v: Version, edits: seq<VersionEdit>)
    requires AllLevelsValid(edits)
  {
    && NewNumbersDistinct(AddedBy(edits))
    && forall l, f, g :: 0 <= l < NUM_LEVELS && (l, f) in AddedBy(edits) && g in v[l] ==> f.number != g.number
  }

  // ---------- lists of files ----------

  /** A level is determined by which files it holds. */
  lemma {:induction false} SameMembers(a: seq<File>, b: seq<File>)
    requires StrictlyOrdered(a) && StrictlyOrdered(b) && forall f :: f in a <==> f in b
    ensures a == b
    decreases |a|
  {
    if a == [] {
      EmptyOrNot(b);
    } else {
      assert a[0] in a && b != [] && b[0] in b;
      FirstIsLeast(a, b[0]);
      FirstIsLeast(b, a[0]);
      forall f ensures f in a[1..] <==> f in b[1..] {
        TailMembers(a, f);
        TailMembers(b, f);
      }
      SameMembers(a[1..], b[1..]);
      assert a == [a[0]] + a[1..] && b == [b[0]] + b[1..];
    }
  }

  lemma EmptyOrNot(b: seq<File>)
    ensures b == [] || exists f :: f in b
  {
    if b != [] { assert b[0] in b; }
  }

  lemma FirstIsLeast(a: seq<File>, f: File)
    requires StrictlyOrdered(a) && f in a
    ensures a[0] == f || KeyLess(a[0], f)
  {
  }

  lemma TailMembers(a: seq<File>, f: File)
    requires StrictlyOrdered(a) && a != []
    ensures f in a[1..] <==> f in a && f != a[0]
  {
    assert a == [a[0]] + a[1..];
    if f in a[1..] {
      var i :| 0 <= i < |a[1..]| && a[1..][i] == f;
      assert KeyLess(a[0], a[i + 1]);
    }
  }

  // ---------- the builder's state after several edits ----------

  lemma AllPrefix(edits: seq<VersionEdit>)
    requires AllLevelsValid(edits) && edits != []
    ensures AllLevelsValid(edits[..|edits| - 1]) && ValidLevels(edits[|edits| - 1])
  {
  }

  lemma NeverReaddedPrefix(v: Version, edits: seq<VersionEdit>)
    requires AllLevelsValid(edits) && edits != [] && NeverReadded(v, edits)
    ensures AllLevelsValid(edits[..|edits| - 1]) && NeverReadded(v, edits[..|edits| - 1])
  {
    AllPrefix(edits);
    DistinctPrefix(AddedBy(edits[..|edits| - 1]), edits[|edits| - 1].newFiles);
  }

  lemma DistinctPrefix(a: seq<(nat, File)>, b: seq<(nat, File)>)
    requires NewNumbersDistinct(a + b)
    ensures NewNumbersDistinct(a) && NewNumbersDistinct(b)
    ensures forall l, f, g :: (l, f) in a && (l, g) in b ==> f.number != g.number
  {
    var all := a + b;
    assert forall i :: 0 <= i < |a| ==> all[i] == a[i];
    assert forall i :: 0 <= i < |b| ==> all[|a| + i] == b[i];
    forall l, f, g | (l, f) in a && (l, g) in b ensures f.number != g.number {
      var i :| 0 <= i < |a| && a[i] == (l, f);
      var j :| 0 <= j < |b| && b[j] == (l, g);
      assert all[i] == (l, f) && all[|a| + j] == (l, g);
    }
  }

  lemma ApplyMembers(s: BuilderState, earlier: seq<(nat, File)>, e: VersionEdit)
    requires ValidState(s) && AddedAre(s, earlier) && ValidLevels(e) && NewNumbersDistinct(earlier + e.newFiles)
    ensures AddedAre(ApplyEdit(s, e), earlier + e.newFiles)
    ensures forall l :: 0 <= l < NUM_LEVELS ==>
      ApplyEdit(s, e)[l].deleted == s[l].deleted + NumbersAt(e.deletedFiles, l) - NewNumbers(e.newFiles, l)
  {
    hide NewNumbersDistinct, NewNumbers, NumbersAt;
    var s0 := DeleteFiles(s, e.deletedFiles);
    assert AddedAre(s0, earlier) by { DeleteKeepsAdded(s, e.deletedFiles, earlier); }
    AddFilesMembers(s0, earlier, e.newFiles);
    forall l | 0 <= l < NUM_LEVELS
      ensures AddFiles(s0, e.newFiles)[l].deleted == s0[l].deleted - NewNumbers(e.newFiles, l)
    {
      AddFilesDeleted(s0, e.newFiles, l);
    }
  }

  lemma DeleteKeepsAdded(s: BuilderState, del: set<(nat, nat)>, earlier: seq<(nat, File)>)
    requires AddedAre(s, earlier)
    ensures AddedAre(DeleteFiles(s, del), earlier)
  {
  }

  lemma {:induction false} ApplyAllMembers(v: Version, edits: seq<VersionEdit>)
    requires AllLevelsValid(edits) && NeverReadded(v, edits)
    ensures ValidState(EmptyState()) && AddedAre(ApplyAll(EmptyState(), edits), AddedBy(edits))
  {
    hide NewNumbers;
    EmptyIsValid({});
    if edits != [] {
      NeverReaddedPrefix(v, edits);
      ApplyAllMembers(v, edits[..|edits| - 1]);
      ApplyMembers(ApplyAll(EmptyState(), edits[..|edits| - 1]), AddedBy(edits[..|edits| - 1]), edits[|edits| - 1]);
    }
  }

  lemma LevelApart(base: Level, l: nat, added: seq<File>, files: seq<(nat, File)>)
    requires forall f :: f in added <==> (l, f) in files
    requires forall f, g :: (l, f) in files && g in base ==> f.number != g.number
    ensures Apart(base, added)
  {
  }

  /** What one builder saves at a level after the edits so far. */
  lemma SavedMembers(v: Version, edits: seq<VersionEdit>, l: nat)
    requires AllLevelsValid(edits) && NeverReadded(v, edits) && l < NUM_LEVELS && StrictlyOrdered(v[l])
    ensures ValidState(EmptyState())
    ensures var s := ApplyAll(EmptyState(), edits);
      && StrictlyOrdered(Save(v, s)[l])
      && forall f :: f in Save(v, s)[l] <==> (f in v[l] || (l, f) in AddedBy(edits)) && f.number !in s[l].deleted
  {
    hide NewNumbersDistinct, StrictlyOrdered;
    EmptyIsValid({});
    ApplyAllMembers(v, edits);
    var s := ApplyAll(EmptyState(), edits);
    LevelApart(v[l], l, s[l].added, AddedBy(edits));
    SaveLevelIs(v[l], s[l]);
    SavedLevel(v, s, l);
  }

  /** Deleting and adding on top of a saved version and continuing with the same builder agree about a file. */
  lemma OneMoreEdit(v: Version, edits: seq<VersionEdit>, l: nat, f: File)
    requires AllLevelsValid(edits) && edits != [] && NeverReadded(v, edits) && l < NUM_LEVELS
    requires ValidState(EmptyState())
    ensures var init, e := edits[..|edits| - 1], edits[|edits| - 1];
      AllLevelsValid(init) &&
      var s, s' := ApplyAll(EmptyState(), init), ApplyAll(EmptyState(), edits);
      ((f in v[l] || (l, f) in AddedBy(edits)) && f.number !in s'[l].deleted
       <==> ((f in v[l] || (l, f) in AddedBy(init)) && f.number !in s[l].deleted && (l, f.number) !in e.deletedFiles)
            || (l, f) in e.newFiles)
  {
    hide NewNumbersDistinct, NewNumbers, NumbersAt;
    var init, e := edits[..|edits| - 1], edits[|edits| - 1];
    NeverReaddedPrefix(v, edits);
    ApplyAllMembers(v, init);
    ApplyMembers(ApplyAll(EmptyState(), init), AddedBy(init), e);
    NumberAt(e.deletedFiles, l, f.number);
    assert AddedBy(edits) == AddedBy(init) + e.newFiles;
    DistinctPrefix(AddedBy(init), e.newFiles);
    NewNumberOf(e.newFiles, l, f);
    if f in v[l] || (l, f) in AddedBy(init) {
      NotNewNumber(v, AddedBy(init), e.newFiles, l, f);
    }
  }

  lemma NewNumberOf(files: seq<(nat, File)>, l: nat, f: File)
    ensures (l, f) in files ==> f.number in NewNumbers(files, l)
  {
    if (l, f) in files {
      var i :| 0 <= i < |files| && files[i] == (l, f);
    }
  }

  lemma NotNewNumber(v: Version, earlier: seq<(nat, File)>, files: seq<(nat, File)>, l: nat, f: File)
    requires l < NUM_LEVELS && (f in v[l] || (l, f) in earlier)
    requires forall l, f, g :: (l, f) in earlier && (l, g) in files ==> f.number != g.number
    requires forall l, f, g :: 0 <= l < NUM_LEVELS && (l, f) in earlier + files && g in v[l] ==> f.number != g.number
    ensures f.number !in NewNumbers(files, l)
  {
    forall i | 0 <= i < |files| && files[i].0 == l ensures files[i].1.number != f.number {
      assert (l, files[i].1) in files;
      assert (l, files[i].1) in earlier + files;
    }
  }

  /** Applying all edits to one builder and saving once gives exactly the version that installing them one by one
      gives. */
  lemma {:induction false} ManifestReplayExact(v: Version, edits: seq<VersionEdit>)
    requires LevelsOrdered(v) && AllLevelsValid(edits) && NeverReadded(v, edits)
    ensures ValidState(EmptyState())
    ensures Save(v, ApplyAll(EmptyState(), edits)) == InstallAll(v, edits) && LevelsOrdered(InstallAll(v, edits))
    decreases |edits|
  {
    hide NewNumbersDistinct, StrictlyOrdered, Save, ApplyAll, Installed;
    EmptyIsValid({});
    var w := Save(v, ApplyAll(EmptyState(), edits));
    if edits == [] {
      forall l | 0 <= l < NUM_LEVELS ensures w[l] == v[l] {
        EmptyEdits(v, l);
      }
    } else {
      var init, e := edits[..|edits| - 1], edits[|edits| - 1];
      NeverReaddedPrefix(v, edits);
      ManifestReplayExact(v, init);
      var mid := InstallAll(v, init);
      EditIsFresh(v, edits, mid);
      InstalledMembers(mid, e);
      forall l | 0 <= l < NUM_LEVELS ensures w[l] == Installed(mid, e)[l] {
        LastEditAgrees(v, edits, mid, l);
      }
    }
  }

  lemma EmptyEdits(v: Version, l: nat)
    requires l < NUM_LEVELS && ValidState(EmptyState())
    ensures Save(v, ApplyAll(EmptyState(), []))[l] == v[l]
  {
    DropNone(v[l]);
  }

  lemma {:induction false} DropNone(fs: Level)
    ensures DropDeleted(fs, {}) == fs
  {
    if fs != [] {
      DropNone(fs[1..]);
      assert fs == [fs[0]] + fs[1..];
    }
  }

  lemma EditIsFresh(v: Version, edits: seq<VersionEdit>, mid: Version)
    requires AllLevelsValid(edits) && edits != [] && NeverReadded(v, edits) && LevelsOrdered(v)
    requires AllLevelsValid(edits[..|edits| - 1]) && ValidState(EmptyState())
    requires mid == Save(v, ApplyAll(EmptyState(), edits[..|edits| - 1]))
    ensures ValidLevels(edits[|edits| - 1]) && NewNumbersDistinct(edits[|edits| - 1].newFiles)
    ensures FreshNumbers(mid, edits[|edits| - 1])
  {
    hide Save, ApplyAll, NewNumbersDistinct, StrictlyOrdered;
    var init, e := edits[..|edits| - 1], edits[|edits| - 1];
    NeverReaddedPrefix(v, edits);
    DistinctPrefix(AddedBy(init), e.newFiles);
    forall i, g | 0 <= i < |e.newFiles| && g in mid[e.newFiles[i].0] ensures g.number != e.newFiles[i].1.number {
      var (l, f) := e.newFiles[i];
      SavedMembers(v, init, l);
      assert (l, f) in e.newFiles;
      assert (l, f) in AddedBy(init) + e.newFiles;
    }
  }

  lemma LastEditAgrees(v: Version, edits: seq<VersionEdit>, mid: Version, l: nat)
    requires AllLevelsValid(edits) && edits != [] && NeverReadded(v, edits) && l < NUM_LEVELS && StrictlyOrdered(v[l])
    requires AllLevelsValid(edits[..|edits| - 1]) && ValidState(EmptyState()) && ValidLevels(edits[|edits| - 1])
    requires mid == Save(v, ApplyAll(EmptyState(), edits[..|edits| - 1]))
    requires StrictlyOrdered(Installed(mid, edits[|edits| - 1])[l])
    requires forall f :: f in Installed(mid, edits[|edits| - 1])[l] <==>
      (f in mid[l] && (l, f.number) !in edits[|edits| - 1].deletedFiles) || (l, f) in edits[|edits| - 1].newFiles
    ensures Save(v, ApplyAll(EmptyState(), edits))[l] == Installed(mid, edits[|edits| - 1])[l]
  {
    hide Save, ApplyAll, NewNumbersDistinct, StrictlyOrdered, Installed, AddedBy;
    var init, e := edits[..|edits| - 1], edits[|edits| - 1];
    NeverReaddedPrefix(v, edits);
    SavedMembers(v, edits, l);
    SavedMembers(v, init, l);
    var one, many := Installed(mid, e)[l], Save(v, ApplyAll(EmptyState(), edits))[l];
    forall f ensures f in many <==> f in one {
      OneMoreEdit(v, edits, l, f);
    }
    SameMembers(many, one);
  }
}
