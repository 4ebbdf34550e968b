/** Version edits and the builder that applies them (db/version_edit.h; db/version_set.cc lines 587-755): deletions and
    additions are gathered per level and merged into the base version in the end. */
module Builder {
  import opened Basics
  import opened DbFormat
  import opened Versions

  /** A delta between two versions, as logged in the manifest. */
  datatype VersionEdit = VersionEdit(
    comparator: Option<Bytes>,
    logNumber: Option<nat>,
    prevLogNumber: Option<nat>,
    nextFileNumber: Option<nat>,
    lastSequence: Option<nat>,
    compactPointers: seq<(nat, IKey)>,
    deletedFiles: set<(nat, nat)>,
    newFiles: seq<(nat, File)>)

  const EMPTY_EDIT := VersionEdit(None, None, None, None, None, [], {}, [])

  predicate ValidLevels(e: VersionEdit) {
    && (forall i :: 0 <= i < |e.compactPointers| ==> e.compactPointers[i].0 < NUM_LEVELS)
    && (forall d :: d in e.deletedFiles ==> d.0 < NUM_LEVELS)
    && (forall i :: 0 <= i < |e.newFiles| ==> e.newFiles[i].0 < NUM_LEVELS)
  }

  lemma KeyLessTransitive(f: File, g: File, h: File)
    requires KeyLess(f, g) && KeyLess(g, h)
    ensures KeyLess(f, h)
  {
  }

  // ---------- the set of added files ----------

  /** std::set::insert under BySmallestKey: a file with the key and number of a present one is not inserted. */
  function SetInsert(fs: seq<File>, f: File): (r: seq<File>)
    requires StrictlyOrdered(fs)
    ensures StrictlyOrdered(r)
    ensures forall g :: g in r ==> g in fs || g == f
    ensures forall g :: g in fs ==> g in r
    ensures (forall g :: g in fs ==> KeyLess(f, g) || KeyLess(g, f)) ==> f in r
    decreases |fs|
  {
    if fs == [] || KeyLess(f, fs[0]) then
      assert forall j :: 0 < j < |fs| ==> KeyLess(fs[0], fs[j]);
      [f] + fs
    else if KeyLess(fs[0], f) then
      var rest := SetInsert(fs[1..], f);
      assert fs == [fs[0]] + fs[1..];
      assert forall j :: 0 <= j < |rest| ==> rest[j] in rest;
      assert forall g :: g in fs[1..] ==> KeyLess(fs[0], g);
      [fs[0]] + rest
    else fs
  }

  // ---------- merging into the base files ----------

  /** Base files up to and including an added file's position come first. */
  function MergeFiles(base: seq<File>, added: seq<File>): seq<File>
    decreases |base| + |added|
  {
    if added == [] then base
    else if base != [] && !KeyLess(added[0], base[0]) then [base[0]] + MergeFiles(base[1..], added)
    else [added[0]] + MergeFiles(base, added[1..])
  }

  function DropDeleted(fs: seq<File>, deleted: set<nat>): seq<File> {
    if fs == [] then [] else
    (if fs[0].number in deleted then [] else [fs[0]]) + DropDeleted(fs[1..], deleted)
  }

  lemma {:induction false} MergeMembers(base: seq<File>, added: seq<File>)
    ensures forall f :: f in MergeFiles(base, added) <==> f in base || f in added
    decreases |base| + |added|
  {
    if added == [] {
    } else if base != [] && !KeyLess(added[0], base[0]) {
      MergeMembers(base[1..], added);
      assert base == [base[0]] + base[1..];
    } else {
      MergeMembers(base, added[1..]);
      assert added == [added[0]] + added[1..];
    }
  }

  lemma {:induction false} DropMembers(fs: seq<File>, deleted: set<nat>)
    ensures forall f :: f in DropDeleted(fs, deleted) <==> f in fs && f.number !in deleted
  {
    if fs != [] {
      DropMembers(fs[1..], deleted);
      assert fs == [fs[0]] + fs[1..];
    }
  }

  lemma StrictCons(f: File, fs: seq<File>)
    requires StrictlyOrdered(fs) && forall g :: g in fs ==> KeyLess(f, g)
    ensures StrictlyOrdered([f] + fs)
  {
    assert forall j :: 0 <= j < |fs| ==> fs[j] in fs;
  }

  /** Neither list holds a file with the key and number of one in the other. */
  ghost predicate Apart(base: seq<File>, added: seq<File>) {
    forall f, g :: f in base && g in added ==> KeyLess(f, g) || KeyLess(g, f)
  }

  lemma {:induction false} MergeOrdered(base: seq<File>, added: seq<File>)
    requires StrictlyOrdered(base) && StrictlyOrdered(added) && Apart(base, added)
    ensures StrictlyOrdered(MergeFiles(base, added))
    decreases |base| + |added|
  {
    if added == [] {
    } else if base != [] && !KeyLess(added[0], base[0]) {
      MergeOrdered(base[1..], added);
      MergeMembers(base[1..], added);
      assert KeyLess(base[0], added[0]);
      forall g | g in added ensures KeyLess(base[0], g) {
        var j :| 0 <= j < |added| && added[j] == g;
        if j > 0 { KeyLessTransitive(base[0], added[0], g); }
      }
      StrictCons(base[0], MergeFiles(base[1..], added));
    } else {
      MergeOrdered(base, added[1..]);
      MergeMembers(base, added[1..]);
      forall g | g in base ensures KeyLess(added[0], g) {
        var j :| 0 <= j < |base| && base[j] == g;
        if j > 0 { KeyLessTransitive(added[0], base[0], g); }
      }
      StrictCons(added[0], MergeFiles(base, added[1..]));
    }
  }

  lemma {:induction false} DropOrdered(fs: seq<File>, deleted: set<nat>)
    requires StrictlyOrdered(fs)
    ensures StrictlyOrdered(DropDeleted(fs, deleted))
  {
    if fs != [] {
      DropOrdered(fs[1..], deleted);
      DropMembers(fs[1..], deleted);
      if fs[0].number !in deleted { StrictCons(fs[0], DropDeleted(fs[1..], deleted)); }
    }
  }

  // ---------- the builder ----------

  datatype LevelState = LevelState(deleted: set<nat>, added: seq<File>)

  type BuilderState = s: seq<LevelState> | |s| == NUM_LEVELS witness seq(NUM_LEVELS, _ => LevelState({}, []))

  function EmptyState(): (s: BuilderState)
    ensures ValidState(s)
  {
    seq(NUM_LEVELS, _ => LevelState({}, []))
  }

  ghost predicate ValidState(s: BuilderState) {
    forall l :: 0 <= l < NUM_LEVELS ==> StrictlyOrdered(s[l].added)
  }

  function DeleteFiles(s: BuilderState, del: set<(nat, nat)>): BuilderState {
    seq(NUM_LEVELS, l requires 0 <= l < NUM_LEVELS => s[l].(deleted := s[l].deleted + NumbersAt(del, l)))
  }

  function NumbersAt(del: set<(nat, nat)>, level: nat): set<nat> {
    set d | d in del && d.0 == level :: d.1
  }

  function AddFile(s: BuilderState, level: nat, f: File): (r: BuilderState)
    requires ValidState(s) && level < NUM_LEVELS
    ensures ValidState(r)
  {
    s[level := LevelState(s[level].deleted - {f.number}, SetInsert(s[level].added, f))]
  }

  function AddFiles(s: BuilderState, files: seq<(nat, File)>): (r: BuilderState)
    requires ValidState(s) && forall i :: 0 <= i < |files| ==> files[i].0 < NUM_LEVELS
    ensures ValidState(r)
  {
    if files == [] then s
    else AddFile(AddFiles(s, files[..|files| - 1]), files[|files| - 1].0, files[|files| - 1].1)
  }

  /** Deletions of an edit are recorded before its additions. */
  function ApplyEdit(s: BuilderState, e: VersionEdit): (r: BuilderState)
    requires ValidState(s) && ValidLevels(e)
    ensures ValidState(r)
  {
    AddFiles(DeleteFiles(s, e.deletedFiles), e.newFiles)
  }

  function SaveLevel(base: Level, s: LevelState): Level {
    DropDeleted(MergeFiles(base, s.added), s.deleted)
  }

  function Save(base: Version, s: BuilderState): Version {
    seq(NUM_LEVELS, l requires 0 <= l < NUM_LEVELS => SaveLevel(base[l], s[l]))
  }

  lemma SaveLevelIs(base: Level, s: LevelState)
    requires StrictlyOrdered(base) && StrictlyOrdered(s.added) && Apart(base, s.added)
    ensures StrictlyOrdered(SaveLevel(base, s))
    ensures forall f :: f in SaveLevel(base, s) <==> (f in base || f in s.added) && f.number !in s.deleted
  {
    MergeOrdered(base, s.added);
    MergeMembers(base, s.added);
    DropOrdered(MergeFiles(base, s.added), s.deleted);
    DropMembers(MergeFiles(base, s.added), s.deleted);
  }

  /** VersionSet::Builder. */
  class VersionBuilder {
    const base: Version
    var levels: BuilderState
    var compactPointers: map<nat, IKey>

    constructor (base: Version, compactPointers: map<nat, IKey>)
      ensures this.base == base && levels == EmptyState() && this.compactPointers == compactPointers
    {
      this.base := base;
      this.compactPointers := compactPointers;
      levels := EmptyState();
    }

    method Apply(edit: VersionEdit)
      requires ValidState(levels) && ValidLevels(edit)
      modifies this
      ensures levels == ApplyEdit(old(levels), edit) && ValidState(levels)
      ensures compactPointers == SetPointers(old(compactPointers), edit.compactPointers)
    {
      for i := 0 to |edit.compactPointers|
        invariant levels == old(levels)
        invariant compactPointers == SetPointers(old(compactPointers), edit.compactPointers[..i])
      {
        compactPointers := compactPointers[edit.compactPointers[i].0 := edit.compactPointers[i].1];
        assert edit.compactPointers[..i + 1][..i] == edit.compactPointers[..i];
      }
      assert edit.compactPointers[..|edit.compactPointers|] == edit.compactPointers;

      var del := edit.deletedFiles;
      DeleteNone(levels);
      assert edit.deletedFiles - del == {};
      while del != {}
        invariant del <= edit.deletedFiles
        invariant levels == DeleteFiles(old(levels), edit.deletedFiles - del)
        invariant compactPointers == SetPointers(old(compactPointers), edit.compactPointers)
        decreases del
      {
        ghost var done := edit.deletedFiles - del;
        var d :| d in del;
        levels := levels[d.0 := levels[d.0].(deleted := levels[d.0].deleted + {d.1})];
        del := del - {d};
        assert edit.deletedFiles - del == done + {d};
        DeleteOne(old(levels), done, d);
      }
      assert edit.deletedFiles - {} == edit.deletedFiles;

      for i := 0 to |edit.newFiles|
        invariant ValidState(levels)
        invariant levels == AddFiles(DeleteFiles(old(levels), edit.deletedFiles), edit.newFiles[..i])
        invariant compactPointers == SetPointers(old(compactPointers), edit.compactPointers)
      {
        var level, f := edit.newFiles[i].0, edit.newFiles[i].1;
        levels := levels[level := LevelState(levels[level].deleted - {f.number}, SetInsert(levels[level].added, f))];
        assert edit.newFiles[..i + 1][..i] == edit.newFiles[..i];
      }
      assert edit.newFiles[..|edit.newFiles|] == edit.newFiles;
    }

    /** Merges the added files into the base files of every level and drops the deleted ones. */
    method SaveTo() returns (v: Version)
      requires forall l :: 0 <= l < NUM_LEVELS ==> StrictlyOrdered(base[l])
      ensures v == Save(base, levels)
    {
      var files: seq<Level> := [];
      for level := 0 to NUM_LEVELS
        invariant |files| == level
        invariant forall l :: 0 <= l < level ==> files[l] == SaveLevel(base[l], levels[l])
      {
        var merged := SaveOneLevel(level);
        files := files + [merged];
      }
      v := files;
    }

    method SaveOneLevel(level: nat) returns (files: Level)
      requires level < NUM_LEVELS && StrictlyOrdered(base[level])
      ensures files == SaveLevel(base[level], levels[level])
    {
      hide MergeFiles, DropDeleted, MaybeAddFile, StrictlyOrdered, KeyLess;
      files := [];
      var baseFiles, added, deleted := base[level], levels[level].added, levels[level].deleted;
      var iter := 0;
      assert files + Unsaved(baseFiles[0..], added[0..], deleted) == SaveLevel(baseFiles, levels[level]);
      for a := 0 to |added|
        invariant iter <= |baseFiles|
        invariant files + Unsaved(baseFiles[iter..], added[a..], deleted) == SaveLevel(baseFiles, levels[level])
      {
        // std::upper_bound: base files not after the added one
        while iter < |baseFiles| && !KeyLess(added[a], baseFiles[iter])
          invariant iter <= |baseFiles|
          invariant files + Unsaved(baseFiles[iter..], added[a..], deleted) == SaveLevel(baseFiles, levels[level])
          decreases |baseFiles| - iter
        {
          TakeBase(baseFiles, iter, added, a, deleted, files);
          files := MaybeAddFile(files, deleted, baseFiles[iter]);
          iter := iter + 1;
        }
        TakeAdded(baseFiles, iter, added, a, deleted, files);
        files := MaybeAddFile(files, deleted, added[a]);
      }
      while iter < |baseFiles|
        invariant iter <= |baseFiles|
        invariant files + Unsaved(baseFiles[iter..], added[|added|..], deleted) == SaveLevel(baseFiles, levels[level])
        decreases |baseFiles| - iter
      {
        TakeBase(baseFiles, iter, added, |added|, deleted, files);
        files := MaybeAddFile(files, deleted, baseFiles[iter]);
        iter := iter + 1;
      }
      NothingUnsaved(baseFiles[iter..], added[|added|..], deleted);
    }
  }

  /** What a level still lacks when the files before these have been written out. */
  function Unsaved(base: seq<File>, added: seq<File>, deleted: set<nat>): seq<File> {
    DropDeleted(MergeFiles(base, added), deleted)
  }

  lemma NothingUnsaved(base: seq<File>, added: seq<File>, deleted: set<nat>)
    requires base == [] && added == []
    ensures Unsaved(base, added, deleted) == []
  {
  }

  lemma TakeBase(base: seq<File>, i: nat, added: seq<File>, a: nat, deleted: set<nat>, files: Level)
    requires i < |base| && a <= |added| && (a < |added| ==> !KeyLess(added[a], base[i]))
    ensures files + Unsaved(base[i..], added[a..], deleted)
      == MaybeAddFile(files, deleted, base[i]) + Unsaved(base[i + 1..], added[a..], deleted)
  {
    assert base[i..][1..] == base[i + 1..];
    assert MergeFiles(base[i..], added[a..]) == [base[i]] + MergeFiles(base[i + 1..], added[a..]) by {
      if a == |added| { assert base[i..] == [base[i]] + base[i + 1..]; }
    }
    DropStep(MergeFiles(base[i..], added[a..]), deleted, files);
  }

  lemma TakeAdded(base: seq<File>, i: nat, added: seq<File>, a: nat, deleted: set<nat>, files: Level)
    requires i <= |base| && a < |added| && (i < |base| ==> KeyLess(added[a], base[i]))
    ensures files + Unsaved(base[i..], added[a..], deleted)
      == MaybeAddFile(files, deleted, added[a]) + Unsaved(base[i..], added[a + 1..], deleted)
  {
    assert added[a..][1..] == added[a + 1..];
    DropStep(MergeFiles(base[i..], added[a..]), deleted, files);
  }

  function MaybeAddFile(files: Level, deleted: set<nat>, f: File): Level {
    if f.number in deleted then files else files + [f]
  }

  lemma DropStep(fs: seq<File>, deleted: set<nat>, files: Level)
    requires fs != []
    ensures files + DropDeleted(fs, deleted) == MaybeAddFile(files, deleted, fs[0]) + DropDeleted(fs[1..], deleted)
  {
    assert files + ([fs[0]] + DropDeleted(fs[1..], deleted)) == (files + [fs[0]]) + DropDeleted(fs[1..], deleted);
  }

  lemma DeleteOne(s: BuilderState, done: set<(nat, nat)>, d: (nat, nat))
    requires d.0 < NUM_LEVELS
    ensures var t := DeleteFiles(s, done);
      DeleteFiles(s, done + {d}) == t[d.0 := t[d.0].(deleted := t[d.0].deleted + {d.1})]
  {
    forall l | 0 <= l < NUM_LEVELS
      ensures NumbersAt(done + {d}, l) == NumbersAt(done, l) + (if l == d.0 then {d.1} else {})
    {
      if l == d.0 { assert d in done + {d}; }
      forall n | n in NumbersAt(done + {d}, l) ensures n in NumbersAt(done, l) + (if l == d.0 then {d.1} else {}) {
        var x :| x in done + {d} && x.0 == l && x.1 == n;
      }
      forall n | n in NumbersAt(done, l) ensures n in NumbersAt(done + {d}, l) {
        var x :| x in done && x.0 == l && x.1 == n;
        assert x in done + {d};
      }
    }
    var t := DeleteFiles(s, done);
    assert t[d.0].deleted + {d.1} == s[d.0].deleted + NumbersAt(done + {d}, d.0);
    forall l | 0 <= l < NUM_LEVELS
      ensures DeleteFiles(s, done + {d})[l] == t[d.0 := t[d.0].(deleted := t[d.0].deleted + {d.1})][l]
    {
      if l != d.0 { assert NumbersAt(done + {d}, l) == NumbersAt(done, l); }
    }
  }

  lemma DeleteNone(s: BuilderState)
    ensures DeleteFiles(s, {}) == s
  {
    forall l | 0 <= l < NUM_LEVELS ensures DeleteFiles(s, {})[l] == s[l] {
      assert s[l].deleted + NumbersAt({}, l) == s[l].deleted;
    }
  }

  function SetPointers(ptrs: map<nat, IKey>, updates: seq<(nat, IKey)>): map<nat, IKey> {
    if updates == [] then ptrs
    else SetPointers(ptrs, updates[..|updates| - 1])[updates[|updates| - 1].0 := updates[|updates| - 1].1]
  }
}
