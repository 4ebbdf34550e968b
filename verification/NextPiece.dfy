/** When exactly a compaction is noticed. */
module NextPiece {
  // A tombstone may be dropped when no level from two below on has its key (db/version_set.cc lines 1533-1552), while
  // the inputs of the next level are not closed under boundary files (lines 1403-1422). What readers notice is
  // decided by a single file: the piece of the key that follows the inputs.

  import opened DbFormat
  import opened Versions
  import opened DropRules
  import opened CompactionLoop
  import opened Picking
  import opened Setup
  import opened Steps

  /** A file of the next level left alone that goes on with a user key an input of that level ends with. */
  ghost predicate GoesOn(v: Version, level: nat, in1: seq<File>, u: UserKey, r: File)
    requires level + 1 < NUM_LEVELS
  {
    r in v[level + 1] && r !in in1 && exists f :: f in in1 && f.largest.user == u && IsBoundary(r, f.largest)
  }

  /** The first such file, the one AddBoundaryInputs would have added. */
  ghost predicate IsNextPiece(v: Version, level: nat, in1: seq<File>, u: UserKey, r: File)
    requires level + 1 < NUM_LEVELS
  {
    GoesOn(v, level, in1, u, r) && forall g :: GoesOn(v, level, in1, u, g) ==> LessEq(r.smallest, g.smallest)
  }

  /** A tombstone is dropped that every reader from `oldest` on sees, and the next piece of its key starts with a
      value. */
  ghost predicate Resurrects(v: Version, level: nat, in0: seq<File>, in1: seq<File>, oldest: Sequence, t: Entry)
    requires level + 1 < NUM_LEVELS
  {
    && t in InputEntries(in0, in1) && Obsolete(oldest, BaseLevelOf(v, level), t)
    && IsNewest(Entries(v), t.ikey.user, oldest, t)
    && exists r :: IsNextPiece(v, level, in1, t.ikey.user, r) && r.smallest.kind.Value?
  }

  /** Older entries of a dropped tombstone's key that stay are in files that go on with it. */
  lemma OlderGoesOn(v: Version, level: nat, in0: seq<File>, in1: seq<File>, t: Entry, e: Entry) returns (r: File)
    requires DeepLevelsSorted(v) && LevelsNewer(v) && Unique(Entries(v)) && Picked(v, level, in0, in1)
    requires t in InputEntries(in0, in1) && BaseLevel(v, level, t.ikey.user)
    requires e in RestEntries(v, level, in0, in1) && e.ikey.user == t.ikey.user && e.ikey.seqno <= t.ikey.seqno
    ensures GoesOn(v, level, in1, t.ikey.user, r) && ValidFile(r) && e in r.entries
  {
    hide LevelsNewer, Detached, OverlapsHull, NoDuplicates, Disjoint, BaseLevel;
    var l: nat;
    l, r :| l < NUM_LEVELS && r in v[l] && Remains(v, level, in0, in1, l, r) && e in r.entries;
    OlderNeedsSplit(v, level, in0, in1, t, l, r, e);
    var f :| f in in1 && t.ikey.user <= f.largest.user && IsBoundary(r, f.largest);
    FileBounds(r, e);
  }

  /** Such a file starts with an entry that stays and is no newer than any input entry of its key. */
  lemma PieceIsOlder(v: Version, level: nat, in0: seq<File>, in1: seq<File>, r: File, t: Entry)
    requires DeepLevelsSorted(v) && Picked(v, level, in0, in1)
    requires GoesOn(v, level, in1, t.ikey.user, r) && t in InputEntries(in0, in1)
    ensures ValidFile(r) && r.entries[0] in RestEntries(v, level, in0, in1)
    ensures r.entries[0].ikey.user == t.ikey.user && r.entries[0].ikey.seqno <= t.ikey.seqno
  {
    hide Detached, OverlapsHull, NoDuplicates, Disjoint, RestEntries;
    var s, l := PickedLocated(v, level, in0, in1);
    var f :| f in in1 && f.largest.user == t.ikey.user && IsBoundary(r, f.largest);
    InputBeside(v[level + 1], in0, in1, s, l, r, f, f.entries[|f.entries| - 1]);
    LessTransitive(f.largest, r.smallest, r.largest);
    var p, g := InputOrigin(v, level, in0, in1, t);
    InputBeside(v[level + 1], in0, in1, s, l, r, g, t);
    StaysInRest(v, level, in0, in1, r, r.entries[0]);
  }

  lemma StaysInRest(v: Version, level: nat, in0: seq<File>, in1: seq<File>, r: File, e: Entry)
    requires level + 1 < NUM_LEVELS && r in v[level + 1] && r !in in1 && e in r.entries
    ensures e in RestEntries(v, level, in0, in1)
  {
    assert Remains(v, level, in0, in1, level + 1, r);
  }

  lemma ExposedResurrects(v: Version, level: nat, in0: seq<File>, in1: seq<File>, oldest: Sequence, t: Entry)
    requires DeepLevelsSorted(v) && LevelsNewer(v) && Unique(Entries(v)) && Picked(v, level, in0, in1)
    requires Exposed(InputEntries(in0, in1), RestEntries(v, level, in0, in1), oldest, BaseLevelOf(v, level), t)
    ensures Resurrects(v, level, in0, in1, oldest, t)
  {
    hide DeepLevelsSorted, LevelsNewer, Picked, RestEntries, InputEntries, GoesOn, Entries;
    var rest, u := RestEntries(v, level, in0, in1), t.ikey.user;
    var _, _ := PickedLocated(v, level, in0, in1);
    EntriesSplit(v, level, in0, in1);
    var e := Newest(rest, u, oldest).value;
    assert IsNewest(rest, u, oldest, e) && Visible(e, u, oldest);
    var r := OlderGoesOn(v, level, in0, in1, t, e);
    PieceIsOlder(v, level, in0, in1, r, t);
    FileBounds(r, e);
    assert r.entries[0] == e;
    forall g | GoesOn(v, level, in1, u, g) ensures LessEq(r.smallest, g.smallest) {
      PieceIsOlder(v, level, in0, in1, g, t);
      assert Visible(g.entries[0], u, oldest);
    }
    assert IsNextPiece(v, level, in1, u, r);
  }

  lemma ResurrectsExposed(v: Version, level: nat, in0: seq<File>, in1: seq<File>, oldest: Sequence, t: Entry)
    requires DeepLevelsSorted(v) && LevelsNewer(v) && Unique(Entries(v)) && Picked(v, level, in0, in1)
    requires Resurrects(v, level, in0, in1, oldest, t)
    ensures Exposed(InputEntries(in0, in1), RestEntries(v, level, in0, in1), oldest, BaseLevelOf(v, level), t)
  {
    hide DeepLevelsSorted, LevelsNewer, Picked, RestEntries, InputEntries, GoesOn, Entries;
    var rest, u := RestEntries(v, level, in0, in1), t.ikey.user;
    var _, _ := PickedLocated(v, level, in0, in1);
    EntriesSplit(v, level, in0, in1);
    var r :| IsNextPiece(v, level, in1, u, r) && r.smallest.kind.Value?;
    PieceIsOlder(v, level, in0, in1, r, t);
    var first := r.entries[0];
    forall e | e in rest && Visible(e, u, oldest) ensures e.ikey.seqno <= first.ikey.seqno {
      var g := OlderGoesOn(v, level, in0, in1, t, e);
      FileBounds(g, e);
      LessTransitive(r.smallest, g.smallest, e.ikey);
    }
    assert IsNewest(rest, u, oldest, first);
    NewestIs(rest, u, oldest, first);
  }

  /** A compaction is invisible to every snapshot from the oldest on if and only if it drops no tombstone, seen by all
      of them, whose key goes on in a file left alone that starts with a value for it. */
  lemma NoticedIff(
      v: Version, level: nat, in0: seq<File>, in1: seq<File>, oldest: Sequence, outs: seq<File>, v': Version)
    requires Inv(v) && Picked(v, level, in0, in1)
    requires CompactionOutputs(v, level, in0, in1, oldest, outs) && Replaced(v, level, in0, in1, outs, v')
    ensures ReadsPreserved(Entries(v), Entries(v'), oldest) <==>
      !exists t :: Resurrects(v, level, in0, in1, oldest, t)
  {
    hide DeepLevelsSorted, LevelsNewer, Detached, OverlapsHull, CompactionOutputs, Replaced, ReadsPreserved, Exposed,
      Resurrects, Unique, NewestFirst, DistinctNumbers, LevelsOrdered;
    CompactionReadsIff(v, level, in0, in1, oldest, outs, v');
    var input, rest, base := InputEntries(in0, in1), RestEntries(v, level, in0, in1), BaseLevelOf(v, level);
    forall t ensures Exposed(input, rest, oldest, base, t) <==> Resurrects(v, level, in0, in1, oldest, t) {
      if Exposed(input, rest, oldest, base, t) { ExposedResurrects(v, level, in0, in1, oldest, t); }
      if Resurrects(v, level, in0, in1, oldest, t) { ResurrectsExposed(v, level, in0, in1, oldest, t); }
    }
  }
}
