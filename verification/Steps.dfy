/** Changing a version. */
module Steps {
  // What installing a flush, a move or a compaction does to it: the invariants survive, and readers notice nothing
  // (db/version_set.cc lines 695-754; db/db_impl.cc lines 535-566, 718-733, 860-963).

  import opened Basics
  import opened DbFormat
  import opened Versions
  import opened DropRules
  import opened CompactionLoop
  import opened Picking
  import opened Setup

  /** `v'` is `v` without the inputs of a compaction at `level` and with `outs` at the next level. */
  ghost predicate Replaced(v: Version, level: nat, in0: seq<File>, in1: seq<File>, outs: seq<File>, v': Version) {
    && (forall l :: 0 <= l < NUM_LEVELS ==> StrictlyOrdered(v'[l]))
    && (forall l, f :: 0 <= l < NUM_LEVELS ==>
         (f in v'[l] <==> Remains(v, level, in0, in1, l, f) || (l == level + 1 && f in outs)))
  }

  /** File `f` of level `l` is not among the inputs. */
  ghost predicate Remains(v: Version, level: nat, in0: seq<File>, in1: seq<File>, l: nat, f: File)
    requires l < NUM_LEVELS
  {
    && f in v[l]
    && (l == level ==> f !in in0)
    && (l == level + 1 ==> f !in in1)
  }

  ghost function InputEntries(in0: seq<File>, in1: seq<File>): set<Entry> {
    EntriesOf(in0) + EntriesOf(in1)
  }

  ghost function RestEntries(v: Version, level: nat, in0: seq<File>, in1: seq<File>): set<Entry> {
    set l, f, e | 0 <= l < NUM_LEVELS && f in v[l] && Remains(v, level, in0, in1, l, f) && e in f.entries :: e
  }

  /** Where the inputs come from. */
  ghost predicate Located(v: Version, level: nat, in0: seq<File>, in1: seq<File>) {
    && level + 1 < NUM_LEVELS
    && (forall f :: f in in0 ==> f in v[level])
    && (forall f :: f in in1 ==> f in v[level + 1])
  }

  lemma PickedLocated(v: Version, level: nat, in0: seq<File>, in1: seq<File>) returns (s: IKey, l: IKey)
    requires Picked(v, level, in0, in1)
    ensures Located(v, level, in0, in1) && HullOf(v[level + 1], in0, in1, s, l)
  {
    s, l :| HullOf(v[level + 1], in0, in1, s, l);
    FilterMembers(v[level + 1], Range(Some(s.user), Some(l.user)));
  }

  /** An input entry with the file and level it comes from. */
  ghost predicate From(v: Version, level: nat, in0: seq<File>, in1: seq<File>, e: Entry, l: nat, f: File) {
    && e in f.entries
    && ((l == level && f in in0) || (l == level + 1 && f in in1))
  }

  lemma InputOrigin(v: Version, level: nat, in0: seq<File>, in1: seq<File>, e: Entry) returns (l: nat, f: File)
    requires e in InputEntries(in0, in1)
    ensures From(v, level, in0, in1, e, l, f)
  {
    if e in EntriesOf(in0) {
      l, f := level, FileWith(in0, e);
    } else {
      l, f := level + 1, FileWith(in1, e);
    }
  }

  ghost function FileWith(fs: seq<File>, e: Entry): (f: File)
    requires e in EntriesOf(fs)
    ensures f in fs && e in f.entries
  {
    var f :| f in fs && e in f.entries; f
  }

  ghost function LevelWith(v: Version, e: Entry): (l: nat)
    requires e in Entries(v)
    ensures l < NUM_LEVELS && e in EntriesOf(v[l])
  {
    var l :| 0 <= l < NUM_LEVELS && e in EntriesOf(v[l]); l
  }

  lemma EntriesSplit(v: Version, level: nat, in0: seq<File>, in1: seq<File>)
    requires Located(v, level, in0, in1)
    ensures Entries(v) == InputEntries(in0, in1) + RestEntries(v, level, in0, in1)
  {
    forall e | e in InputEntries(in0, in1) ensures e in Entries(v) {
      var l, f := InputOrigin(v, level, in0, in1, e);
      EntryOf(v, l, f, e);
    }
    forall e | e in Entries(v) ensures e in InputEntries(in0, in1) + RestEntries(v, level, in0, in1) {
      var l := LevelWith(v, e);
      var f := FileWith(v[l], e);
      if Remains(v, level, in0, in1, l, f) { assert e in RestEntries(v, level, in0, in1); }
    }
    forall e | e in RestEntries(v, level, in0, in1) ensures e in Entries(v) {
      var l, f :| 0 <= l < NUM_LEVELS && f in v[l] && Remains(v, level, in0, in1, l, f) && e in f.entries;
      EntryOf(v, l, f, e);
    }
  }

  lemma EntriesAfter(v: Version, level: nat, in0: seq<File>, in1: seq<File>, outs: seq<File>, v': Version)
    requires level + 1 < NUM_LEVELS && Replaced(v, level, in0, in1, outs, v')
    ensures Entries(v') == RestEntries(v, level, in0, in1) + EntriesOf(outs)
  {
    forall e | e in Entries(v') ensures e in RestEntries(v, level, in0, in1) + EntriesOf(outs) {
      var l := LevelWith(v', e);
      var f := FileWith(v'[l], e);
      if Remains(v, level, in0, in1, l, f) { assert e in RestEntries(v, level, in0, in1); }
    }
    forall e | e in RestEntries(v, level, in0, in1) ensures e in Entries(v') {
      var l, f :| 0 <= l < NUM_LEVELS && f in v[l] && Remains(v, level, in0, in1, l, f) && e in f.entries;
      EntryOf(v', l, f, e);
    }
    forall e | e in EntriesOf(outs) ensures e in Entries(v') {
      EntryOf(v', level + 1, FileWith(outs, e), e);
    }
  }

  // ---------- order between inputs and what stays ----------

  /** A file of the next level left alone lies entirely before or entirely after all inputs. */
  lemma InputBeside(next: Level, in0: seq<File>, in1: seq<File>, s: IKey, l: IKey, r: File, f: File, e: Entry)
    requires ValidFiles(next) && Disjoint(next) && HullOf(next, in0, in1, s, l)
    requires r in next && r !in in1
    requires ValidFile(f) && (f in in0 || f in in1) && e in f.entries
    ensures if r.smallest.user > l.user then Less(e.ikey, r.smallest) else Less(r.largest, e.ikey)
  {
    var hull := Range(Some(s.user), Some(l.user));
    FilterMembers(next, hull);
    HullCoversUsers(in0, s, l);
    FileBounds(r, r.entries[0]);
    FileBounds(f, e);
    if f in in1 {
      var i :| 0 <= i < |next| && next[i] == f;
      var j :| 0 <= j < |next| && next[j] == r;
      if i < j {
        LessTransitive(e.ikey, f.largest, r.smallest);
      } else {
        LessTransitive(r.largest, f.smallest, e.ikey);
      }
    }
  }

  lemma Level0Apart(files: Level, in0: seq<File>, f: File, g: File)
    requires Detached(files, 0, in0) && f in in0 && g in files && g !in in0
    ensures !UserOverlap(f, g)
  {
    var r: Range :| CutOff(files, in0, r);
    assert Within(f, r) && !InRange(g, r);
  }

  /** At one level, what stays is newer than every input entry of the same key. */
  lemma DetachedNewer(files: Level, level: nat, in0: seq<File>, f: File, g: File, y: Entry, x: Entry)
    requires ValidFiles(files) && (level > 0 ==> Disjoint(files)) && Detached(files, level, in0)
    requires f in files && f in in0 && g in files && g !in in0
    requires y in f.entries && x in g.entries && x.ikey.user == y.ikey.user
    requires x.ikey.seqno == y.ikey.seqno ==> x == y
    ensures x.ikey.seqno > y.ikey.seqno
  {
    FileBounds(f, y);
    FileBounds(g, x);
    if level == 0 {
      Level0Apart(files, in0, f, g);
    } else {
      var i :| 0 <= i < |files| && files[i] == f;
      var j :| 0 <= j < |files| && files[j] == g;
      assert !IsBoundary(g, f.largest);
      assert j < i;
      DisjointOrder(files, j, i, x, y);
    }
  }

  lemma StayingIsNewer(
      v: Version, level: nat, in0: seq<File>, in1: seq<File>, g: File, x: Entry, l: nat, f: File, y: Entry)
    requires DeepLevelsSorted(v) && LevelsNewer(v) && Unique(Entries(v))
    requires Located(v, level, in0, in1) && Detached(v[level], level, in0)
    requires g in v[level] && g !in in0 && x in g.entries
    requires From(v, level, in0, in1, y, l, f) && x.ikey.user == y.ikey.user
    ensures x.ikey.seqno > y.ikey.seqno
  {
    if l == level + 1 {
      NewerAcross(v, level, level + 1, g, f, x, y);
    } else {
      EntryOf(v, level, f, y);
      EntryOf(v, level, g, x);
      DetachedNewer(v[level], level, in0, f, g, y, x);
    }
  }

  // ---------- the invariants survive ----------

  /** Every entry of the outputs comes from an input file. */
  ghost predicate MadeOf(outs: seq<File>, in0: seq<File>, in1: seq<File>) {
    EntriesOf(outs) <= InputEntries(in0, in1)
  }

  lemma OutputOrigin(v: Version, level: nat, in0: seq<File>, in1: seq<File>, outs: seq<File>, o: File, e: Entry)
      returns (l: nat, f: File)
    requires MadeOf(outs, in0, in1) && o in outs && e in o.entries
    ensures From(v, level, in0, in1, e, l, f)
  {
    assert e in EntriesOf(outs);
    l, f := InputOrigin(v, level, in0, in1, e);
  }

  lemma PairwiseDisjoint(fs: Level)
    requires ValidFiles(fs) && StrictlyOrdered(fs)
    requires forall f, g :: f in fs && g in fs && f != g ==> Less(f.largest, g.smallest) || Less(g.largest, f.smallest)
    ensures Disjoint(fs)
  {
    forall i, j | 0 <= i < j < |fs| ensures Less(fs[i].largest, fs[j].smallest) {
      assert KeyLess(fs[i], fs[j]);
      FileBounds(fs[i], fs[i].entries[0]);
      FileBounds(fs[j], fs[j].entries[0]);
      NotLessUpward(fs[j].smallest, fs[j].largest, fs[i].smallest);
    }
  }

  lemma OutputBesideRest(
      next: Level, in0: seq<File>, in1: seq<File>, s: IKey, l: IKey, r: File, o: File, f: File, g: File)
    requires ValidFiles(next) && Disjoint(next) && HullOf(next, in0, in1, s, l)
    requires r in next && r !in in1 && ValidFile(o)
    requires ValidFile(f) && (f in in0 || f in in1) && o.entries[0] in f.entries
    requires ValidFile(g) && (g in in0 || g in in1) && o.entries[|o.entries| - 1] in g.entries
    ensures Less(o.largest, r.smallest) || Less(r.largest, o.smallest)
  {
    InputBeside(next, in0, in1, s, l, r, f, o.entries[0]);
    InputBeside(next, in0, in1, s, l, r, g, o.entries[|o.entries| - 1]);
  }

  lemma OutputBeside(v: Version, level: nat, in0: seq<File>, in1: seq<File>, s: IKey, l: IKey,
                     outs: seq<File>, o: File, r: File)
    requires DeepLevelsSorted(v) && Located(v, level, in0, in1) && HullOf(v[level + 1], in0, in1, s, l)
    requires MadeOf(outs, in0, in1) && o in outs && ValidFile(o) && r in v[level + 1] && r !in in1
    ensures Less(o.largest, r.smallest) || Less(r.largest, o.smallest)
  {
    var p, f := OutputOrigin(v, level, in0, in1, outs, o, o.entries[0]);
    var q, g := OutputOrigin(v, level, in0, in1, outs, o, o.entries[|o.entries| - 1]);
    assert f in v[p] && g in v[q];
    OutputBesideRest(v[level + 1], in0, in1, s, l, r, o, f, g);
  }

  lemma OutputLevelDisjoint(next: Level, in1: seq<File>, outs: seq<File>, fs: Level)
    requires ValidFiles(next) && Disjoint(next) && ValidFiles(outs) && Disjoint(outs)
    requires StrictlyOrdered(fs) && forall f :: f in fs ==> (f in next && f !in in1) || f in outs
    requires forall o, r :: o in outs && r in next && r !in in1 ==>
      Less(o.largest, r.smallest) || Less(r.largest, o.smallest)
    ensures ValidFiles(fs) && Disjoint(fs)
  {
    assert forall i :: 0 <= i < |fs| ==> fs[i] in fs;
    PairwiseDisjoint(fs);
  }

  lemma SubsetDisjoint(files: Level, fs: Level)
    requires ValidFiles(files) && StrictlyOrdered(fs) && forall f :: f in fs ==> f in files
    ensures ValidFiles(fs)
    ensures Disjoint(files) ==> Disjoint(fs)
  {
    assert forall i :: 0 <= i < |fs| ==> fs[i] in fs;
    if Disjoint(files) { PairwiseDisjoint(fs); }
  }

  lemma ReplacedLevel(v: Version, level: nat, in0: seq<File>, in1: seq<File>, outs: seq<File>, v': Version, l: nat)
    requires Replaced(v, level, in0, in1, outs, v') && l < NUM_LEVELS
    ensures StrictlyOrdered(v'[l])
    ensures forall f :: f in v'[l] ==> Remains(v, level, in0, in1, l, f) || (l == level + 1 && f in outs)
  {
  }

  lemma LevelStaysSorted(v: Version, level: nat, in0: seq<File>, in1: seq<File>, outs: seq<File>, l: nat, fs: Level)
    requires DeepLevelsSorted(v) && Picked(v, level, in0, in1)
    requires ValidFiles(outs) && Disjoint(outs) && MadeOf(outs, in0, in1) && l < NUM_LEVELS
    requires StrictlyOrdered(fs)
    requires forall f :: f in fs ==> Remains(v, level, in0, in1, l, f) || (l == level + 1 && f in outs)
    ensures ValidFiles(fs) && (l >= 1 ==> Disjoint(fs))
  {
    if l == level + 1 {
      var s, u := PickedLocated(v, level, in0, in1);
      forall o, r | o in outs && r in v[l] && r !in in1
        ensures Less(o.largest, r.smallest) || Less(r.largest, o.smallest)
      {
        OutputBeside(v, level, in0, in1, s, u, outs, o, r);
      }
      OutputLevelDisjoint(v[l], in1, outs, fs);
    } else {
      SubsetDisjoint(v[l], fs);
    }
  }

  lemma PairStaysNewer(v: Version, level: nat, in0: seq<File>, in1: seq<File>, outs: seq<File>,
                       l: nat, m: nat, f: File, g: File, x: Entry, y: Entry)
    requires DeepLevelsSorted(v) && LevelsNewer(v) && Unique(Entries(v))
    requires Located(v, level, in0, in1) && Detached(v[level], level, in0) && MadeOf(outs, in0, in1)
    requires l < m < NUM_LEVELS
    requires Remains(v, level, in0, in1, l, f) || (l == level + 1 && f in outs)
    requires Remains(v, level, in0, in1, m, g) || (m == level + 1 && g in outs)
    requires x in f.entries && y in g.entries && x.ikey.user == y.ikey.user
    ensures x.ikey.seqno > y.ikey.seqno
  {
    hide Unique, LevelsNewer, Detached, DeepLevelsSorted;
    if l == level + 1 && f in outs {
      var p, h := OutputOrigin(v, level, in0, in1, outs, f, x);
      NewerAcross(v, p, m, h, g, x, y);
    } else if m == level + 1 && g in outs {
      var p, h := OutputOrigin(v, level, in0, in1, outs, g, y);
      if l == level {
        StayingIsNewer(v, level, in0, in1, f, x, p, h, y);
      } else {
        NewerAcross(v, l, p, f, h, x, y);
      }
    } else {
      NewerAcross(v, l, m, f, g, x, y);
    }
  }

  lemma LevelsStayNewer(v: Version, level: nat, in0: seq<File>, in1: seq<File>, outs: seq<File>, v': Version)
    requires DeepLevelsSorted(v) && LevelsNewer(v) && Unique(Entries(v))
    requires Located(v, level, in0, in1) && Detached(v[level], level, in0) && MadeOf(outs, in0, in1)
    requires Replaced(v, level, in0, in1, outs, v')
    ensures LevelsNewer(v')
  {
    forall l, m, x, y | 0 <= l < m < NUM_LEVELS && x in EntriesOf(v'[l]) && y in EntriesOf(v'[m]) &&
      x.ikey.user == y.ikey.user
      ensures x.ikey.seqno > y.ikey.seqno
    {
      var f, g := FileWith(v'[l], x), FileWith(v'[m], y);
      ReplacedLevel(v, level, in0, in1, outs, v', l);
      ReplacedLevel(v, level, in0, in1, outs, v', m);
      PairStaysNewer(v, level, in0, in1, outs, l, m, f, g, x, y);
    }
  }

  /** Output files carry numbers of their own, or that of the one file moved down. */
  ghost predicate NumbersFit(v: Version, level: nat, in0: seq<File>, outs: seq<File>) {
    && (forall f, g :: f in outs && g in outs && f.number == g.number ==> f == g)
    && (forall l, f, g :: 0 <= l < NUM_LEVELS && f in outs && g in v[l] && f.number == g.number ==>
      l == level && g in in0)
  }

  lemma NumbersStayDistinct(v: Version, level: nat, in0: seq<File>, in1: seq<File>, outs: seq<File>, v': Version)
    requires DistinctNumbers(v) && Replaced(v, level, in0, in1, outs, v') && NumbersFit(v, level, in0, outs)
    requires level + 1 < NUM_LEVELS
    ensures DistinctNumbers(v')
  {
    forall l, m, f, g | 0 <= l < NUM_LEVELS && 0 <= m < NUM_LEVELS && f in v'[l] && g in v'[m] && f.number == g.number
      ensures l == m && f == g
    {
      ReplacedLevel(v, level, in0, in1, outs, v', l);
      ReplacedLevel(v, level, in0, in1, outs, v', m);
    }
  }

  lemma Level0StaysNewest(v: Version, level: nat, in0: seq<File>, in1: seq<File>, outs: seq<File>, v': Version)
    requires NewestFirst(v[0]) && Replaced(v, level, in0, in1, outs, v')
    ensures NewestFirst(v'[0])
  {
    ReplacedLevel(v, level, in0, in1, outs, v', 0);
  }

  /** Replacing the inputs by files made of their entries keeps every invariant of a version. */
  lemma ReplaceKeepsInv(v: Version, level: nat, in0: seq<File>, in1: seq<File>, outs: seq<File>, v': Version)
    requires Inv(v) && Picked(v, level, in0, in1)
    requires ValidFiles(outs) && Disjoint(outs) && MadeOf(outs, in0, in1)
    requires Replaced(v, level, in0, in1, outs, v') && NumbersFit(v, level, in0, outs)
    ensures Inv(v')
  {
    assert DeepLevelsSorted(v') by {
      forall l | 0 <= l < NUM_LEVELS ensures ValidFiles(v'[l]) && (l >= 1 ==> Disjoint(v'[l])) {
        ReplacedLevel(v, level, in0, in1, outs, v', l);
        LevelStaysSorted(v, level, in0, in1, outs, l, v'[l]);
      }
    }
    var _, _ := PickedLocated(v, level, in0, in1);
    LevelsStayNewer(v, level, in0, in1, outs, v');
    Level0StaysNewest(v, level, in0, in1, outs, v');
    NumbersStayDistinct(v, level, in0, in1, outs, v');
    EntriesSplit(v, level, in0, in1);
    EntriesAfter(v, level, in0, in1, outs, v');
    assert Entries(v') <= Entries(v);
  }

  // ---------- compaction ----------

  /** No user key is split between an input file of the next level and the file left alone after it.
      The selection closes only the inputs of its own level under this (AddBoundaryInputs), so this is a
      hypothesis about the version, not something the selection establishes. */
  ghost predicate NoSplitKey(v: Version, level: nat, in1: seq<File>)
    requires level + 1 < NUM_LEVELS
  {
    forall f, r :: f in in1 && r in v[level + 1] && r !in in1 ==> !IsBoundary(r, f.largest)
  }

  /** Only a key split across the edge of the next level's inputs can leave older data under a dropped tombstone. */
  lemma OlderNeedsSplit(v: Version, level: nat, in0: seq<File>, in1: seq<File>, t: Entry, l: nat, r: File, e: Entry)
    requires DeepLevelsSorted(v) && LevelsNewer(v) && Unique(Entries(v)) && Picked(v, level, in0, in1)
    requires t in InputEntries(in0, in1) && BaseLevel(v, level, t.ikey.user)
    requires l < NUM_LEVELS && Remains(v, level, in0, in1, l, r) && e in r.entries
    requires e.ikey.user == t.ikey.user && e.ikey.seqno <= t.ikey.seqno
    ensures l == level + 1 && exists f :: f in in1 && t.ikey.user <= f.largest.user && IsBoundary(r, f.largest)
  {
    hide LevelsNewer, Detached, OverlapsHull, NoDuplicates, Disjoint, DeepLevelsSorted, Unique, HullOf, BaseLevel,
      Entries, IsBoundary;
    var s, u := PickedLocated(v, level, in0, in1);
    var p, f := InputOrigin(v, level, in0, in1, t);
    OlderIsBelow(v, level, in0, in1, t, p, f, l, r, e);
    SameNumberSameEntry(v, l, r, e, p, f, t);
    FilesAreValid(v);
    SplitAtBoundary(v[l], in0, in1, s, u, r, e, f, t);
  }

  lemma FilesAreValid(v: Version)
    requires DeepLevelsSorted(v)
    ensures forall l :: 0 <= l < NUM_LEVELS ==> ValidFiles(v[l])
    ensures forall l, f :: 0 <= l < NUM_LEVELS && f in v[l] ==> ValidFile(f)
    ensures forall l :: 1 <= l < NUM_LEVELS ==> Disjoint(v[l])
  {
  }

  lemma SameNumberSameEntry(v: Version, l: nat, r: File, e: Entry, p: nat, f: File, t: Entry)
    requires Unique(Entries(v)) && l < NUM_LEVELS && r in v[l] && e in r.entries && p < NUM_LEVELS && f in v[p] &&
      t in f.entries
    ensures e.ikey.user == t.ikey.user && e.ikey.seqno == t.ikey.seqno ==> e == t
  {
    EntryOf(v, l, r, e);
    EntryOf(v, p, f, t);
  }

  /** What stays and is older than an input entry lies one level below it if no deeper level has the key. */
  lemma OlderIsBelow(v: Version, level: nat, in0: seq<File>, in1: seq<File>, t: Entry, p: nat, f: File, l: nat, r: File,
                     e: Entry)
    requires DeepLevelsSorted(v) && LevelsNewer(v) && Unique(Entries(v)) && Picked(v, level, in0, in1)
    requires From(v, level, in0, in1, t, p, f) && BaseLevel(v, level, t.ikey.user)
    requires l < NUM_LEVELS && Remains(v, level, in0, in1, l, r) && e in r.entries
    requires e.ikey.user == t.ikey.user && e.ikey.seqno <= t.ikey.seqno
    ensures l == level + 1
  {
    hide LevelsNewer, OverlapsHull, NoDuplicates, Disjoint, Unique, Detached;
    var _, _ := PickedLocated(v, level, in0, in1);
    FileBounds(r, e);
    if l == level { StayingIsNewer(v, level, in0, in1, r, e, p, f, t); }
    if l < level { NewerAcross(v, l, p, r, f, e, t); }
    assert Covers(r, t.ikey.user);
  }

  lemma SplitAtBoundary(
      next: Level, in0: seq<File>, in1: seq<File>, s: IKey, l: IKey, r: File, e: Entry, f: File, t: Entry)
    requires ValidFiles(next) && Disjoint(next) && HullOf(next, in0, in1, s, l)
    requires r in next && r !in in1 && e in r.entries
    requires ValidFile(f) && (f in in0 || f in in1) && t in f.entries
    requires e.ikey.user == t.ikey.user && e.ikey.seqno <= t.ikey.seqno && (e.ikey.seqno == t.ikey.seqno ==> e == t)
    ensures f in in1 && t.ikey.user <= f.largest.user && IsBoundary(r, f.largest)
  {
    InputBeside(next, in0, in1, s, l, r, f, t);
    FilterMembers(next, Range(Some(s.user), Some(l.user)));
    HullCoversUsers(in0, s, l);
    FileBounds(r, e);
    FileBounds(f, t);
    NotLessUpward(e.ikey, r.largest, t.ikey);
    if f in in1 {
      var i :| 0 <= i < |next| && next[i] == f;
      var j :| 0 <= j < |next| && next[j] == r;
    }
  }

  lemma ExposedOverOlder(v: Version, level: nat, in0: seq<File>, in1: seq<File>, oldest: Sequence, t: Entry)
      returns (l: nat, r: File, e: Entry)
    requires Exposed(InputEntries(in0, in1), RestEntries(v, level, in0, in1), oldest, BaseLevelOf(v, level), t)
    ensures l < NUM_LEVELS && Remains(v, level, in0, in1, l, r) && e in r.entries
    ensures e.ikey.user == t.ikey.user && e.ikey.seqno <= t.ikey.seqno
    ensures t in InputEntries(in0, in1) && BaseLevel(v, level, t.ikey.user)
  {
    var rest := RestEntries(v, level, in0, in1);
    e := Newest(rest, t.ikey.user, oldest).value;
    assert IsNewest(rest, t.ikey.user, oldest, e) && Visible(e, t.ikey.user, oldest);
    l, r :| 0 <= l < NUM_LEVELS && r in v[l] && Remains(v, level, in0, in1, l, r) && e in r.entries;
  }

  lemma ExposedNeedsSplit(v: Version, level: nat, in0: seq<File>, in1: seq<File>, oldest: Sequence, t: Entry)
    requires DeepLevelsSorted(v) && LevelsNewer(v) && Unique(Entries(v)) && Picked(v, level, in0, in1)
    requires Exposed(InputEntries(in0, in1), RestEntries(v, level, in0, in1), oldest, BaseLevelOf(v, level), t)
    ensures !NoSplitKey(v, level, in1)
  {
    var l, r, e := ExposedOverOlder(v, level, in0, in1, oldest, t);
    OlderNeedsSplit(v, level, in0, in1, t, l, r, e);
  }

  /** The outputs hold what the drop rules keep. */
  ghost predicate CompactionOutputs(
      v: Version, level: nat, in0: seq<File>, in1: seq<File>, oldest: Sequence, outs: seq<File>) {
    && ValidFiles(outs) && Disjoint(outs)
    && EntriesOf(outs) == Kept(InputEntries(in0, in1), oldest, BaseLevelOf(v, level))
  }

  /** A compaction is invisible to every snapshot from the oldest live one on exactly when it drops no
      tombstone that still hides something it leaves alone. */
  lemma CompactionReadsIff(
      v: Version, level: nat, in0: seq<File>, in1: seq<File>, oldest: Sequence, outs: seq<File>, v': Version)
    requires Inv(v) && Picked(v, level, in0, in1)
    requires CompactionOutputs(v, level, in0, in1, oldest, outs) && Replaced(v, level, in0, in1, outs, v')
    ensures ReadsPreserved(Entries(v), Entries(v'), oldest) <==>
      !exists t :: Exposed(InputEntries(in0, in1), RestEntries(v, level, in0, in1), oldest, BaseLevelOf(v, level), t)
  {
    var _, _ := PickedLocated(v, level, in0, in1);
    EntriesSplit(v, level, in0, in1);
    EntriesAfter(v, level, in0, in1, outs, v');
    SetsReadIff(Entries(v), Entries(v'), InputEntries(in0, in1), RestEntries(v, level, in0, in1), oldest,
      BaseLevelOf(v, level));
  }

  lemma SetsReadIff(before: set<Entry>, after: set<Entry>, input: set<Entry>, rest: set<Entry>,
                    oldest: Sequence, base: UserKey -> bool)
    requires Unique(before) && before == input + rest && after == rest + Kept(input, oldest, base)
    ensures ReadsPreserved(before, after, oldest) <==> !exists t :: Exposed(input, rest, oldest, base, t)
  {
    assert after == Kept(input, oldest, base) + rest;
    ReadsPreservedIff(input, rest, oldest, base);
  }

  /** Without a split key a compaction changes no read at or after the oldest live snapshot. */
  lemma CompactionPreservesReads(v: Version, level: nat, in0: seq<File>, in1: seq<File>, oldest: Sequence,
                                 outs: seq<File>, v': Version)
    requires Inv(v) && Picked(v, level, in0, in1) && NoSplitKey(v, level, in1)
    requires CompactionOutputs(v, level, in0, in1, oldest, outs) && Replaced(v, level, in0, in1, outs, v')
    ensures ReadsPreserved(Entries(v), Entries(v'), oldest)
  {
    CompactionReadsIff(v, level, in0, in1, oldest, outs, v');
    var input, rest := InputEntries(in0, in1), RestEntries(v, level, in0, in1);
    forall t ensures !Exposed(input, rest, oldest, BaseLevelOf(v, level), t) {
      if Exposed(input, rest, oldest, BaseLevelOf(v, level), t) {
        ExposedNeedsSplit(v, level, in0, in1, oldest, t);
        assert false;
      }
    }
  }
}
