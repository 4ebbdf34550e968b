/** Point lookups. */
module ReadPath {
  // Through memtables and levels: FindFile and Version::Get (db/version_set.cc), MemTable::Get (db/memtable.cc),
  // DBImpl::Get (db/db_impl.cc).

  import opened Basics
  import opened DbFormat
  import opened Versions

  // ---------- searching one run ----------

  /** Seeking in a table or memtable iterator, whose order is given by its contract. */
  function SeekPos(es: seq<Entry>, target: IKey): (i: nat)
    ensures i <= |es|
    ensures forall j :: 0 <= j < i ==> Less(es[j].ikey, target)
    ensures i < |es| ==> !Less(es[i].ikey, target)
  {
    if es == [] || !Less(es[0].ikey, target) then 0
    else 1 + SeekPos(es[1..], target)
  }

  lemma SeekPosIs(es: seq<Entry>, target: IKey)
    requires Sorted(es)
    ensures IsSeekPos(es, target, SeekPos(es, target))
  {
    var i := SeekPos(es, target);
    forall j | i <= j < |es| ensures !Less(es[j].ikey, target) {
      if i < j { NotLessUpward(es[i].ikey, es[j].ikey, target); }
    }
  }

  /** A lookup in one sorted run: the entry found for user key `k`, if any
      (TableCache::Get with SaveValue, and the body of MemTable::Get). */
  function RunGet(es: seq<Entry>, k: UserKey, s: Sequence): Option<Entry> {
    var i := SeekPos(es, LookupKey(k, s));
    if i < |es| && es[i].ikey.user == k then Some(es[i]) else None
  }

  lemma RunGetIsNewest(es: seq<Entry>, k: UserKey, s: Sequence)
    requires Sorted(es)
    ensures var r := RunGet(es, k, s);
      && (r.Some? ==> IsNewest(SetOf(es), k, s, r.value))
      && (r.None? ==> forall e :: e in es ==> !Visible(e, k, s))
  {
    SeekPosIs(es, LookupKey(k, s));
    SeekFindsNewest(es, k, s, SeekPos(es, LookupKey(k, s)));
  }

  // ---------- files of one level ----------

  ghost predicate IsFileIndex(files: Level, key: IKey, index: nat) {
    && index <= |files|
    && (forall j :: 0 <= j < index ==> Less(files[j].largest, key))
    && (forall j :: index <= j < |files| ==> !Less(files[j].largest, key))
  }

  /** Binary search for the earliest file whose largest key is at or after `key`. */
  method FindFile(files: Level, key: IKey) returns (index: nat)
    requires forall i, j :: 0 <= i < j < |files| ==> LessEq(files[i].largest, files[j].largest)
    ensures IsFileIndex(files, key, index)
  {
    var left, right := 0, |files|;
    while left < right
      invariant 0 <= left <= right <= |files|
      invariant forall j :: 0 <= j < left ==> Less(files[j].largest, key)
      invariant forall j :: right <= j < |files| ==> !Less(files[j].largest, key)
    {
      var mid := (left + right) / 2;
      if Less(files[mid].largest, key) {
        forall j | 0 <= j <= mid ensures Less(files[j].largest, key) {
          if j < mid { LessTransitive(files[j].largest, files[mid].largest, key); }
        }
        left := mid + 1;
      } else {
        forall j | mid <= j < |files| ensures !Less(files[j].largest, key) {
          if mid < j { NotLessUpward(files[mid].largest, files[j].largest, key); }
        }
        right := mid;
      }
    }
    index := right;
  }

  lemma LargestIncrease(files: Level)
    requires ValidFiles(files) && Disjoint(files)
    ensures forall i, j :: 0 <= i < j < |files| ==> LessEq(files[i].largest, files[j].largest)
  {
    forall i, j | 0 <= i < j < |files| ensures LessEq(files[i].largest, files[j].largest) {
      DisjointOrder(files, i, j, files[i].entries[|files[i].entries| - 1], files[j].entries[|files[j].entries| - 1]);
    }
  }

  predicate Overlaps(f: File, k: UserKey) {
    f.smallest.user <= k <= f.largest.user
  }

  ghost predicate NumbersDiffer(files: Level) {
    forall f, g :: f in files && g in files && f.number == g.number ==> f == g
  }

  /** std::sort by NewestFirst. */
  function SortNewestFirst(fs: seq<File>): (r: seq<File>)
    ensures |r| == |fs|
    ensures forall f :: f in r <==> f in fs
    ensures forall i, j :: 0 <= i < j < |r| ==> r[i].number >= r[j].number
  {
    if fs == [] then [] else InsertNewestFirst(fs[0], SortNewestFirst(fs[1..]))
  }

  function InsertNewestFirst(f: File, fs: seq<File>): (r: seq<File>)
    requires forall i, j :: 0 <= i < j < |fs| ==> fs[i].number >= fs[j].number
    ensures |r| == |fs| + 1
    ensures forall g :: g in r <==> g == f || g in fs
    ensures forall i, j :: 0 <= i < j < |r| ==> r[i].number >= r[j].number
  {
    if fs == [] || f.number >= fs[0].number then [f] + fs
    else
      var rest := InsertNewestFirst(f, fs[1..]);
      assert fs == [fs[0]] + fs[1..];
      assert forall g :: g in rest ==> g == f || g in fs[1..];
      assert forall j :: 0 <= j < |rest| ==> rest[j] in rest;
      assert forall g :: g in fs[1..] ==> fs[0].number >= g.number;
      [fs[0]] + rest
  }

  /** What the search of one level must find: its newest visible entry. */
  ghost predicate LevelResult(fs: Level, k: UserKey, s: Sequence, r: Option<Entry>) {
    && (r.Some? ==> IsNewest(EntriesOf(fs), k, s, r.value))
    && (r.None? ==> forall e :: e in EntriesOf(fs) ==> !Visible(e, k, s))
  }

  method FilesCovering(files: Level, k: UserKey) returns (tmp: seq<File>)
    ensures forall f :: f in tmp <==> f in files && Overlaps(f, k)
  {
    tmp := [];
    for i := 0 to |files|
      invariant forall f :: f in tmp <==> f in files[..i] && Overlaps(f, k)
    {
      if files[i].smallest.user <= k && k <= files[i].largest.user {
        tmp := tmp + [files[i]];
      }
    }
    assert files[..|files|] == files;
  }

  /** The first file of the list with a visible entry for `k`, and that entry. */
  method SearchInOrder(files: seq<File>, k: UserKey, s: Sequence) returns (i: nat, r: Option<Entry>)
    requires ValidFiles(files)
    ensures i <= |files| && (r.Some? <==> i < |files|)
    ensures forall j :: 0 <= j < i ==> forall e :: e in files[j].entries ==> !Visible(e, k, s)
    ensures r.Some? ==> IsNewest(SetOf(files[i].entries), k, s, r.value)
  {
    i, r := 0, None;
    while i < |files|
      invariant i <= |files| && r.None?
      invariant forall j :: 0 <= j < i ==> forall e :: e in files[j].entries ==> !Visible(e, k, s)
    {
      RunGetIsNewest(files[i].entries, k, s);
      r := RunGet(files[i].entries, k, s);
      if r.Some? {
        return;
      }
      i := i + 1;
    }
  }

  /** Level 0: the files covering `k`, newest file first, up to the first hit. */
  method GetLevel0(files: Level, k: UserKey, s: Sequence) returns (r: Option<Entry>)
    requires ValidFiles(files) && NewestFirst(files) && NumbersDiffer(files)
    ensures LevelResult(files, k, s, r)
  {
    var tmp := FilesCovering(files, k);
    var sorted := SortNewestFirst(tmp);
    assert ValidFiles(sorted) by {
      assert forall i :: 0 <= i < |sorted| ==> sorted[i] in sorted;
    }
    var i;
    i, r := SearchInOrder(sorted, k, s);
    if r.Some? {
      assert sorted[i] in sorted;
      Level0Hit(files, sorted, i, k, s, r.value);
    } else {
      Level0Miss(files, sorted, k, s);
    }
  }

  lemma Level0Older(files: Level, f: File, g: File, e: Entry, x: Entry)
    requires NewestFirst(files) && NumbersDiffer(files)
    requires f in files && g in files && f != g && f.number >= g.number
    requires e in f.entries && x in g.entries && e.ikey.user == x.ikey.user
    ensures x.ikey.seqno < e.ikey.seqno
  {
    assert NewerThan(SetOf(f.entries), SetOf(g.entries));
    assert e in SetOf(f.entries) && x in SetOf(g.entries);
  }

  lemma Level0Hit(files: Level, sorted: seq<File>, i: nat, k: UserKey, s: Sequence, e: Entry)
    requires ValidFiles(files) && NewestFirst(files) && NumbersDiffer(files)
    requires forall f :: f in sorted <==> f in files && Overlaps(f, k)
    requires forall a, b :: 0 <= a < b < |sorted| ==> sorted[a].number >= sorted[b].number
    requires i < |sorted| && sorted[i] in files && IsNewest(SetOf(sorted[i].entries), k, s, e)
    requires forall j :: 0 <= j < i ==> forall x :: x in sorted[j].entries ==> !Visible(x, k, s)
    ensures IsNewest(EntriesOf(files), k, s, e)
  {
    forall x | x in EntriesOf(files) && Visible(x, k, s) ensures x.ikey.seqno <= e.ikey.seqno {
      var g :| g in files && x in g.entries;
      FileBounds(g, x);
      assert g in sorted;
      var j :| 0 <= j < |sorted| && sorted[j] == g;
      Level0HitOne(files, sorted, i, j, k, s, e, x);
    }
  }

  lemma Level0HitOne(files: Level, sorted: seq<File>, i: nat, j: nat, k: UserKey, s: Sequence, e: Entry, x: Entry)
    requires NewestFirst(files) && NumbersDiffer(files)
    requires i < |sorted| && j < |sorted| && sorted[i] in files && sorted[j] in files
    requires i < j ==> sorted[i].number >= sorted[j].number
    requires IsNewest(SetOf(sorted[i].entries), k, s, e)
    requires j < i ==> forall y :: y in sorted[j].entries ==> !Visible(y, k, s)
    requires x in sorted[j].entries && Visible(x, k, s)
    ensures x.ikey.seqno <= e.ikey.seqno
  {
    if sorted[i] == sorted[j] {
      assert x in SetOf(sorted[i].entries);
    } else {
      Level0Older(files, sorted[i], sorted[j], e, x);
    }
  }

  lemma Level0Miss(files: Level, sorted: seq<File>, k: UserKey, s: Sequence)
    requires ValidFiles(files)
    requires forall f :: f in sorted <==> f in files && Overlaps(f, k)
    requires forall j :: 0 <= j < |sorted| ==> forall e :: e in sorted[j].entries ==> !Visible(e, k, s)
    ensures forall e :: e in EntriesOf(files) ==> !Visible(e, k, s)
  {
    forall e | e in EntriesOf(files) ensures !Visible(e, k, s) {
      var f :| f in files && e in f.entries;
      if e.ikey.user == k {
        FileBounds(f, e);
        assert f in sorted;
      }
    }
  }

  /** Deeper levels: one binary-searched file. */
  method GetSortedLevel(files: Level, k: UserKey, s: Sequence) returns (r: Option<Entry>)
    requires ValidFiles(files) && Disjoint(files)
    ensures LevelResult(files, k, s, r)
  {
    LargestIncrease(files);
    var index := FindFile(files, LookupKey(k, s));
    if index >= |files| {
      r := None;
    } else if k < files[index].smallest.user {
      r := None;
    } else {
      r := RunGet(files[index].entries, k, s);
    }
    SortedLevelFile(files, k, s, index);
  }

  lemma SortedLevelFile(files: Level, k: UserKey, s: Sequence, index: nat)
    requires ValidFiles(files) && Disjoint(files) && IsFileIndex(files, LookupKey(k, s), index)
    ensures LevelResult(files, k, s,
      if index < |files| && files[index].smallest.user <= k then RunGet(files[index].entries, k, s) else None)
  {
    if index < |files| { RunGetIsNewest(files[index].entries, k, s); }
    var r := if index < |files| && files[index].smallest.user <= k then RunGet(files[index].entries, k, s) else None;
    if r.Some? { InLevel(files, index, r.value); }
    forall e | e in EntriesOf(files) && Visible(e, k, s)
      ensures r.Some? && e.ikey.seqno <= r.value.ikey.seqno
    {
      var f :| f in files && e in f.entries;
      var j :| 0 <= j < |files| && files[j] == f;
      FileBounds(f, e);
      assert !Less(e.ikey, LookupKey(k, s));
      LessTransitive(LookupKey(k, s), e.ikey, f.largest);
      assert index <= j;
      if index < j { VisibleInLaterFile(files, k, s, index, j, e); }
    }
  }

  /** Versions of `k` may straddle files; then the earlier file holds the newer ones. */
  lemma VisibleInLaterFile(files: Level, k: UserKey, s: Sequence, index: nat, j: nat, e: Entry)
    requires ValidFiles(files) && Disjoint(files) && IsFileIndex(files, LookupKey(k, s), index)
    requires index < j < |files| && e in files[j].entries && Visible(e, k, s)
    ensures files[index].smallest.user <= k
    ensures var r := RunGet(files[index].entries, k, s); r.Some? && e.ikey.seqno <= r.value.ikey.seqno
  {
    var es := files[index].entries;
    var last := es[|es| - 1];
    DisjointOrder(files, index, j, es[0], e);
    DisjointOrder(files, index, j, last, e);
    assert !Less(last.ikey, LookupKey(k, s));
    var i := SeekPos(es, LookupKey(k, s));
    assert i < |es|;
    DisjointOrder(files, index, j, es[i], e);
    assert es[i].ikey.user == k;
  }

  // ---------- all levels ----------

  /** Data never hops over newer data: the first level with a visible entry has the newest one. */
  lemma FirstHitIsNewest(v: Version, l: nat, k: UserKey, s: Sequence, e: Entry)
    requires Inv(v) && l < NUM_LEVELS
    requires forall m :: 0 <= m < l ==> forall x :: x in EntriesOf(v[m]) ==> !Visible(x, k, s)
    requires IsNewest(EntriesOf(v[l]), k, s, e)
    ensures IsNewest(Entries(v), k, s, e)
  {
    hide DeepLevelsSorted, NewestFirst, DistinctNumbers, LevelsOrdered, Unique;
    forall x | x in Entries(v) && Visible(x, k, s) ensures x.ikey.seqno <= e.ikey.seqno {
      var m :| 0 <= m < NUM_LEVELS && x in EntriesOf(v[m]);
      if l < m { assert NewerThan(EntriesOf(v[l]), EntriesOf(v[m])); }
    }
  }

  /** Version::Get. */
  method VersionGet(v: Version, k: UserKey, s: Sequence) returns (r: Option<Bytes>)
    requires Inv(v)
    ensures r == ReadAt(Entries(v), k, s)
  {
    for level := 0 to NUM_LEVELS
      invariant forall m :: 0 <= m < level ==> forall e :: e in EntriesOf(v[m]) ==> !Visible(e, k, s)
    {
      if |v[level]| > 0 {
        var hit: Option<Entry>;
        if level == 0 {
          assert NumbersDiffer(v[0]);
          hit := GetLevel0(v[0], k, s);
        } else {
          hit := GetSortedLevel(v[level], k, s);
        }
        match hit {
          case None =>
          case Some(e) =>
            FirstHitIsNewest(v, level, k, s, e);
            NewestIs(Entries(v), k, s, e);
            if e.ikey.kind.Value? {
              return Some(e.value);
            } else {
              return None;
            }
        }
      }
    }
    r := None;
  }

  /** MemTable::Get: `done` says that the memtable decides the answer. */
  method MemGet(table: seq<Entry>, k: UserKey, s: Sequence) returns (done: bool, r: Option<Bytes>)
    requires Sorted(table) && Unique(SetOf(table))
    ensures done == Newest(SetOf(table), k, s).Some?
    ensures r == ReadAt(SetOf(table), k, s)
  {
    RunGetIsNewest(table, k, s);
    match RunGet(table, k, s) {
      case None => done, r := false, None;
      case Some(e) =>
        NewestIs(SetOf(table), k, s, e);
        done, r := true, Meaning(Some(e));
    }
  }

  /** A layer whose entries are all newer hides the one below exactly where it has something visible. */
  lemma Layering(top: set<Entry>, below: set<Entry>, k: UserKey, s: Sequence)
    requires NewerThan(top, below) && Unique(top) && Unique(below)
    ensures Newest(top + below, k, s) ==
      (if Newest(top, k, s).Some? then Newest(top, k, s) else Newest(below, k, s))
    ensures Unique(top + below)
  {
    var t, b := Newest(top, k, s), Newest(below, k, s);
    if t.Some? {
      assert IsNewest(top + below, k, s, t.value);
      NewestIs(top + below, k, s, t.value);
    } else if b.Some? {
      assert IsNewest(top + below, k, s, b.value);
      NewestIs(top + below, k, s, b.value);
    }
  }

  /** DBImpl::Get, the lookup through all layers. */
  method Get(mem: seq<Entry>, imm: Option<seq<Entry>>, current: Version, k: UserKey, s: Sequence)
      returns (r: Option<Bytes>)
    requires LayersInv(mem, imm, current)
    ensures r == ReadAt(AllEntries(mem, imm, current), k, s)
  {
    var done;
    done, r := MemGet(mem, k, s);
    var immEntries := if imm.Some? then imm.value else [];
    Layering(SetOf(immEntries), Entries(current), k, s);
    Layering(SetOf(mem), SetOf(immEntries) + Entries(current), k, s);
    assert AllEntries(mem, imm, current) == SetOf(mem) + (SetOf(immEntries) + Entries(current));
    if done {
      return;
    }
    if imm.Some? {
      done, r := MemGet(imm.value, k, s);
      if done {
        return;
      }
    }
    r := VersionGet(current, k, s);
  }

  ghost function ImmEntries(imm: Option<seq<Entry>>): set<Entry> {
    if imm.Some? then SetOf(imm.value) else {}
  }

  ghost function AllEntries(mem: seq<Entry>, imm: Option<seq<Entry>>, current: Version): set<Entry> {
    SetOf(mem) + ImmEntries(imm) + Entries(current)
  }

  /** The memtable is newer than the immutable memtable, which is newer than the tables. */
  ghost predicate LayersInv(mem: seq<Entry>, imm: Option<seq<Entry>>, current: Version) {
    && Inv(current)
    && Sorted(mem) && Unique(SetOf(mem))
    && (imm.Some? ==> Sorted(imm.value) && Unique(SetOf(imm.value)))
    && NewerThan(SetOf(mem), ImmEntries(imm))
    && NewerThan(SetOf(mem), Entries(current))
    && NewerThan(ImmEntries(imm), Entries(current))
  }
}
