/** Table files, versions and the invariants every version keeps (db/version_set.h, db/version_edit.h). */
module Versions {
  import opened DbFormat

  const MAX_MEM_COMPACT_LEVEL := 2

  /** FileMetaData together with the contents of the table it names. */
  datatype File = File(number: nat, fileSize: nat, smallest: IKey, largest: IKey, entries: seq<Entry>)

  type Level = seq<File>
  type Version = v: seq<Level> | |v| == NUM_LEVELS witness seq(NUM_LEVELS, _ => [])

  ghost predicate ValidFile(f: File) {
    && |f.entries| > 0
    && Sorted(f.entries)
    && f.smallest == f.entries[0].ikey
    && f.largest == f.entries[|f.entries| - 1].ikey
  }

  ghost predicate ValidFiles(fs: Level) {
    forall i :: 0 <= i < |fs| ==> ValidFile(fs[i])
  }

  /** The files of a level follow one another in internal-key order. */
  ghost predicate Disjoint(fs: Level) {
    forall i, j :: 0 <= i < j < |fs| ==> Less(fs[i].largest, fs[j].smallest)
  }

  ghost function EntriesOf(fs: Level): set<Entry> {
    set f, e | f in fs && e in f.entries :: e
  }

  ghost function Entries(v: Version): set<Entry> {
    set l, e | 0 <= l < NUM_LEVELS && e in EntriesOf(v[l]) :: e
  }

  /** Wherever both hold a user key, `a` holds the newer entries. */
  ghost predicate NewerThan(a: set<Entry>, b: set<Entry>) {
    forall x, y :: x in a && y in b && x.ikey.user == y.ikey.user ==> x.ikey.seqno > y.ikey.seqno
  }

  ghost predicate NewestFirst(fs: Level) {
    forall f, g :: f in fs && g in fs && f.number > g.number ==> NewerThan(SetOf(f.entries), SetOf(g.entries))
  }

  /** A file number names one file, at one level. */
  ghost predicate DistinctNumbers(v: Version) {
    forall l, m, f, g | 0 <= l < NUM_LEVELS && 0 <= m < NUM_LEVELS && f in v[l] && g in v[m] && f.number == g.number
      :: l == m && f == g
  }

  /** BySmallestKey, the order in which a level lists its files: by smallest key, then by file number. */
  predicate KeyLess(f: File, g: File) {
    Less(f.smallest, g.smallest) || (f.smallest == g.smallest && f.number < g.number)
  }

  ghost predicate StrictlyOrdered(fs: seq<File>) {
    forall i, j :: 0 <= i < j < |fs| ==> KeyLess(fs[i], fs[j])
  }

  ghost predicate DeepLevelsSorted(v: Version) {
    && (forall l :: 0 <= l < NUM_LEVELS ==> ValidFiles(v[l]))
    && (forall l :: 1 <= l < NUM_LEVELS ==> Disjoint(v[l]))
  }

  ghost predicate LevelsNewer(v: Version) {
    forall l, m :: 0 <= l < m < NUM_LEVELS ==> NewerThan(EntriesOf(v[l]), EntriesOf(v[m]))
  }

  ghost predicate LevelsOrdered(v: Version) {
    forall l :: 0 <= l < NUM_LEVELS ==> StrictlyOrdered(v[l])
  }

  /** What every installed version satisfies: deeper levels are sorted runs, and data only gets
      older on the way down. */
  ghost predicate Inv(v: Version) {
    && DeepLevelsSorted(v)
    && LevelsNewer(v)
    && NewestFirst(v[0])
    && DistinctNumbers(v)
    && LevelsOrdered(v)
    && Unique(Entries(v))
  }

  lemma NewerAcross(v: Version, l: nat, m: nat, f: File, g: File, x: Entry, y: Entry)
    requires LevelsNewer(v) && l < m < NUM_LEVELS && f in v[l] && g in v[m]
    requires x in f.entries && y in g.entries && x.ikey.user == y.ikey.user
    ensures x.ikey.seqno > y.ikey.seqno
  {
    assert NewerThan(EntriesOf(v[l]), EntriesOf(v[m]));
    assert x in EntriesOf(v[l]) && y in EntriesOf(v[m]);
  }

  lemma EntryOf(v: Version, l: nat, f: File, e: Entry)
    requires l < NUM_LEVELS && f in v[l] && e in f.entries
    ensures e in EntriesOf(v[l]) && e in Entries(v)
  {
  }

  lemma FileBounds(f: File, e: Entry)
    requires ValidFile(f) && e in f.entries
    ensures LessEq(f.smallest, e.ikey) && LessEq(e.ikey, f.largest)
    ensures f.smallest.user <= e.ikey.user <= f.largest.user
  {
  }

  lemma InLevel(fs: Level, i: nat, e: Entry)
    requires i < |fs| && e in fs[i].entries
    ensures e in EntriesOf(fs)
  {
    assert fs[i] in fs;
  }

  /** In a disjoint level an entry of an earlier file precedes every entry of a later one. */
  lemma DisjointOrder(fs: Level, i: nat, j: nat, a: Entry, b: Entry)
    requires ValidFiles(fs) && Disjoint(fs) && i < j < |fs|
    requires a in fs[i].entries && b in fs[j].entries
    ensures Less(a.ikey, b.ikey)
  {
    FileBounds(fs[i], a);
    FileBounds(fs[j], b);
    LessTransitive(a.ikey, fs[i].largest, fs[j].smallest);
    LessTransitive(a.ikey, fs[j].smallest, b.ikey);
  }
}
