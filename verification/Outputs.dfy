/** The merged input of a compaction and the table files made of its output runs
    (db/version_set.cc lines 1237-1268; db/db_impl.cc lines 786-858, 974-996). */
module Outputs {
  import opened DbFormat
  import opened Versions
  import opened CompactionLoop
  import opened Steps

  // ---------- the merging iterator ----------

  /** Places an entry in internal-key order; an entry with a present internal key is not added again. */
  function InsertSorted(es: seq<Entry>, e: Entry): seq<Entry> {
    if es == [] || Less(e.ikey, es[0].ikey) then [e] + es
    else if es[0].ikey == e.ikey then es
    else [es[0]] + InsertSorted(es[1..], e)
  }

  lemma SortedCons(e: Entry, es: seq<Entry>)
    requires Sorted(es) && (es == [] || Less(e.ikey, es[0].ikey))
    ensures Sorted([e] + es)
  {
    forall j | 0 <= j < |es| ensures Less(e.ikey, es[j].ikey) {
      if j > 0 { LessTransitive(e.ikey, es[0].ikey, es[j].ikey); }
    }
  }

  lemma {:induction false} InsertSortedOk(es: seq<Entry>, e: Entry)
    requires Sorted(es)
    ensures Sorted(InsertSorted(es, e))
    ensures forall x :: x in es ==> x in InsertSorted(es, e)
    ensures forall x :: x in InsertSorted(es, e) ==> x in es || x == e
    ensures (forall x :: x in es ==> x.ikey != e.ikey) ==> e in InsertSorted(es, e)
  {
    if es == [] || Less(e.ikey, es[0].ikey) {
      SortedCons(e, es);
    } else if es[0].ikey != e.ikey {
      var rest := InsertSorted(es[1..], e);
      InsertSortedOk(es[1..], e);
      assert es == [es[0]] + es[1..];
      assert rest != [] ==> rest[0] in rest;
      SortedCons(es[0], rest);
    }
  }

  /** All entries of a run of entries, in internal-key order. */
  function SortEntries(es: seq<Entry>): seq<Entry> {
    if es == [] then [] else InsertSorted(SortEntries(es[1..]), es[0])
  }

  lemma {:induction false} SortKeepsAll(es: seq<Entry>)
    requires Unique(SetOf(es))
    ensures Sorted(SortEntries(es)) && SetOf(SortEntries(es)) == SetOf(es)
  {
    if es != [] {
      assert es == [es[0]] + es[1..];
      assert forall x :: x in SetOf(es[1..]) ==> x in SetOf(es);
      SortKeepsAll(es[1..]);
      InsertKeeps(SortEntries(es[1..]), es[0], SetOf(es));
    }
  }

  lemma InsertKeeps(r: seq<Entry>, e: Entry, all: set<Entry>)
    requires Sorted(r) && Unique(all) && e in all && SetOf(r) <= all
    ensures Sorted(InsertSorted(r, e)) && SetOf(InsertSorted(r, e)) == SetOf(r) + {e}
  {
    InsertSortedOk(r, e);
    if x :| x in r && x.ikey == e.ikey {
      assert x in SetOf(r);
      assert x == e;
    }
  }

  function AllEntriesOf(fs: seq<File>): (r: seq<Entry>) {
    if fs == [] then [] else fs[0].entries + AllEntriesOf(fs[1..])
  }

  lemma {:induction false} AllEntriesMembers(fs: seq<File>)
    ensures SetOf(AllEntriesOf(fs)) == EntriesOf(fs)
  {
    if fs != [] {
      AllEntriesMembers(fs[1..]);
      assert fs == [fs[0]] + fs[1..];
      forall e | e in EntriesOf(fs) ensures e in SetOf(AllEntriesOf(fs)) {
        var f := FileWith(fs, e);
        if f != fs[0] { assert e in EntriesOf(fs[1..]); assert e in SetOf(AllEntriesOf(fs[1..])); }
      }
      forall e | e in SetOf(AllEntriesOf(fs)) ensures e in EntriesOf(fs) {
        if e !in fs[0].entries { assert e in SetOf(AllEntriesOf(fs[1..])); }
      }
    }
  }

  /** MakeInputIterator: the inputs of both levels as one sorted run. */
  method MakeInputIterator(in0: seq<File>, in1: seq<File>) returns (merged: seq<Entry>)
    requires Unique(InputEntries(in0, in1))
    ensures Sorted(merged) && SetOf(merged) == InputEntries(in0, in1)
  {
    var all := AllEntriesOf(in0 + in1);
    AllEntriesMembers(in0 + in1);
    assert EntriesOf(in0 + in1) == InputEntries(in0, in1) by {
      forall e | e in EntriesOf(in0 + in1) ensures e in InputEntries(in0, in1) { var f := FileWith(in0 + in1, e); }
      forall e | e in InputEntries(in0, in1) ensures e in EntriesOf(in0 + in1) {
        var f := if e in EntriesOf(in0) then FileWith(in0, e) else FileWith(in1, e);
        assert f in in0 + in1;
      }
    }
    SortKeepsAll(all);
    merged := SortEntries(all);
  }

  // ---------- output files ----------

  lemma {:induction false} FilterProps(es: seq<Entry>, keep: set<Entry>)
    requires Sorted(es)
    ensures Sorted(Filter(es, keep))
    ensures forall e :: e in Filter(es, keep) <==> e in es && e in keep
  {
    if es != [] {
      var init, last := es[..|es| - 1], es[|es| - 1];
      FilterProps(init, keep);
      assert es == init + [last];
      var r := Filter(init, keep);
      forall i | 0 <= i < |r| ensures Less(r[i].ikey, last.ikey) {
        assert r[i] in r;
        var j :| 0 <= j < |init| && init[j] == r[i];
        assert es[j] == r[i];
      }
    }
  }

  /** The file made of an output run. */
  function RunFile(number: nat, size: nat, run: seq<Entry>): (f: File)
    requires run != []
    ensures Sorted(run) ==> ValidFile(f)
  {
    File(number, size, run[0].ikey, run[|run| - 1].ikey, run)
  }

  /** `files` are the tables of `runs`, in order. */
  ghost predicate FilesOfRuns(files: seq<File>, runs: seq<seq<Entry>>) {
    && |files| == |runs|
    && forall i :: 0 <= i < |files| ==>
      runs[i] != [] && files[i] == RunFile(files[i].number, files[i].fileSize, runs[i])
  }

  lemma LaterRunFollows(files: seq<File>, i: nat, flat: seq<Entry>, last: seq<Entry>)
    requires ValidFiles(files) && i < |files| && EntriesOf(files) == SetOf(flat)
    requires Sorted(flat + last) && last != []
    ensures Less(files[i].largest, last[0].ikey)
  {
    var e := files[i].entries[|files[i].entries| - 1];
    InLevel(files, i, e);
    assert e in SetOf(flat);
    var j :| 0 <= j < |flat| && flat[j] == e;
    assert (flat + last)[j] == e && (flat + last)[|flat|] == last[0];
  }

  lemma SetOfAppend(a: seq<Entry>, b: seq<Entry>)
    ensures SetOf(a + b) == SetOf(a) + SetOf(b)
  {
  }

  lemma {:induction false} RunsAreFiles(files: seq<File>, runs: seq<seq<Entry>>)
    requires FilesOfRuns(files, runs) && Sorted(Flatten(runs))
    ensures ValidFiles(files) && Disjoint(files)
    ensures EntriesOf(files) == SetOf(Flatten(runs))
  {
    hide Less, EntriesOf, Sorted;
    if files != [] {
      var n := |files| - 1;
      var init, last := runs[..n], runs[n];
      var flat := Flatten(init);
      assert Flatten(runs) == flat + last;
      SortedParts(flat, last);
      RunFileValid(files[n], last);
      RunsAreFiles(files[..n], init);
      assert files == files[..n] + [files[n]];
      forall i | 0 <= i < n ensures Less(files[i].largest, files[n].smallest) {
        assert files[..n][i] == files[i];
        LaterRunFollows(files[..n], i, flat, last);
      }
      EntriesSnoc(files[..n], files[n]);
      SetOfAppend(flat, last);
    } else {
      NoEntries();
    }
  }

  lemma NoEntries()
    ensures EntriesOf([]) == {} && SetOf([]) == {}
  {
  }

  lemma RunFileValid(f: File, run: seq<Entry>)
    requires run != [] && Sorted(run) && f == RunFile(f.number, f.fileSize, run)
    ensures ValidFile(f)
  {
  }

  lemma SortedParts(a: seq<Entry>, b: seq<Entry>)
    requires Sorted(a + b)
    ensures Sorted(a) && Sorted(b)
  {
    assert forall i :: 0 <= i < |a| ==> (a + b)[i] == a[i];
    assert forall i :: 0 <= i < |b| ==> (a + b)[|a| + i] == b[i];
  }

  lemma EntriesSnoc(fs: seq<File>, f: File)
    ensures EntriesOf(fs + [f]) == EntriesOf(fs) + SetOf(f.entries)
  {
    var all := fs + [f];
    forall e | e in EntriesOf(all) ensures e in EntriesOf(fs) + SetOf(f.entries) {
      var g := FileWith(all, e);
    }
    forall e | e in EntriesOf(fs) ensures e in EntriesOf(all) {
      assert FileWith(fs, e) in all;
    }
    assert f in all;
  }
}
