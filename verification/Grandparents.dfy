/** How far a compaction's outputs reach into the level two below. */
module Grandparents {
  // SetupOtherInputs lists the files of that level overlapping all inputs (db/version_set.cc lines 1455-1462); the
  // merge loop counts their bytes and closes an output that overlaps too many (lines 1554-1576).

  import opened Basics
  import opened DbFormat
  import opened Versions
  import opened CompactionLoop
  import opened Picking
  import opened Setup
  import opened Steps

  /** The files overlapping the range between two internal keys. */
  function KeyOverlap(files: seq<File>, first: IKey, last: IKey): seq<File> {
    if files == [] then []
    else
      var f := files[|files| - 1];
      KeyOverlap(files[..|files| - 1], first, last) + if RangesOverlap(f, first, last) then [f] else []
  }

  /** Those files total at most `max` bytes, or do so without one of them. */
  ghost predicate BytesBounded(files: seq<File>, first: IKey, last: IKey, max: nat) {
    var over := KeyOverlap(files, first, last);
    TotalFileSize(over) <= max || exists g :: g in over && TotalFileSize(over) <= max + g.fileSize
  }

  /** Looking only among the files of a wider range of user keys changes nothing. */
  lemma {:induction false} OverlapWithinFilter(files: seq<File>, r: Range, first: IKey, last: IKey)
    requires forall f :: f in files && RangesOverlap(f, first, last) ==> InRange(f, r)
    ensures KeyOverlap(OverlapFilter(files, r), first, last) == KeyOverlap(files, first, last)
  {
    if files != [] {
      var init, f := files[..|files| - 1], files[|files| - 1];
      assert files == init + [f];
      OverlapWithinFilter(init, r, first, last);
      var kept := OverlapFilter(init, r);
      if InRange(f, r) {
        assert OverlapFilter(files, r) == kept + [f] && (kept + [f])[..|kept|] == kept;
      } else {
        assert OverlapFilter(files, r) == kept && KeyOverlap(files, first, last) == KeyOverlap(init, first, last);
      }
    }
  }

  /** The overlapping files among the first `upto` weigh no more than those from index `from` on, if none lies
      before. */
  lemma {:induction false} OverlapWeighs(files: seq<File>, from: nat, upto: nat, first: IKey, last: IKey)
    requires from <= upto <= |files|
    requires forall j :: 0 <= j < upto && RangesOverlap(files[j], first, last) ==> from <= j
    ensures TotalFileSize(KeyOverlap(files[..upto], first, last)) <= Span(files, from, upto)
    decreases upto
  {
    if upto > from {
      OverlapWeighs(files, from, upto - 1, first, last);
      assert files[..upto][..upto - 1] == files[..upto - 1];
      SpanExtend(files, from, upto - 1);
      LastOverlap(files[..upto], first, last);
    } else {
      NothingOverlaps(files[..upto], first, last);
    }
  }

  lemma {:induction false} NothingOverlaps(files: seq<File>, first: IKey, last: IKey)
    requires forall j :: 0 <= j < |files| ==> !RangesOverlap(files[j], first, last)
    ensures KeyOverlap(files, first, last) == []
  {
    if files != [] { NothingOverlaps(files[..|files| - 1], first, last); }
  }

  lemma {:induction false} OverlapEnds(files: seq<File>, upto: nat, first: IKey, last: IKey)
    requires upto <= |files|
    requires forall j :: 0 <= j < |files| && RangesOverlap(files[j], first, last) ==> j < upto
    ensures KeyOverlap(files, first, last) == KeyOverlap(files[..upto], first, last)
  {
    if upto < |files| {
      OverlapEnds(files[..|files| - 1], upto, first, last);
      assert files[..|files| - 1][..upto] == files[..upto];
    } else {
      assert files[..upto] == files;
    }
  }

  /** The bound the merge loop keeps on index ranges bounds the bytes. */
  lemma BoundedBytes(gps: seq<File>, first: IKey, last: IKey, max: nat)
    requires OverlapBounded(gps, first, last, max)
    ensures BytesBounded(gps, first, last, max)
  {
    hide RangesOverlap, Span, TotalFileSize, KeyOverlap;
    var from: nat, to: nat :| OverlapWithin(gps, first, last, max, from, to);
    OverlapEnds(gps, to, first, last);
    OverlapWeighs(gps, from, to, first, last);
    if Span(gps, from, to) > max {
      OverlapWeighs(gps, from, to - 1, first, last);
      LastOverlap(gps[..to], first, last);
      assert gps[..to][..to - 1] == gps[..to - 1];
    }
  }

  lemma LastOverlap(files: seq<File>, first: IKey, last: IKey)
    requires files != []
    ensures var f, over := files[|files| - 1], KeyOverlap(files[..|files| - 1], first, last);
      if RangesOverlap(f, first, last) then
        f in KeyOverlap(files, first, last) &&
        TotalFileSize(KeyOverlap(files, first, last)) == TotalFileSize(over) + f.fileSize
      else KeyOverlap(files, first, last) == over
  {
    var f, over := files[|files| - 1], KeyOverlap(files[..|files| - 1], first, last);
    assert (over + [f])[..|over|] == over;
  }

  /** A range inside the inputs' hull: every file of the level two below that overlaps it is among the grandparents,
      so the bound holds over the whole level. */
  lemma BoundReachesLevel(v: Version, level: nat, in0: seq<File>, in1: seq<File>, gps: seq<File>, first: Entry,
                          last: Entry, max: nat)
    requires GrandparentsOf(v, level, in0, in1, gps) && level + 2 < NUM_LEVELS
    requires (forall f :: f in in0 ==> ValidFile(f)) && (forall f :: f in in1 ==> ValidFile(f))
    requires first in InputEntries(in0, in1) && last in InputEntries(in0, in1)
    requires OverlapBounded(gps, first.ikey, last.ikey, max)
    ensures BytesBounded(v[level + 2], first.ikey, last.ikey, max)
  {
    hide OverlapBounded, BytesBounded, KeyOverlap, OverlapFilter, TotalFileSize;
    BoundedBytes(gps, first.ikey, last.ikey, max);
    var s, l :| IsHull(in0 + in1, s, l) && gps == OverlapFilter(v[level + 2], Range(Some(s.user), Some(l.user)));
    InHull(in0, in1, s, l, first);
    InHull(in0, in1, s, l, last);
    OverlapWithinFilter(v[level + 2], Range(Some(s.user), Some(l.user)), first.ikey, last.ikey);
    SameBytes(gps, v[level + 2], first.ikey, last.ikey, max);
  }

  lemma SameBytes(a: seq<File>, b: seq<File>, first: IKey, last: IKey, max: nat)
    requires KeyOverlap(a, first, last) == KeyOverlap(b, first, last) && BytesBounded(a, first, last, max)
    ensures BytesBounded(b, first, last, max)
  {
  }

  lemma InHull(in0: seq<File>, in1: seq<File>, s: IKey, l: IKey, e: Entry)
    requires IsHull(in0 + in1, s, l) && e in InputEntries(in0, in1)
    requires (forall f :: f in in0 ==> ValidFile(f)) && (forall f :: f in in1 ==> ValidFile(f))
    ensures s.user <= e.ikey.user <= l.user
  {
    var f := if e in EntriesOf(in0) then FileWith(in0, e) else FileWith(in1, e);
    assert f in in0 + in1;
    FileBounds(f, e);
  }
}
