/** Where outputs are cut. */
module OutputCuts {
  // The merged input leaves no choice in it (db/db_impl.cc lines 920-996; db/version_set.cc lines 1554-1576).

  import opened DbFormat
  import opened Versions
  import opened CompactionLoop

  /** A count above the limit is not passed over. */
  lemma StopNotPassed(gps: Level, merged: seq<Entry>, max: nat, stops: seq<nat>, t: nat, c: nat)
    requires StopsRight(gps, merged, max, stops, |merged|) && t <= |stops| && CountStart(stops, t) < c < |merged|
    requires BytesEnding(gps, merged[CountStart(stops, t)].ikey, merged[c].ikey) > max
    ensures t < |stops| && stops[t] <= c
  {
    hide BytesEnding;
  }

  lemma StopCounts(gps: Level, merged: seq<Entry>, max: nat, stops: seq<nat>, t: nat)
    requires StopsRight(gps, merged, max, stops, |merged|) && t < |stops|
    ensures CountStart(stops, t) < stops[t] < |merged|
    ensures BytesEnding(gps, merged[CountStart(stops, t)].ikey, merged[stops[t]].ikey) > max
  {
    hide BytesEnding;
  }

  /** Whatever stops there are in `a`, `b` has them too. */
  lemma {:induction false} StopsAgree(gps: Level, merged: seq<Entry>, max: nat, a: seq<nat>, b: seq<nat>, t: nat)
    requires StopsRight(gps, merged, max, a, |merged|) && StopsRight(gps, merged, max, b, |merged|)
    requires t <= |a|
    ensures t <= |b| && a[..t] == b[..t]
  {
    hide BytesEnding, StopsRight;
    if t > 0 {
      StopsAgree(gps, merged, max, a, b, t - 1);
      assert t > 1 ==> a[..t - 1][t - 2] == b[..t - 1][t - 2];
      StopCounts(gps, merged, max, a, t - 1);
      StopNotPassed(gps, merged, max, b, t - 1, a[t - 1]);
      StopCounts(gps, merged, max, b, t - 1);
      StopNotPassed(gps, merged, max, a, t - 1, b[t - 1]);
    }
  }

  /** The places where too many grandparent bytes have been passed follow from the merged keys. */
  lemma StopsAreDetermined(gps: Level, merged: seq<Entry>, max: nat, a: seq<nat>, b: seq<nat>)
    requires StopsRight(gps, merged, max, a, |merged|) && StopsRight(gps, merged, max, b, |merged|)
    ensures a == b
  {
    StopsAgree(gps, merged, max, a, b, |a|);
    StopsAgree(gps, merged, max, b, a, |b|);
    assert a[..|a|] == a && b[..|b|] == b;
  }

  /** The runs without the last entry written. */
  ghost function Unwritten(runs: seq<seq<Entry>>): seq<seq<Entry>>
    requires runs != [] && runs[|runs| - 1] != []
  {
    var last := runs[|runs| - 1];
    runs[..|runs| - 1] + if |last| == 1 then [] else [last[..|last| - 1]]
  }

  lemma UnwrittenCutRight(
      merged: seq<Entry>, stops: seq<nat>, fileSize: seq<Entry> -> nat, maxFile: nat, runs: seq<seq<Entry>>)
    requires runs != [] && CutRight(merged, stops, fileSize, maxFile, runs)
    ensures runs[|runs| - 1] != [] && CutRight(merged, stops, fileSize, maxFile, Unwritten(runs))
    ensures Flatten(runs) == Flatten(Unwritten(runs)) + [runs[|runs| - 1][|runs[|runs| - 1]| - 1]]
  {
    hide StopBetween;
    var init, last := runs[..|runs| - 1], runs[|runs| - 1];
    assert NotCutLate(merged, stops, fileSize, maxFile, last);
    var shorter := last[..|last| - 1];
    assert last == shorter + [last[|last| - 1]];
    if |last| > 1 {
      assert NotCutLate(merged, stops, fileSize, maxFile, shorter) by {
        assert forall k :: 0 < k < |shorter| ==> shorter[..k] == last[..k];
      }
      FlattenSnoc(init, shorter);
      assert (Flatten(init) + shorter) + [last[|last| - 1]] == Flatten(init) + last;
    } else {
      assert Unwritten(runs) == init;
    }
  }

  /** A run list is its last entry written after the others: in a run of its own or at the end of the last run. */
  lemma WrittenBack(runs: seq<seq<Entry>>)
    requires runs != [] && runs[|runs| - 1] != []
    ensures var last := runs[|runs| - 1];
      var e, less := last[|last| - 1], Unwritten(runs);
      if |last| == 1 then runs == less + [[e]]
      else less != [] && runs == less[..|less| - 1] + [less[|less| - 1] + [e]]
  {
    var last := runs[|runs| - 1];
    assert runs == runs[..|runs| - 1] + [last] && last == last[..|last| - 1] + [last[|last| - 1]];
  }

  /** Whether the last entry opened a run of its own is decided by what was written before it. */
  lemma OpenedRight(
      merged: seq<Entry>, stops: seq<nat>, fileSize: seq<Entry> -> nat, maxFile: nat, runs: seq<seq<Entry>>)
    requires runs != [] && CutRight(merged, stops, fileSize, maxFile, runs)
    requires runs[|runs| - 1] != [] && Unwritten(runs) != []
    ensures var last, less := runs[|runs| - 1], Unwritten(runs);
      var before := less[|less| - 1];
      before != [] && (|last| == 1 <==>
        fileSize(before) >= maxFile ||
        StopBetween(merged, stops, before[|before| - 1].ikey, last[|last| - 1].ikey))
  {
    hide StopBetween;
    var last := runs[|runs| - 1];
    if |last| > 1 {
      assert last[..|last| - 1] == Unwritten(runs)[|runs| - 1];
    } else {
      assert NotCutLate(merged, stops, fileSize, maxFile, runs[|runs| - 2]);
    }
  }

  /** Two ways of cutting the same entries are the same. */
  lemma {:induction false} CutsAreDetermined(merged: seq<Entry>, stops: seq<nat>, fileSize: seq<Entry> -> nat,
      maxFile: nat, a: seq<seq<Entry>>, b: seq<seq<Entry>>)
    requires CutRight(merged, stops, fileSize, maxFile, a) && CutRight(merged, stops, fileSize, maxFile, b)
    requires Flatten(a) == Flatten(b)
    ensures a == b
    decreases |Flatten(a)|
  {
    hide CutRight, StopBetween, Unwritten;
    if a != [] && b != [] {
      UnwrittenCutRight(merged, stops, fileSize, maxFile, a);
      UnwrittenCutRight(merged, stops, fileSize, maxFile, b);
      assert Flatten(Unwritten(a)) == Flatten(a)[..|Flatten(a)| - 1];
      assert Flatten(Unwritten(b)) == Flatten(b)[..|Flatten(b)| - 1];
      CutsAreDetermined(merged, stops, fileSize, maxFile, Unwritten(a), Unwritten(b));
      WrittenBack(a);
      WrittenBack(b);
      if Unwritten(a) != [] {
        OpenedRight(merged, stops, fileSize, maxFile, a);
        OpenedRight(merged, stops, fileSize, maxFile, b);
      }
    } else if a != [] {
      UnwrittenCutRight(merged, stops, fileSize, maxFile, a);
    } else if b != [] {
      UnwrittenCutRight(merged, stops, fileSize, maxFile, b);
    }
  }
}
