/** The work of one compaction. */
module CompactionLoop {
  // Its cursors over the levels below and the merge loop
  // (db/version_set.cc Compaction, db/db_impl.cc DoCompactionWork).

  import opened DbFormat
  import opened Versions
  import opened DropRules

  // ---------- IsBaseLevelForKey ----------

  predicate Covers(f: File, k: UserKey) {
    f.smallest.user <= k <= f.largest.user
  }

  /** No file two or more levels down has a user-key range containing `k`. */
  ghost predicate BaseLevel(v: Version, level: nat, k: UserKey) {
    forall l, f :: level + 2 <= l < NUM_LEVELS && f in v[l] ==> !Covers(f, k)
  }

  ghost function BaseLevelOf(v: Version, level: nat): UserKey -> bool {
    k => BaseLevel(v, level, k)
  }

  /** The cursors have only passed files that end before `k`. */
  ghost predicate PtrsBehind(v: Version, ptrs: seq<nat>, k: UserKey) {
    && |ptrs| == NUM_LEVELS
    && (forall l :: 0 <= l < NUM_LEVELS ==> ptrs[l] <= |v[l]|)
    && (forall l, j :: 0 <= l < NUM_LEVELS && 0 <= j < ptrs[l] ==> v[l][j].largest.user < k)
  }

  /** Once the cursor stands on the first file not ending before `k`, that file decides the level. */
  lemma CursorDecides(files: Level, p: nat, k: UserKey)
    requires ValidFiles(files) && Disjoint(files) && p <= |files|
    requires forall j :: 0 <= j < p ==> files[j].largest.user < k
    requires p < |files| ==> k <= files[p].largest.user
    ensures (exists f :: f in files && Covers(f, k)) <==> (p < |files| && files[p].smallest.user <= k)
  {
    if p < |files| && files[p].smallest.user <= k {
      assert files[p] in files && Covers(files[p], k);
    }
    if f :| f in files && Covers(f, k) {
      var j :| 0 <= j < |files| && files[j] == f;
      assert p <= j;
      if p < j {
        assert Less(files[p].largest, files[j].smallest);
        FileBounds(files[p], files[p].entries[0]);
      }
    }
  }

  // ---------- grandparent overlap ----------

  predicate RangesOverlap(g: File, first: IKey, last: IKey) {
    LessEq(first, g.largest) && LessEq(g.smallest, last)
  }

  function TotalFileSize(fs: Level): nat {
    if fs == [] then 0 else TotalFileSize(fs[..|fs| - 1]) + fs[|fs| - 1].fileSize
  }

  lemma {:induction false} TotalSplit(fs: Level, i: nat)
    requires i <= |fs|
    ensures TotalFileSize(fs) == TotalFileSize(fs[..i]) + TotalFileSize(fs[i..])
    decreases |fs|
  {
    if i == |fs| {
      assert fs[..i] == fs && fs[i..] == [];
    } else {
      TotalSplit(fs[..|fs| - 1], i);
      assert fs[..|fs| - 1][..i] == fs[..i];
      assert fs[i..][..|fs[i..]| - 1] == fs[..|fs| - 1][i..];
    }
  }

  /** Bytes of the grandparents from index `from` up to `to`. */
  function Span(gps: Level, from: nat, to: nat): nat
    requires from <= to <= |gps|
  {
    TotalFileSize(gps[from..to])
  }

  lemma SpanExtend(gps: Level, from: nat, to: nat)
    requires from <= to < |gps|
    ensures Span(gps, from, to + 1) == Span(gps, from, to) + gps[to].fileSize
  {
    assert gps[from..to + 1][..to - from] == gps[from..to];
  }

  /** The grandparents overlapping `[first, last]` total at most `max` bytes plus the size of one further file. */
  ghost predicate OverlapBounded(gps: Level, first: IKey, last: IKey, max: nat) {
    exists from: nat, to: nat :: OverlapWithin(gps, first, last, max, from, to)
  }

  ghost predicate OverlapWithin(gps: Level, first: IKey, last: IKey, max: nat, from: nat, to: nat) {
    && from <= to <= |gps|
    && (forall j :: 0 <= j < |gps| && RangesOverlap(gps[j], first, last) ==> from <= j < to)
    && (Span(gps, from, to) <= max || (from < to && Span(gps, from, to - 1) <= max))
  }

  /** The position ShouldStopBefore's scan reaches for `key`. */
  ghost predicate GpIndex(gps: Level, key: IKey, i: nat) {
    && i <= |gps|
    && (forall j :: 0 <= j < i ==> Less(gps[j].largest, key))
    && (i < |gps| ==> !Less(gps[i].largest, key))
  }

  lemma BoundHolds(gps: Level, first: IKey, last: IKey, from: nat, i: nat, max: nat)
    requires ValidFiles(gps) && Disjoint(gps)
    requires GpIndex(gps, first, from) && GpIndex(gps, last, i) && from <= i && Span(gps, from, i) <= max
    ensures OverlapBounded(gps, first, last, max)
  {
    var to := if i < |gps| then i + 1 else i;
    forall j | 0 <= j < |gps| && RangesOverlap(gps[j], first, last) ensures from <= j < to {
      if i < j {
        LessTransitive(last, gps[i].largest, gps[j].smallest);
      }
    }
    assert OverlapWithin(gps, first, last, max, from, to);
  }

  // ---------- the outputs ----------

  /** The bytes of the grandparents that end at or after key `a` and before key `b`. */
  function BytesEnding(gps: Level, a: IKey, b: IKey): nat {
    if gps == [] then 0 else
    var g := gps[|gps| - 1];
    BytesEnding(gps[..|gps| - 1], a, b) + if !Less(g.largest, a) && Less(g.largest, b) then g.fileSize else 0
  }

  lemma {:induction false} BytesEndingIsSpan(gps: Level, a: IKey, b: IKey, i: nat, j: nat)
    requires Disjoint(gps) && ValidFiles(gps)
    requires GpIndex(gps, a, i) && GpIndex(gps, b, j) && i <= j
    ensures BytesEnding(gps, a, b) == Span(gps, i, j)
  {
    hide TotalFileSize, Sorted;
    forall k | 0 <= k < |gps| ensures Less(gps[k].largest, a) <==> k < i { EndsBefore(gps, a, i, k); }
    forall k | 0 <= k < |gps| ensures Less(gps[k].largest, b) <==> k < j { EndsBefore(gps, b, j, k); }
    BytesOfRange(gps, a, b, i, j);
  }

  lemma EndsBefore(gps: Level, key: IKey, i: nat, k: nat)
    requires Disjoint(gps) && ValidFiles(gps) && GpIndex(gps, key, i) && k < |gps|
    ensures Less(gps[k].largest, key) <==> k < i
  {
    if i < k {
      FileBounds(gps[k], gps[k].entries[0]);
      assert Less(gps[i].largest, gps[k].smallest);
    }
  }

  lemma {:induction false} BytesOfRange(gps: Level, a: IKey, b: IKey, i: nat, j: nat)
    requires i <= j <= |gps|
    requires forall k :: 0 <= k < |gps| ==> (Less(gps[k].largest, a) <==> k < i)
    requires forall k :: 0 <= k < |gps| ==> (Less(gps[k].largest, b) <==> k < j)
    ensures BytesEnding(gps, a, b) == Span(gps, i, j)
  {
    hide Less;
    if gps != [] {
      var n := |gps| - 1;
      var init := gps[..n];
      var i', j' := if i < n then i else n, if j < n then j else n;
      BytesOfRange(init, a, b, i', j');
      assert init[i'..j'] == gps[i'..j'];
      if i <= n < j {
        SpanExtend(gps, i, n);
      } else {
        assert gps[i'..j'] == gps[i..j];
      }
    }
  }

  /** Where the count of bytes that stands at the `t`-th stop has started: at the first key, or at the stop before. */
  function CountStart(stops: seq<nat>, t: nat): nat
    requires t <= |stops|
  {
    if t == 0 then 0 else stops[t - 1]
  }

  /** `stops` are the places among the first `n` merged keys where the grandparents passed since the stop before are
      more than `max` bytes for the first time. */
  ghost predicate StopsRight(gps: Level, merged: seq<Entry>, max: nat, stops: seq<nat>, n: nat)
    requires n <= |merged|
  {
    && (forall t :: 0 <= t < |stops| ==> CountStart(stops, t) < stops[t] < n)
    && forall t, c :: 0 <= t <= |stops| && CountStart(stops, t) < c < n && (t < |stops| ==> c <= stops[t]) ==>
      (BytesEnding(gps, merged[CountStart(stops, t)].ikey, merged[c].ikey) > max <==> t < |stops| && c == stops[t])
  }

  lemma {:induction false} BytesEndingAdd(gps: Level, a: IKey, b: IKey, c: IKey)
    requires LessEq(a, b) && LessEq(b, c)
    ensures BytesEnding(gps, a, c) == BytesEnding(gps, a, b) + BytesEnding(gps, b, c)
    ensures BytesEnding(gps, a, a) == 0
  {
    if gps != [] {
      BytesEndingAdd(gps[..|gps| - 1], a, b, c);
    }
  }

  lemma StartBelow(gps: Level, merged: seq<Entry>, max: nat, stops: seq<nat>, n: nat)
    requires 0 < n <= |merged| && StopsRight(gps, merged, max, stops, n)
    ensures CountStart(stops, |stops|) < n
  {
  }

  /** The count standing at merged index `i` decides whether it is the next stop. */
  lemma NoStopYet(gps: Level, merged: seq<Entry>, max: nat, stops: seq<nat>, i: nat, bytes: nat)
    requires 0 < i < |merged| && StopsRight(gps, merged, max, stops, i) && CountStart(stops, |stops|) < i
    requires bytes == BytesEnding(gps, merged[CountStart(stops, |stops|)].ikey, merged[i].ikey) && bytes <= max
    ensures StopsRight(gps, merged, max, stops, i + 1)
  {
    hide BytesEnding;
  }

  lemma StopIsNext(gps: Level, merged: seq<Entry>, max: nat, stops: seq<nat>, i: nat, bytes: nat)
    requires 0 < i < |merged| && StopsRight(gps, merged, max, stops, i) && CountStart(stops, |stops|) < i
    requires bytes == BytesEnding(gps, merged[CountStart(stops, |stops|)].ikey, merged[i].ikey) && bytes > max
    ensures StopsRight(gps, merged, max, stops + [i], i + 1) && CountStart(stops + [i], |stops| + 1) == i
  {
    hide BytesEnding;
    var stops' := stops + [i];
    forall t | 0 <= t <= |stops| ensures CountStart(stops', t) == CountStart(stops, t) { }
    assert CountStart(stops', |stops'|) == i;
    forall t, c | 0 <= t <= |stops| && CountStart(stops, t) < c < i + 1 && c <= stops'[t]
      ensures BytesEnding(gps, merged[CountStart(stops, t)].ikey, merged[c].ikey) > max <==> c == stops'[t]
    {
      if t < |stops| {
        assert stops'[t] == stops[t] < i;
      }
    }
  }

  lemma NoStops(gps: Level, merged: seq<Entry>, max: nat, stops: seq<nat>)
    requires |merged| > 0 && StopsRight(gps, merged, max, stops, 0)
    ensures stops == [] && StopsRight(gps, merged, max, stops, 1) && CountStart(stops, 0) == 0
  {
  }

  /** A stop falls after key `a` and no later than key `b`. */
  ghost predicate StopBetween(merged: seq<Entry>, stops: seq<nat>, a: IKey, b: IKey) {
    exists t ::
      0 <= t < |stops| && stops[t] < |merged| && Less(a, merged[stops[t]].ikey) && LessEq(merged[stops[t]].ikey, b)
  }

  ghost predicate StopAfter(merged: seq<Entry>, stops: seq<nat>, a: IKey) {
    exists t :: 0 <= t < |stops| && stops[t] < |merged| && Less(a, merged[stops[t]].ikey)
  }

  /** No entry of the run should have started a new one. */
  ghost predicate NotCutLate(
      merged: seq<Entry>, stops: seq<nat>, fileSize: seq<Entry> -> nat, maxFile: nat, run: seq<Entry>)
  {
    && run != []
    && forall k :: 0 < k < |run| ==>
      fileSize(run[..k]) < maxFile && !StopBetween(merged, stops, run[k - 1].ikey, run[k].ikey)
  }

  /** Each run goes on until it is big enough or a stop comes before the next kept entry, and no further. */
  ghost predicate CutRight(
      merged: seq<Entry>, stops: seq<nat>, fileSize: seq<Entry> -> nat, maxFile: nat, runs: seq<seq<Entry>>)
  {
    && (forall j :: 0 <= j < |runs| ==> NotCutLate(merged, stops, fileSize, maxFile, runs[j]))
    && forall j :: 0 <= j < |runs| - 1 ==>
      || fileSize(runs[j]) >= maxFile
      || StopBetween(merged, stops, runs[j][|runs[j]| - 1].ikey, runs[j + 1][0].ikey)
  }

  /** Every key of the run comes before the merged keys from index `i` on. */
  ghost predicate Behind(run: seq<Entry>, merged: seq<Entry>, i: nat) {
    forall k, c :: 0 <= k < |run| && i <= c < |merged| ==> Less(run[k].ikey, merged[c].ikey)
  }

  /** The outputs and the open run once the first `i` merged entries are done. */
  ghost predicate CutSoFar(merged: seq<Entry>, stops: seq<nat>, fileSize: seq<Entry> -> nat, maxFile: nat,
      outputs: seq<seq<Entry>>, builder: seq<Entry>, i: nat)
  {
    && CutRight(merged, stops, fileSize, maxFile, outputs)
    && Behind(builder, merged, i) && (forall j :: 0 <= j < |outputs| ==> Behind(outputs[j], merged, i))
    && (builder != [] ==>
         && NotCutLate(merged, stops, fileSize, maxFile, builder) && fileSize(builder) < maxFile
         && !StopAfter(merged, stops, builder[|builder| - 1].ikey))
    && (outputs != [] ==>
         var last := outputs[|outputs| - 1];
         || fileSize(last) >= maxFile
         || (builder == [] && StopAfter(merged, stops, last[|last| - 1].ikey))
         || (builder != [] && StopBetween(merged, stops, last[|last| - 1].ikey, builder[0].ikey)))
  }

  lemma LaterStop(merged: seq<Entry>, stops: seq<nat>, i: nat, a: IKey, b: IKey)
    requires i < |merged| && Less(b, merged[i].ikey)
    ensures StopBetween(merged, stops + [i], a, b) == StopBetween(merged, stops, a, b)
  {
    if StopBetween(merged, stops, a, b) {
      var t :| 0 <= t < |stops| && stops[t] < |merged| && Less(a, merged[stops[t]].ikey) &&
        LessEq(merged[stops[t]].ikey, b);
      assert (stops + [i])[t] == stops[t];
    }
  }

  lemma StopKeepsRun(merged: seq<Entry>, stops: seq<nat>, fileSize: seq<Entry> -> nat, maxFile: nat, run: seq<Entry>,
      i: nat)
    requires i < |merged| && Behind(run, merged, i) && NotCutLate(merged, stops, fileSize, maxFile, run)
    ensures NotCutLate(merged, stops + [i], fileSize, maxFile, run) && run != []
    ensures StopAfter(merged, stops + [i], run[|run| - 1].ikey)
  {
    hide StopBetween;
    forall k | 0 < k < |run| ensures !StopBetween(merged, stops + [i], run[k - 1].ikey, run[k].ikey) {
      LaterStop(merged, stops, i, run[k - 1].ikey, run[k].ikey);
    }
    assert (stops + [i])[|stops|] == i;
  }

  /** A stop at merged index `i` closes the open run. */
  lemma CutAtStop(merged: seq<Entry>, stops: seq<nat>, fileSize: seq<Entry> -> nat, maxFile: nat,
      outputs: seq<seq<Entry>>, builder: seq<Entry>, i: nat)
    requires CutSoFar(merged, stops, fileSize, maxFile, outputs, builder, i) && i < |merged|
    ensures CutSoFar(merged, stops + [i], fileSize, maxFile,
      if builder == [] then outputs else outputs + [builder], [], i)
  {
    hide NotCutLate, StopBetween, StopAfter;
    var stops' := stops + [i];
    var all: seq<seq<Entry>> := if builder == [] then outputs else outputs + [builder];
    forall j | 0 <= j < |all|
      ensures all[j] != [] && Behind(all[j], merged, i)
      ensures NotCutLate(merged, stops', fileSize, maxFile, all[j])
      ensures StopAfter(merged, stops', all[j][|all[j]| - 1].ikey)
    {
      StopKeepsRun(merged, stops, fileSize, maxFile, all[j], i);
    }
    forall j | 0 <= j < |all| - 1 && fileSize(all[j]) < maxFile
      ensures StopBetween(merged, stops', all[j][|all[j]| - 1].ikey, all[j + 1][0].ikey)
    {
      assert StopBetween(merged, stops, all[j][|all[j]| - 1].ikey, all[j + 1][0].ikey);
      LaterStop(merged, stops, i, all[j][|all[j]| - 1].ikey, all[j + 1][0].ikey);
    }
  }

  lemma NotEmpty(merged: seq<Entry>, stops: seq<nat>, fileSize: seq<Entry> -> nat, maxFile: nat, run: seq<Entry>)
    requires NotCutLate(merged, stops, fileSize, maxFile, run)
    ensures run != []
  {
  }

  lemma BehindNext(merged: seq<Entry>, run: seq<Entry>, i: nat)
    requires i < |merged| && Sorted(merged) && Behind(run, merged, i)
    ensures Behind(run + [merged[i]], merged, i + 1)
  {
  }

  lemma LaterKeysOnly(merged: seq<Entry>, stops: seq<nat>, fileSize: seq<Entry> -> nat, maxFile: nat,
      outputs: seq<seq<Entry>>, builder: seq<Entry>, i: nat)
    requires CutSoFar(merged, stops, fileSize, maxFile, outputs, builder, i)
    ensures CutSoFar(merged, stops, fileSize, maxFile, outputs, builder, i + 1)
  {
  }

  lemma EntryJoins(merged: seq<Entry>, stops: seq<nat>, fileSize: seq<Entry> -> nat, maxFile: nat, run: seq<Entry>,
      e: Entry)
    requires run != [] ==>
      NotCutLate(merged, stops, fileSize, maxFile, run) && fileSize(run) < maxFile &&
      !StopAfter(merged, stops, run[|run| - 1].ikey)
    ensures NotCutLate(merged, stops, fileSize, maxFile, run + [e])
  {
    var all := run + [e];
    forall k | 0 < k < |all|
      ensures fileSize(all[..k]) < maxFile && !StopBetween(merged, stops, all[k - 1].ikey, all[k].ikey)
    {
      assert all[..k] == run[..k];
      if k == |run| { assert run[..k] == run; }
    }
  }

  lemma StopsBehind(gps: Level, max: nat, merged: seq<Entry>, stops: seq<nat>, i: nat)
    requires Sorted(merged) && i < |merged| && StopsRight(gps, merged, max, stops, i + 1)
    ensures !StopAfter(merged, stops, merged[i].ikey)
    ensures forall a :: StopAfter(merged, stops, a) ==> StopBetween(merged, stops, a, merged[i].ikey)
  {
    hide BytesEnding;
    forall t | 0 <= t < |stops| ensures stops[t] <= i && LessEq(merged[stops[t]].ikey, merged[i].ikey) { }
  }

  /** A kept entry joins the open run, which is closed when it is big enough. */
  lemma CutAtSize(gps: Level, max: nat, merged: seq<Entry>, stops: seq<nat>, fileSize: seq<Entry> -> nat, maxFile: nat,
      outputs: seq<seq<Entry>>, builder: seq<Entry>, i: nat)
    requires CutSoFar(merged, stops, fileSize, maxFile, outputs, builder, i) && i < |merged| && Sorted(merged)
    requires StopsRight(gps, merged, max, stops, i + 1)
    ensures var run := builder + [merged[i]];
      if fileSize(run) >= maxFile then CutSoFar(merged, stops, fileSize, maxFile, outputs + [run], [], i + 1)
      else CutSoFar(merged, stops, fileSize, maxFile, outputs, run, i + 1)
  {
    hide StopsRight, StopBetween, StopAfter, Sorted, NotCutLate, Less;
    EntryJoins(merged, stops, fileSize, maxFile, builder, merged[i]);
    StopsBehind(gps, max, merged, stops, i);
    BehindNext(merged, builder, i);
    LaterKeysOnly(merged, stops, fileSize, maxFile, outputs, builder, i);
    var run := builder + [merged[i]];
    assert run[|run| - 1] == merged[i] && (builder != [] ==> run[0] == builder[0]);
    if outputs != [] {
      var last := outputs[|outputs| - 1];
      NotEmpty(merged, stops, fileSize, maxFile, last);
      assert fileSize(last) >= maxFile || StopBetween(merged, stops, last[|last| - 1].ikey, run[0].ikey);
    }
  }

  lemma NothingCut(gps: Level, max: nat, merged: seq<Entry>, fileSize: seq<Entry> -> nat, maxFile: nat)
    ensures StopsRight(gps, merged, max, [], 0) && CutSoFar(merged, [], fileSize, maxFile, [], [], 0)
  {
  }

  ghost function Filter(es: seq<Entry>, keep: set<Entry>): seq<Entry> {
    if es == [] then [] else
    Filter(es[..|es| - 1], keep) + (if es[|es| - 1] in keep then [es[|es| - 1]] else [])
  }

  ghost function Flatten(runs: seq<seq<Entry>>): seq<Entry> {
    if runs == [] then [] else Flatten(runs[..|runs| - 1]) + runs[|runs| - 1]
  }

  lemma FlattenSnoc(runs: seq<seq<Entry>>, run: seq<Entry>)
    ensures Flatten(runs + [run]) == Flatten(runs) + run
  {
    assert (runs + [run])[..|runs|] == runs;
  }

  /** Along the merged input the previous entry of the same key decides rule (A). */
  lemma PredecessorDecides(merged: seq<Entry>, i: nat, oldest: Sequence)
    requires Sorted(merged) && Unique(SetOf(merged)) && i < |merged|
    ensures Hidden(SetOf(merged), oldest, merged[i]) <==>
      i > 0 && merged[i - 1].ikey.user == merged[i].ikey.user && merged[i - 1].ikey.seqno <= oldest
  {
    if i > 0 && merged[i - 1].ikey.user == merged[i].ikey.user {
      assert Less(merged[i - 1].ikey, merged[i].ikey);
      assert merged[i - 1] in SetOf(merged) && merged[i] in SetOf(merged);
    }
    forall n | n in SetOf(merged) && n.ikey.user == merged[i].ikey.user && merged[i].ikey.seqno < n.ikey.seqno
      ensures i > 0 && merged[i - 1].ikey.user == merged[i].ikey.user && merged[i - 1].ikey.seqno <= n.ikey.seqno
    {
      var j :| 0 <= j < |merged| && merged[j] == n;
      NewerComesBefore(merged, j, i);
    }
  }

  lemma NewerComesBefore(merged: seq<Entry>, j: nat, i: nat)
    requires Sorted(merged) && i < |merged| && j < |merged|
    requires merged[j].ikey.user == merged[i].ikey.user && merged[i].ikey.seqno < merged[j].ikey.seqno
    ensures j < i && merged[i - 1].ikey.user == merged[i].ikey.user && merged[i - 1].ikey.seqno <= merged[j].ikey.seqno
  {
    LessTotal(merged[i].ikey, merged[j].ikey);
    if j < i - 1 {
      assert Less(merged[j].ikey, merged[i - 1].ikey);
      assert Less(merged[i - 1].ikey, merged[i].ikey);
    }
  }

  /** Compaction: the picked inputs' context and the cursors advanced while merging. */
  class Compaction {
    const level: nat
    const inputVersion: Version
    const grandparents: Level
    const maxGrandParentOverlapBytes: nat
    const maxOutputFileSize: nat
    var grandparentIndex: nat
    var seenKey: bool
    var overlappedBytes: nat
    var levelPtrs: seq<nat>

    constructor (level: nat, inputVersion: Version, grandparents: Level, maxGp: nat, maxFile: nat)
      ensures this.level == level && this.inputVersion == inputVersion && this.grandparents == grandparents
      ensures maxGrandParentOverlapBytes == maxGp && maxOutputFileSize == maxFile
      ensures grandparentIndex == 0 && !seenKey && overlappedBytes == 0
      ensures levelPtrs == seq(NUM_LEVELS, _ => 0)
    {
      this.level, this.inputVersion, this.grandparents := level, inputVersion, grandparents;
      maxGrandParentOverlapBytes, maxOutputFileSize := maxGp, maxFile;
      grandparentIndex, seenKey, overlappedBytes := 0, false, 0;
      levelPtrs := seq(NUM_LEVELS, _ => 0);
    }

    /** For queries that never decrease, the cursors give the answer of the stateless test. */
    method IsBaseLevelForKey(k: UserKey) returns (r: bool)
      requires DeepLevelsSorted(inputVersion) && PtrsBehind(inputVersion, levelPtrs, k)
      modifies this`levelPtrs
      ensures r == BaseLevel(inputVersion, level, k)
      ensures PtrsBehind(inputVersion, levelPtrs, k)
    {
      var lvl := level + 2;
      while lvl < NUM_LEVELS
        invariant level + 2 <= lvl
        invariant PtrsBehind(inputVersion, levelPtrs, k)
        invariant forall l, f :: level + 2 <= l < lvl && l < NUM_LEVELS && f in inputVersion[l] ==> !Covers(f, k)
      {
        var files := inputVersion[lvl];
        while levelPtrs[lvl] < |files| && files[levelPtrs[lvl]].largest.user < k
          invariant PtrsBehind(inputVersion, levelPtrs, k)
          decreases |files| - levelPtrs[lvl]
        {
          levelPtrs := levelPtrs[lvl := levelPtrs[lvl] + 1];
        }
        CursorDecides(files, levelPtrs[lvl], k);
        if levelPtrs[lvl] < |files| && k >= files[levelPtrs[lvl]].smallest.user {
          return false;
        }
        lvl := lvl + 1;
      }
      r := true;
    }

    ghost predicate GpInv()
      reads this`grandparentIndex, this`seenKey, this`overlappedBytes
    {
      && ValidFiles(grandparents) && Disjoint(grandparents)
      && grandparentIndex <= |grandparents|
      && (!seenKey ==> grandparentIndex == 0 && overlappedBytes == 0)
    }

    /** Overlap seen so far once the scan has moved on from index `from`. */
    ghost function Passed(bytes: nat, seen: bool, from: nat): nat
      requires from <= grandparentIndex <= |grandparents|
      reads this`grandparentIndex
    {
      bytes + if seen then Span(grandparents, from, grandparentIndex) else 0
    }

    /** Advances over the grandparents that end before `key`; reports that they were too many bytes. */
    method ShouldStopBefore(key: IKey) returns (stop: bool)
      requires GpInv()
      requires forall j :: 0 <= j < grandparentIndex ==> Less(grandparents[j].largest, key)
      modifies this`grandparentIndex, this`seenKey, this`overlappedBytes
      ensures GpInv() && seenKey
      ensures grandparentIndex >= old(grandparentIndex) && GpIndex(grandparents, key, grandparentIndex)
      ensures stop == (Passed(old(overlappedBytes), old(seenKey), old(grandparentIndex)) > maxGrandParentOverlapBytes)
      ensures overlappedBytes ==
        (if stop then 0 else Passed(old(overlappedBytes), old(seenKey), old(grandparentIndex)))
    {
      while grandparentIndex < |grandparents| && Less(grandparents[grandparentIndex].largest, key)
        invariant old(grandparentIndex) <= grandparentIndex <= |grandparents|
        invariant forall j :: 0 <= j < grandparentIndex ==> Less(grandparents[j].largest, key)
        invariant seenKey == old(seenKey)
        invariant overlappedBytes == Passed(old(overlappedBytes), old(seenKey), old(grandparentIndex))
        decreases |grandparents| - grandparentIndex
      {
        SpanExtend(grandparents, old(grandparentIndex), grandparentIndex);
        if seenKey {
          overlappedBytes := overlappedBytes + grandparents[grandparentIndex].fileSize;
        }
        grandparentIndex := grandparentIndex + 1;
      }
      seenKey := true;
      if overlappedBytes > maxGrandParentOverlapBytes {
        overlappedBytes := 0;
        return true;
      } else {
        return false;
      }
    }
  }

  lemma SpanSplit(gps: Level, from: nat, mid: nat, to: nat)
    requires from <= mid <= to <= |gps|
    ensures Span(gps, from, to) == Span(gps, from, mid) + Span(gps, mid, to)
  {
    TotalSplit(gps[from..to], mid - from);
    assert gps[from..to][..mid - from] == gps[from..mid];
    assert gps[from..to][mid - from..] == gps[mid..to];
  }

  /** What every finished output satisfies. */
  ghost predicate GoodOutput(c: Compaction, fileSize: seq<Entry> -> nat, run: seq<Entry>) {
    && |run| > 0
    && OverlapBounded(c.grandparents, run[0].ikey, run[|run| - 1].ikey, c.maxGrandParentOverlapBytes)
    && (|run| > 1 ==> fileSize(run[..|run| - 1]) < c.maxOutputFileSize)
  }

  /** The grandparents the open output has run into are accounted for in `overlappedBytes`. */
  ghost predicate OpenOutput(c: Compaction, run: seq<Entry>, from: nat)
    reads c`grandparentIndex, c`overlappedBytes
  {
    && |run| > 0
    && from <= c.grandparentIndex <= |c.grandparents|
    && GpIndex(c.grandparents, run[0].ikey, from)
    && Span(c.grandparents, from, c.grandparentIndex) <= c.overlappedBytes
  }

  /** CompactionState: the outputs finished so far and the one being built (empty when none is open). */
  class CompactionState {
    const compaction: Compaction
    const fileSize: seq<Entry> -> nat   // the table builder's size after the entries added so far
    var outputs: seq<seq<Entry>>
    var builder: seq<Entry>
    ghost var from: nat
    ghost var stops: seq<nat>   // where the merge has come upon too many grandparent bytes

    constructor (c: Compaction, fileSize: seq<Entry> -> nat)
      ensures compaction == c && this.fileSize == fileSize && outputs == [] && builder == [] && stops == []
    {
      compaction, this.fileSize := c, fileSize;
      outputs, builder, from, stops := [], [], 0, [];
    }

    ghost predicate Valid()
      reads this`outputs, this`builder, this`from
      reads compaction`grandparentIndex, compaction`seenKey, compaction`overlappedBytes
    {
      && compaction.GpInv()
      && compaction.overlappedBytes <= compaction.maxGrandParentOverlapBytes
      && (forall j :: 0 <= j < |outputs| ==> GoodOutput(compaction, fileSize, outputs[j]))
      && (builder != [] ==>
           && OpenOutput(compaction, builder, from)
           && GoodOutput(compaction, fileSize, builder)
           && fileSize(builder) < compaction.maxOutputFileSize)
    }

    /** The outputs are cut where they should be by the first `i` merged entries, and the bytes counted are those of the
        grandparents passed since the last stop. */
    ghost predicate CutsMade(merged: seq<Entry>, i: nat)
      requires i <= |merged|
      reads this`outputs, this`builder, this`stops, compaction`overlappedBytes
    {
      var gps := compaction.grandparents;
      && StopsRight(gps, merged, compaction.maxGrandParentOverlapBytes, stops, i)
      && CutSoFar(merged, stops, fileSize, compaction.maxOutputFileSize, outputs, builder, i)
      && compaction.overlappedBytes ==
           if i == 0 then 0 else BytesEnding(gps, merged[CountStart(stops, |stops|)].ikey, merged[i - 1].ikey)
    }

    /** Everything written so far, in order. */
    ghost function Written(): seq<Entry>
      reads this`outputs, this`builder
    {
      Flatten(outputs) + builder
    }

    method FinishCompactionOutputFile()
      requires builder != []
      modifies this`outputs, this`builder
      ensures outputs == old(outputs) + [old(builder)] && builder == [] && Written() == old(Written())
    {
      FlattenSnoc(outputs, builder);
      outputs := outputs + [builder];
      builder := [];
    }

    /** Moves the grandparent scan to `key` and closes the open output if it overlaps too much. */
    method StopBefore(key: IKey) returns (ghost stop: bool)
      requires Valid()
      requires forall j :: 0 <= j < compaction.grandparentIndex ==> Less(compaction.grandparents[j].largest, key)
      requires builder != [] ==> compaction.seenKey
      modifies this`outputs, this`builder
      modifies compaction`grandparentIndex, compaction`seenKey, compaction`overlappedBytes
      ensures Valid() && compaction.seenKey
      ensures compaction.grandparentIndex >= old(compaction.grandparentIndex)
      ensures GpIndex(compaction.grandparents, key, compaction.grandparentIndex)
      ensures Written() == old(Written())
      ensures var bytes := old(compaction.overlappedBytes) +
          if old(compaction.seenKey)
          then Span(compaction.grandparents, old(compaction.grandparentIndex), compaction.grandparentIndex) else 0;
        && stop == (bytes > compaction.maxGrandParentOverlapBytes)
        && compaction.overlappedBytes == if stop then 0 else bytes
      ensures outputs == if stop && old(builder) != [] then old(outputs) + [old(builder)] else old(outputs)
      ensures builder == if stop then [] else old(builder)
    {
      ghost var gi := compaction.grandparentIndex;
      var close := compaction.ShouldStopBefore(key);
      stop := close;
      if close && builder != [] {
        FinishCompactionOutputFile();
      } else if builder != [] {
        SpanSplit(compaction.grandparents, from, gi, compaction.grandparentIndex);
      }
    }

    /** Appends a kept entry, opening an output if none is open and closing it when it is big enough. */
    method AddEntry(e: Entry)
      requires Valid() && GpIndex(compaction.grandparents, e.ikey, compaction.grandparentIndex)
      modifies this`outputs, this`builder, this`from
      ensures Valid() && Written() == old(Written()) + [e]
      ensures var run := old(builder) + [e];
        if fileSize(run) >= compaction.maxOutputFileSize then outputs == old(outputs) + [run] && builder == []
        else outputs == old(outputs) && builder == run
    {
      if builder == [] {
        from := compaction.grandparentIndex;
      }
      ghost var first := if builder == [] then e.ikey else builder[0].ikey;
      BoundHolds(compaction.grandparents, first, e.ikey, from, compaction.grandparentIndex,
        compaction.maxGrandParentOverlapBytes);
      assert (builder + [e])[..|builder|] == builder;
      assert Flatten(outputs) + (builder + [e]) == (Flatten(outputs) + builder) + [e];
      builder := builder + [e];
      if fileSize(builder) >= compaction.maxOutputFileSize {
        FinishCompactionOutputFile();
      }
    }
  }

  /** What the merge loop remembers of the previous entry. */
  datatype KeyState = KeyState(hasCurrentUserKey: bool, currentUserKey: UserKey, lastSequenceForKey: Sequence)

  ghost predicate Remembers(st: KeyState, merged: seq<Entry>, i: nat)
    requires i <= |merged|
  {
    && st.hasCurrentUserKey == (i > 0)
    && (i > 0 ==> st.currentUserKey == merged[i - 1].ikey.user && st.lastSequenceForKey == merged[i - 1].ikey.seqno)
  }

  /** The drop decision for one entry of the merged input. */
  method ShouldDrop(c: Compaction, st: KeyState, ghost merged: seq<Entry>, ghost i: nat, e: Entry, oldest: Sequence)
      returns (drop: bool, st': KeyState)
    requires i < |merged| && merged[i] == e && Sorted(merged) && Unique(SetOf(merged)) && oldest < MAX_SEQUENCE
    requires Remembers(st, merged, i)
    requires DeepLevelsSorted(c.inputVersion) && PtrsBehind(c.inputVersion, c.levelPtrs, e.ikey.user)
    modifies c`levelPtrs
    ensures drop == (e !in Kept(SetOf(merged), oldest, BaseLevelOf(c.inputVersion, c.level)))
    ensures Remembers(st', merged, i + 1)
    ensures PtrsBehind(c.inputVersion, c.levelPtrs, e.ikey.user)
  {
    st' := st;
    if !st'.hasCurrentUserKey || e.ikey.user != st'.currentUserKey {
      st' := KeyState(true, e.ikey.user, MAX_SEQUENCE);
    }
    PredecessorDecides(merged, i, oldest);
    assert e in SetOf(merged);
    drop := false;
    if st'.lastSequenceForKey <= oldest {
      drop := true;
    } else if e.ikey.kind.Deletion? && e.ikey.seqno <= oldest {
      drop := c.IsBaseLevelForKey(e.ikey.user);
    }
    st' := st'.(lastSequenceForKey := e.ikey.seqno);
  }

  ghost predicate CursorsAt(c: Compaction, merged: seq<Entry>, i: nat)
    requires i <= |merged|
    reads c`grandparentIndex, c`seenKey, c`levelPtrs
  {
    if i == 0 then
      c.grandparentIndex == 0 && !c.seenKey && c.levelPtrs == seq(NUM_LEVELS, _ => 0)
    else
      && c.seenKey
      && GpIndex(c.grandparents, merged[i - 1].ikey, c.grandparentIndex)
      && PtrsBehind(c.inputVersion, c.levelPtrs, merged[i - 1].ikey.user)
  }

  lemma CursorsCanAdvance(c: Compaction, merged: seq<Entry>, i: nat)
    requires i < |merged| && Sorted(merged) && CursorsAt(c, merged, i)
    ensures forall j :: 0 <= j < c.grandparentIndex ==> Less(c.grandparents[j].largest, merged[i].ikey)
    ensures PtrsBehind(c.inputVersion, c.levelPtrs, merged[i].ikey.user)
  {
    if i > 0 {
      assert Less(merged[i - 1].ikey, merged[i].ikey);
      GpAdvance(c.grandparents, merged[i - 1].ikey, merged[i].ikey, c.grandparentIndex);
      PtrsAdvance(c.inputVersion, c.levelPtrs, merged[i - 1].ikey.user, merged[i].ikey.user);
    }
  }

  /** At merged index `i` the bytes counted are those of the grandparents passed since the last stop, and they decide
      whether there is one here. */
  lemma CountReaches(c: Compaction, merged: seq<Entry>, stops: seq<nat>, i: nat, before: nat, bytes: nat)
    requires ValidFiles(c.grandparents) && Disjoint(c.grandparents) && Sorted(merged) && i < |merged|
    requires StopsRight(c.grandparents, merged, c.maxGrandParentOverlapBytes, stops, i)
    requires before <= c.grandparentIndex && GpIndex(c.grandparents, merged[i].ikey, c.grandparentIndex)
    requires i > 0 ==> GpIndex(c.grandparents, merged[i - 1].ikey, before)
    requires bytes == if i == 0 then 0 else
      BytesEnding(c.grandparents, merged[CountStart(stops, |stops|)].ikey, merged[i - 1].ikey)
    ensures var gps, max, total :=
        c.grandparents, c.maxGrandParentOverlapBytes,
        bytes + if i == 0 then 0 else Span(c.grandparents, before, c.grandparentIndex);
      var stops' := if total > max then stops + [i] else stops;
      && StopsRight(gps, merged, max, stops', i + 1)
      && BytesEnding(gps, merged[CountStart(stops', |stops'|)].ikey, merged[i].ikey) == if total > max then 0 else total
  {
    hide BytesEnding, Span, ValidFiles, Disjoint, StopsRight, CountStart;
    var gps, key := c.grandparents, merged[i].ikey;
    BytesEndingAdd(gps, key, key, key);
    if i == 0 {
      NoStops(gps, merged, c.maxGrandParentOverlapBytes, stops);
    } else {
      StartBelow(gps, merged, c.maxGrandParentOverlapBytes, stops, i);
      var s := CountStart(stops, |stops|);
      assert LessEq(merged[s].ikey, merged[i - 1].ikey) && LessEq(merged[i - 1].ikey, key);
      BytesEndingAdd(gps, merged[s].ikey, merged[i - 1].ikey, key);
      BytesEndingIsSpan(gps, merged[i - 1].ikey, key, before, c.grandparentIndex);
      var total := BytesEnding(gps, merged[s].ikey, key);
      if total > c.maxGrandParentOverlapBytes {
        StopIsNext(gps, merged, c.maxGrandParentOverlapBytes, stops, i, total);
      } else {
        NoStopYet(gps, merged, c.maxGrandParentOverlapBytes, stops, i, total);
      }
    }
  }

  /** One turn of the merge loop. */
  method ProcessEntry(compact: CompactionState, st: KeyState, merged: seq<Entry>, i: nat, oldest: Sequence)
      returns (st': KeyState)
    requires i < |merged| && Sorted(merged) && Unique(SetOf(merged)) && oldest < MAX_SEQUENCE
    requires compact.Valid() && (i == 0 ==> compact.builder == []) && compact.CutsMade(merged, i)
    requires DeepLevelsSorted(compact.compaction.inputVersion)
    requires Remembers(st, merged, i) && CursorsAt(compact.compaction, merged, i)
    modifies compact, compact.compaction
    ensures compact.Valid() && compact.CutsMade(merged, i + 1)
    ensures Remembers(st', merged, i + 1) && CursorsAt(compact.compaction, merged, i + 1)
    ensures var c := compact.compaction;
      compact.Written() == old(compact.Written()) +
        (if merged[i] in Kept(SetOf(merged), oldest, BaseLevelOf(c.inputVersion, c.level)) then [merged[i]] else [])
  {
    hide StopsRight, CutSoFar, BytesEnding, Span, Sorted, Unique, Kept, BaseLevelOf, DeepLevelsSorted, GoodOutput,
      OpenOutput, Flatten;
    var c := compact.compaction;
    CursorsCanAdvance(c, merged, i);
    ghost var before, bytes := c.grandparentIndex, c.overlappedBytes;
    ghost var outputs, builder, stops := compact.outputs, compact.builder, compact.stops;
    ghost var stop := compact.StopBefore(merged[i].ikey);
    CountReaches(c, merged, stops, i, before, bytes);
    if stop {
      CutAtStop(merged, stops, compact.fileSize, c.maxOutputFileSize, outputs, builder, i);
      compact.stops := stops + [i];
    }
    outputs, builder := compact.outputs, compact.builder;
    LaterKeysOnly(merged, compact.stops, compact.fileSize, c.maxOutputFileSize, outputs, builder, i);
    var drop;
    drop, st' := ShouldDrop(c, st, merged, i, merged[i], oldest);
    if !drop {
      CutAtSize(c.grandparents, c.maxGrandParentOverlapBytes, merged, compact.stops, compact.fileSize,
        c.maxOutputFileSize, outputs, builder, i);
      compact.AddEntry(merged[i]);
    }
  }

  /** The merge loop: walks the merged inputs, drops what no reader can see, and cuts the rest into output runs. */
  method DoCompactionWork(compact: CompactionState, merged: seq<Entry>, oldest: Sequence)
    requires compact.Valid() && compact.outputs == [] && compact.builder == []
    requires DeepLevelsSorted(compact.compaction.inputVersion) && CursorsAt(compact.compaction, merged, 0)
    requires Sorted(merged) && Unique(SetOf(merged)) && oldest < MAX_SEQUENCE && compact.stops == []
    modifies compact, compact.compaction
    ensures compact.Valid() && compact.builder == []
    ensures var c := compact.compaction;
      && StopsRight(c.grandparents, merged, c.maxGrandParentOverlapBytes, compact.stops, |merged|)
      && CutRight(merged, compact.stops, compact.fileSize, c.maxOutputFileSize, compact.outputs)
    ensures var c := compact.compaction;
      Flatten(compact.outputs) == Filter(merged, Kept(SetOf(merged), oldest, BaseLevelOf(c.inputVersion, c.level)))
  {
    hide Filter, Kept, Sorted, Unique, GoodOutput, OpenOutput, DeepLevelsSorted, BaseLevelOf, Flatten, NotCutLate,
      StopsRight, BytesEnding, Behind;
    ghost var keep := Kept(SetOf(merged), oldest,
      BaseLevelOf(compact.compaction.inputVersion, compact.compaction.level));
    var st := KeyState(false, 0.0, MAX_SEQUENCE);
    NothingFiltered(keep);
    NothingCut(compact.compaction.grandparents, compact.compaction.maxGrandParentOverlapBytes, merged,
      compact.fileSize, compact.compaction.maxOutputFileSize);
    for i := 0 to |merged|
      invariant compact.Valid() && (i == 0 ==> compact.builder == []) && compact.CutsMade(merged, i)
      invariant compact.Written() == Filter(merged[..i], keep)
      invariant Remembers(st, merged, i) && CursorsAt(compact.compaction, merged, i)
    {
      st := ProcessEntry(compact, st, merged, i, oldest);
      FilterStep(merged, i, keep);
    }
    assert merged[..|merged|] == merged;
    if compact.builder != [] {
      compact.FinishCompactionOutputFile();
    }
  }

  lemma NothingFiltered(keep: set<Entry>)
    ensures Filter([], keep) == [] && Flatten([]) == []
  {
  }

  lemma FilterStep(es: seq<Entry>, i: nat, keep: set<Entry>)
    requires i < |es|
    ensures Filter(es[..i + 1], keep) == Filter(es[..i], keep) + (if es[i] in keep then [es[i]] else [])
    ensures es[i] in SetOf(es)
  {
    assert es[..i + 1][..i] == es[..i];
  }

  lemma PtrsAdvance(v: Version, ptrs: seq<nat>, a: UserKey, b: UserKey)
    requires PtrsBehind(v, ptrs, a) && a <= b
    ensures PtrsBehind(v, ptrs, b)
  {
    forall l, j | 0 <= l < NUM_LEVELS && 0 <= j < ptrs[l] ensures v[l][j].largest.user < b {
      assert v[l][j].largest.user < a;
    }
  }

  lemma GpAdvance(gps: Level, a: IKey, b: IKey, i: nat)
    requires GpIndex(gps, a, i) && Less(a, b)
    ensures forall j :: 0 <= j < i ==> Less(gps[j].largest, b)
  {
    forall j | 0 <= j < i ensures Less(gps[j].largest, b) {
      LessTransitive(gps[j].largest, a, b);
    }
  }
}
