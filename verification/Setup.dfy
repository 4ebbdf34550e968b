/** The inputs of a compaction. */
module Setup {
  // Seeds, closure and the next level's files (db/version_set.cc lines 1270-1322, 1403-1495).

  import opened Basics
  import opened DbFormat
  import opened Versions
  import opened CompactionLoop
  import opened Picking

  /** The files chosen at the level itself: at level 0 they are cut off by a user-key range, deeper down
      no file left behind continues the user key one of them ends with. */
  ghost predicate Detached(files: Level, level: nat, in0: seq<File>) {
    if level == 0 then
      exists r: Range :: CutOff(files, in0, r)
    else
      forall f, g :: f in in0 && g in files && g !in in0 ==> !IsBoundary(g, f.largest)
  }

  ghost predicate CutOff(files: Level, in0: seq<File>, r: Range) {
    && (forall f :: f in in0 ==> Within(f, r))
    && (forall g :: g in files && g !in in0 ==> !InRange(g, r))
  }

  /** Exactly the files of the next level that overlap the user-key hull of `in0`. */
  ghost predicate OverlapsHull(files: Level, in0: seq<File>, in1: seq<File>) {
    exists s, l :: HullOf(files, in0, in1, s, l)
  }

  ghost predicate HullOf(files: Level, in0: seq<File>, in1: seq<File>, s: IKey, l: IKey) {
    IsHull(in0, s, l) && in1 == OverlapFilter(files, Range(Some(s.user), Some(l.user)))
  }

  /** What the input selection guarantees to the compaction. */
  ghost predicate Picked(v: Version, level: nat, in0: seq<File>, in1: seq<File>) {
    && level + 1 < NUM_LEVELS
    && in0 != []
    && NoDuplicates(in0)
    && (forall f :: f in in0 ==> f in v[level])
    && Detached(v[level], level, in0)
    && OverlapsHull(v[level + 1], in0, in1)
  }

  /** Exactly the files of the level two below that overlap the user-key hull of all inputs. */
  ghost predicate GrandparentsOf(v: Version, level: nat, in0: seq<File>, in1: seq<File>, gps: seq<File>) {
    if level + 2 < NUM_LEVELS then
      exists s, l :: IsHull(in0 + in1, s, l) && gps == OverlapFilter(v[level + 2], Range(Some(s.user), Some(l.user)))
    else gps == []
  }

  lemma GrandparentsDisjoint(v: Version, level: nat, in0: seq<File>, in1: seq<File>, gps: seq<File>)
    requires DeepLevelsSorted(v) && GrandparentsOf(v, level, in0, in1, gps)
    ensures ValidFiles(gps) && Disjoint(gps)
  {
    if level + 2 < NUM_LEVELS {
      var s, l :| IsHull(in0 + in1, s, l) && gps == OverlapFilter(v[level + 2], Range(Some(s.user), Some(l.user)));
      FilterDisjoint(v[level + 2], Range(Some(s.user), Some(l.user)));
    }
  }

  /** What the callers hand to SetupOtherInputs. */
  ghost predicate Seeded(v: Version, level: nat, in0: seq<File>) {
    && level + 1 < NUM_LEVELS
    && in0 != []
    && NoDuplicates(in0)
    && (forall f :: f in in0 ==> f in v[level])
    && (if level == 0 then exists r: Range :: CutOff(v[0], in0, r) else NoGap(v[level], in0))
  }

  /** At level 0 the inputs are cut off already, so there are no boundary files to add. */
  lemma CutOffHasNoBoundary(files: Level, in0: seq<File>, r: seq<File>, key: IKey)
    requires ValidFiles(files) && forall f :: f in in0 ==> f in files
    requires exists range: Range :: CutOff(files, in0, range)
    requires BoundaryExtension(files, in0, r, key) && NoDuplicates(in0)
    ensures r == in0
  {
    var range :| CutOff(files, in0, range);
    if |in0| < |r| {
      var b := r[|in0|];
      assert b in r;
      var f :| f in in0 && IsBoundary(b, f.largest);
      FileBounds(b, b.entries[0]);
      FileBounds(f, f.entries[0]);
      // b overlaps the range, so it is a chosen file, none of which starts after f's end
      NotTwice(in0, r);
      assert false;
    }
  }

  lemma NotTwice(in0: seq<File>, r: seq<File>)
    requires NoDuplicates(r) && |in0| < |r| && r[..|in0|] == in0
    ensures r[|in0|] !in in0
  {
    forall j | 0 <= j < |in0| ensures in0[j] != r[|in0|] {
      assert r[..|in0|][j] == r[j];
    }
  }

  /** Deeper down the extension leaves no file behind that continues a chosen one. */
  lemma ExtensionDetached(files: Level, in0: seq<File>, r: seq<File>, key: IKey)
    requires ValidFiles(files) && Disjoint(files) && NoGap(files, in0)
    requires BoundaryExtension(files, in0, r, key)
    requires forall f :: f in files ==> !IsBoundary(f, key)
    ensures forall f, g :: f in r && g in files && g !in r ==> !IsBoundary(g, f.largest)
  {
    var m :| m in r && m.largest == key;
    forall f, g | f in r && g in files && g !in r ensures !IsBoundary(g, f.largest) {
      var i :| 0 <= i < |files| && files[i] == m;
      var j :| 0 <= j < |files| && files[j] == g;
      FileBounds(m, m.entries[0]);
      FileBounds(g, g.entries[0]);
      if j < i {
        assert !Between(f, g, m);
        assert Less(g.largest, m.smallest);
      } else {
        assert Less(m.largest, g.smallest);
        assert f.largest.user <= key.user < g.smallest.user;
      }
    }
  }

  /** The picked inputs with what the compaction needs besides. */
  datatype Picks = Picks(inputs0: seq<File>, inputs1: seq<File>, grandparents: seq<File>, largest: IKey)

  /** Options the selection depends on; the sizes are those of the file metadata. */
  datatype Options = Options(maxFileSize: nat)

  function MaxGrandParentOverlapBytes(o: Options): nat { 10 * o.maxFileSize }

  function ExpandedCompactionByteSizeLimit(o: Options): nat { 25 * o.maxFileSize }

  // ---------- which inputs exactly ----------

  /** The chosen files with their boundary files, and nothing else. */
  ghost predicate ClosedUp(files: Level, chosen: seq<File>, in0: seq<File>) {
    BoundaryChain(files, chosen, in0) && EndsCleanly(files, in0)
  }

  /** The files of the level for a key range, in their order: those that overlap it, and at level 0 the least set of
      files closed under overlap that holds them. */
  ghost predicate FilesFor(v: Version, level: nat, r: Range, inputs: seq<File>)
    requires level < NUM_LEVELS
  {
    if level == 0 then
      LeastClosed(v[0], r, set f | f in inputs) && exists wide: Range :: inputs == OverlapFilter(v[0], wide)
    else inputs == OverlapFilter(v[level], r)
  }

  /** All files of the level within the reach of both inputs. */
  ghost predicate Widened(v: Version, level: nat, in0: seq<File>, in1: seq<File>, wide0: seq<File>)
    requires level < NUM_LEVELS
  {
    exists s, l, seeds :: IsHull(in0 + in1, s, l) && FilesFor(v, level, UserRange(Some(s), Some(l)), seeds) &&
      ClosedUp(v[level], seeds, wide0)
  }

  /** The inputs grow to `wide0` if there are more of those, they are not too many bytes, and the next level's inputs
      stay as many as they were. */
  ghost predicate Expansion(v: Version, level: nat, in0: seq<File>, in1: seq<File>, o: Options, wide0: seq<File>,
      p0: seq<File>, p1: seq<File>)
    requires level + 1 < NUM_LEVELS
  {
    && Widened(v, level, in0, in1, wide0)
    && if |wide0| > |in0| && TotalFileSize(in1) + TotalFileSize(wide0) < ExpandedCompactionByteSizeLimit(o) then
         exists wide1 :: OverlapsHull(v[level + 1], wide0, wide1) &&
           p0 == (if |wide1| == |in1| then wide0 else in0) && p1 == (if |wide1| == |in1| then wide1 else in1)
       else p0 == in0 && p1 == in1
  }

  /** What SetupOtherInputs makes of the files its caller has chosen. */
  ghost predicate SetUp(v: Version, level: nat, chosen: seq<File>, o: Options, p0: seq<File>, p1: seq<File>)
    requires level + 1 < NUM_LEVELS
  {
    exists in0, in1 :: FirstInputs(v, level, chosen, in0, in1) && ExpandedTo(v, level, in0, in1, o, p0, p1)
  }

  ghost predicate FirstInputs(v: Version, level: nat, chosen: seq<File>, in0: seq<File>, in1: seq<File>)
    requires level + 1 < NUM_LEVELS
  {
    ClosedUp(v[level], chosen, in0) && OverlapsHull(v[level + 1], in0, in1)
  }

  /** Without files at the next level there is nothing to gain by an expansion. */
  ghost predicate ExpandedTo(
      v: Version, level: nat, in0: seq<File>, in1: seq<File>, o: Options, p0: seq<File>, p1: seq<File>)
    requires level + 1 < NUM_LEVELS
  {
    if in1 == [] then p0 == in0 && p1 == in1 else exists wide0 :: Expansion(v, level, in0, in1, o, wide0, p0, p1)
  }

  /** The shortest prefix with at least `limit` bytes, or all files if there is none. */
  ghost predicate UpToBytes(all: seq<File>, limit: nat, inputs: seq<File>) {
    && inputs <= all
    && (forall n :: 0 < n < |inputs| ==> TotalFileSize(all[..n]) < limit)
    && (|inputs| < |all| ==> inputs != [] && TotalFileSize(inputs) >= limit)
  }

  /** Closes a set of inputs of one level. */
  method CloseInputs(v: Version, level: nat, chosen: seq<File>) returns (in0: seq<File>)
    requires DeepLevelsSorted(v) && Seeded(v, level, chosen)
    ensures in0 != [] && NoDuplicates(in0) && (forall f :: f in in0 ==> f in v[level])
    ensures Detached(v[level], level, in0) && ClosedUp(v[level], chosen, in0)
    ensures forall f :: f in chosen ==> f in in0
  {
    ghost var key;
    in0, key := AddBoundaryInputs(v[level], chosen);
    assert forall f :: f in chosen ==> f in in0[..|chosen|];
    if level == 0 {
      CutOffHasNoBoundary(v[0], chosen, in0, key);
    } else {
      ExtensionDetached(v[level], chosen, in0, key);
    }
  }

  /** The files of the level overlapping a key range, as seeds for CloseInputs. */
  method OverlappingSeeds(v: Version, level: nat, begin: Option<IKey>, end: Option<IKey>) returns (inputs: seq<File>)
    requires DeepLevelsSorted(v) && level + 1 < NUM_LEVELS && NoDuplicates(v[level])
    ensures inputs != [] ==> Seeded(v, level, inputs) && exists f :: f in v[level] && InRange(f, UserRange(begin, end))
    ensures forall f :: f in v[level] && InRange(f, UserRange(begin, end)) ==> f in inputs
    ensures level > 0 ==> inputs == OverlapFilter(v[level], UserRange(begin, end))
    ensures FilesFor(v, level, UserRange(begin, end), inputs)
  {
    ghost var r;
    inputs, r := GetOverlappingInputs(v[level], level == 0, begin, end);
    FilterMembers(v[level], r);
    FilterNoDuplicates(v[level], r);
    if level == 0 {
      assert CutOff(v[0], inputs, r);
      ClosedAroundRange(v[0], UserRange(begin, end), inputs);
    } else {
      if inputs != [] { assert inputs[0] in inputs; }
      FilterNoGap(v[level], r);
    }
  }

  /** Nothing is chosen for a range that nothing overlaps. */
  lemma ClosedAroundRange(files: Level, r0: Range, inputs: seq<File>)
    requires LeastClosed(files, r0, set f | f in inputs)
    ensures inputs != [] ==> exists f :: f in files && InRange(f, r0)
  {
    var s := set f | f in inputs;
    assert inputs != [] ==> inputs[0] in s;
    if forall f :: f in files ==> !InRange(f, r0) {
      assert OverlapClosed(files, r0, {});
      assert s <= {};
    }
  }

  lemma {:induction false} FilterNoDuplicates(files: seq<File>, r: Range)
    requires NoDuplicates(files)
    ensures NoDuplicates(OverlapFilter(files, r))
  {
    if files != [] {
      var init := files[..|files| - 1];
      FilterNoDuplicates(init, r);
      FilterMembers(init, r);
      var g := OverlapFilter(init, r);
      assert forall i :: 0 <= i < |g| ==> g[i] in g;
    }
  }

  lemma FilterNoGap(files: Level, r: Range)
    requires ValidFiles(files) && Disjoint(files)
    ensures NoGap(files, OverlapFilter(files, r))
  {
    FilterMembers(files, r);
    var inputs := OverlapFilter(files, r);
    forall f, g, h | f in inputs && h in inputs && g in files && Between(f, g, h)
      ensures g in inputs
    {
      FileBounds(g, g.entries[0]);
      assert f.largest.user <= g.smallest.user <= g.largest.user <= h.smallest.user;
    }
  }

  /** The part of a range of seeds a manual compaction takes at once. */
  lemma PrefixNoGap(files: Level, inputs: seq<File>, n: nat)
    requires ValidFiles(files) && Disjoint(files) && n <= |inputs|
    requires Disjoint(inputs) && NoGap(files, inputs) && forall f :: f in inputs ==> f in files
    ensures NoGap(files, inputs[..n])
  {
    forall f, g, h | f in inputs[..n] && h in inputs[..n] && g in files && Between(f, g, h)
      ensures g in inputs[..n]
    {
      assert f in inputs && h in inputs && h in files && g in inputs;
      var i :| 0 <= i < |inputs| && inputs[i] == g;
      var j :| 0 <= j < n && inputs[j] == h;
      FileBounds(g, g.entries[0]);
      FileBounds(h, h.entries[0]);
      if j < i {
        LessTransitive(h.smallest, h.largest, g.smallest);
        LessTransitive(h.smallest, g.smallest, g.largest);
      }
      assert i <= j;
    }
  }

  lemma HullCoversUsers(inputs: seq<File>, s: IKey, l: IKey)
    requires IsHull(inputs, s, l)
    ensures forall f :: f in inputs ==> s.user <= f.smallest.user && f.largest.user <= l.user
  {
  }

  /** The next level's files overlapping the hull of a closed set of inputs. */
  method NextLevelInputs(v: Version, level: nat, in0: seq<File>) returns (in1: seq<File>, smallest: IKey, largest: IKey)
    requires DeepLevelsSorted(v) && level + 1 < NUM_LEVELS && in0 != []
    requires NoDuplicates(in0) && (forall f :: f in in0 ==> f in v[level]) && Detached(v[level], level, in0)
    ensures Picked(v, level, in0, in1) && IsHull(in0, smallest, largest)
  {
    smallest, largest := GetRange(in0);
    ghost var r;
    in1, r := GetOverlappingInputs(v[level + 1], false, Some(smallest), Some(largest));
    assert HullOf(v[level + 1], in0, in1, smallest, largest);
  }

  /** A selection in progress: closed inputs of both levels, and the largest key of the first. */
  ghost predicate Selection(v: Version, level: nat, chosen: seq<File>, in0: seq<File>, in1: seq<File>, largest: IKey) {
    && Picked(v, level, in0, in1)
    && (forall f :: f in chosen ==> f in in0)
    && (exists smallest :: IsHull(in0, smallest, largest))
  }

  /** Takes more inputs at this level if that does not change the number of files at the next. */
  method TryExpand(v: Version, level: nat, chosen: seq<File>, in0: seq<File>, in1: seq<File>, largest: IKey,
                   allStart: IKey, allLimit: IKey, o: Options)
      returns (in0': seq<File>, in1': seq<File>, largest': IKey)
    requires DeepLevelsSorted(v) && level + 1 < NUM_LEVELS && NoDuplicates(v[level])
    requires Selection(v, level, chosen, in0, in1, largest) && IsHull(in0 + in1, allStart, allLimit)
    ensures Selection(v, level, chosen, in0', in1', largest')
    ensures exists wide0 :: Expansion(v, level, in0, in1, o, wide0, in0', in1')
  {
    hide BoundaryChain, EndsCleanly, LeastClosed, IsHull, TotalFileSize, DeepLevelsSorted, Seeded, NoDuplicates,
      Detached, HullOf, OverlapFilter, InRange;
    in0', in1', largest' := in0, in1, largest;
    var seeds := OverlappingSeeds(v, level, Some(allStart), Some(allLimit));
    ChosenStays(v, level, in0, in1, allStart, allLimit);
    assert in0[0] in in0;
    var expanded0 := CloseInputs(v, level, seeds);
    assert Widened(v, level, in0, in1, expanded0);
    if |expanded0| > |in0|
       && TotalFileSize(in1) + TotalFileSize(expanded0) < ExpandedCompactionByteSizeLimit(o) {
      var expanded1, newStart, newLimit := NextLevelInputs(v, level, expanded0);
      if |expanded1| == |in1| {
        in0', in1', largest' := expanded0, expanded1, newLimit;
      }
    }
    assert Expansion(v, level, in0, in1, o, expanded0, in0', in1');
  }

  /** VersionSet::SetupOtherInputs. */
  method SetupOtherInputs(v: Version, level: nat, chosen: seq<File>, o: Options) returns (p: Picks)
    requires DeepLevelsSorted(v) && Seeded(v, level, chosen) && NoDuplicates(v[level])
    ensures Selection(v, level, chosen, p.inputs0, p.inputs1, p.largest)
    ensures GrandparentsOf(v, level, p.inputs0, p.inputs1, p.grandparents)
    ensures SetUp(v, level, chosen, o, p.inputs0, p.inputs1)
  {
    hide BoundaryChain, EndsCleanly, TotalFileSize, DeepLevelsSorted, Seeded, NoDuplicates, Detached, HullOf,
      OverlapFilter, InRange, Expansion, ClosedUp, OverlapsHull;
    SeededFacts(v, level, chosen);
    var in0 := CloseInputs(v, level, chosen);
    var in1, smallest, largest := NextLevelInputs(v, level, in0);
    ghost var first0, first1 := in0, in1;
    if in1 != [] {
      var allStart, allLimit := GetRange(in0 + in1);
      in0, in1, largest := TryExpand(v, level, chosen, in0, in1, largest, allStart, allLimit, o);
    }
    var grandparents := [];
    if level + 2 < NUM_LEVELS {
      var allStart, allLimit := GetRange(in0 + in1);
      ghost var r;
      grandparents, r := GetOverlappingInputs(v[level + 2], false, Some(allStart), Some(allLimit));
    }
    p := Picks(in0, in1, grandparents, largest);
    assert FirstInputs(v, level, chosen, first0, first1) && ExpandedTo(v, level, first0, first1, o, in0, in1);
  }

  lemma SeededFacts(v: Version, level: nat, chosen: seq<File>)
    requires DeepLevelsSorted(v) && Seeded(v, level, chosen)
    ensures level + 1 < NUM_LEVELS && (level + 2 < NUM_LEVELS ==> ValidFiles(v[level + 2]))
  {
  }

  lemma ChosenStays(v: Version, level: nat, in0: seq<File>, in1: seq<File>, allStart: IKey, allLimit: IKey)
    requires DeepLevelsSorted(v) && level < NUM_LEVELS && IsHull(in0 + in1, allStart, allLimit)
    requires forall f :: f in in0 ==> f in v[level]
    ensures forall f :: f in in0 ==> InRange(f, UserRange(Some(allStart), Some(allLimit)))
  {
    HullCoversUsers(in0 + in1, allStart, allLimit);
    forall f | f in in0 ensures InRange(f, UserRange(Some(allStart), Some(allLimit))) {
      assert f in in0 + in1;
      FileBounds(f, f.entries[0]);
    }
  }

  /** VersionSet::PickCompaction for a level that needs one: the file after the last compaction's end
      (or the file charged with too many seeks), with everything it overlaps at level 0. */
  method PickCompaction(v: Version, level: nat, compactPointer: Option<IKey>, seekFile: Option<File>, o: Options)
      returns (p: Picks)
    requires DeepLevelsSorted(v) && level + 1 < NUM_LEVELS && v[level] != [] && NoDuplicates(v[level])
    requires seekFile.Some? ==> seekFile.value in v[level]
    ensures Picked(v, level, p.inputs0, p.inputs1)
    ensures GrandparentsOf(v, level, p.inputs0, p.inputs1, p.grandparents)
    ensures seekFile.Some? ==> seekFile.value in p.inputs0
    ensures seekFile.None? ==> exists i: nat :: IsSeed(v[level], compactPointer, i) && v[level][i] in p.inputs0
    ensures exists smallest :: IsHull(p.inputs0, smallest, p.largest)
    ensures exists picked, chosen ::
      && (if seekFile.Some? then picked == seekFile.value
          else exists i: nat :: IsSeed(v[level], compactPointer, i) && v[level][i] == picked)
      && (if level == 0 then
            FilesFor(v, 0, Range(Some(picked.smallest.user), Some(picked.largest.user)), chosen)
          else chosen == [picked])
      && SetUp(v, level, chosen, o, p.inputs0, p.inputs1)
  {
    hide SetUp, LeastClosed, OverlapFilter, Picked, GrandparentsOf, IsHull, NoGap, NoDuplicates;
    var picked := v[level][0];
    ghost var seed := 0;
    if seekFile.Some? {
      picked := seekFile.value;
    } else {
      for i := 0 to |v[level]|
        invariant picked == v[level][0] && seed == 0
        invariant forall j :: 0 <= j < i ==> !PastPointer(v[level][j], compactPointer)
      {
        if compactPointer.None? || Less(compactPointer.value, v[level][i].largest) {
          picked, seed := v[level][i], i;
          break;
        }
      }
      assert IsSeed(v[level], compactPointer, seed) && v[level][seed] == picked;
    }
    var inputs := [picked];
    FileBounds(picked, picked.entries[0]);
    if level == 0 {
      var smallest, largest := GetRange(inputs);
      assert InRange(picked, UserRange(Some(smallest), Some(largest)));
      inputs := OverlappingSeeds(v, 0, Some(smallest), Some(largest));
    } else {
      SingletonNoGap(v[level], picked);
    }
    p := SetupOtherInputs(v, level, inputs, o);
  }

  /** The file reaches past the key where the last compaction of the level ended. */
  predicate PastPointer(f: File, compactPointer: Option<IKey>) {
    compactPointer.None? || Less(compactPointer.value, f.largest)
  }

  /** The first file past the pointer, or the first of all if there is none. */
  ghost predicate IsSeed(files: Level, compactPointer: Option<IKey>, i: nat) {
    i < |files| &&
    if PastPointer(files[i], compactPointer) then forall j :: 0 <= j < i ==> !PastPointer(files[j], compactPointer)
    else i == 0 && forall j :: 0 <= j < |files| ==> !PastPointer(files[j], compactPointer)
  }

  lemma SingletonNoGap(files: Level, f: File)
    requires ValidFiles(files) && Disjoint(files) && f in files
    ensures NoGap(files, [f]) && NoDuplicates([f])
  {
    forall g | g in files ensures !Between(f, g, f) {
      FileBounds(f, f.entries[0]);
      FileBounds(g, g.entries[0]);
      if Less(f.largest, g.smallest) {
        LessTransitive(f.smallest, f.largest, g.smallest);
        LessTransitive(f.smallest, g.smallest, g.largest);
      }
    }
  }

  lemma SeedsLieInOrder(v: Version, level: nat, all: seq<File>, r: Range)
    requires DeepLevelsSorted(v) && 0 < level < NUM_LEVELS && all == OverlapFilter(v[level], r)
    ensures ValidFiles(v[level]) && Disjoint(v[level]) && Disjoint(all)
  {
    FilterDisjoint(v[level], r);
  }

  lemma PrefixSeeded(v: Version, level: nat, all: seq<File>, n: nat)
    requires level > 0 && Seeded(v, level, all) && 0 < n <= |all|
    requires ValidFiles(v[level]) && Disjoint(v[level]) && Disjoint(all)
    ensures Seeded(v, level, all[..n])
  {
    PrefixNoGap(v[level], all, n);
  }

  /** VersionSet::CompactRange: a manual compaction takes at most about one file's worth of a deeper level. */
  method CompactRange(v: Version, level: nat, begin: Option<IKey>, end: Option<IKey>, o: Options)
      returns (p: Option<Picks>)
    requires DeepLevelsSorted(v) && level + 1 < NUM_LEVELS && NoDuplicates(v[level])
    ensures p.Some? ==> Picked(v, level, p.value.inputs0, p.value.inputs1)
    ensures p.Some? ==> GrandparentsOf(v, level, p.value.inputs0, p.value.inputs1, p.value.grandparents)
    ensures p.None? <==> forall f :: f in v[level] ==> !InRange(f, UserRange(begin, end))
    ensures p.Some? ==> exists f :: f in p.value.inputs0 && InRange(f, UserRange(begin, end))
    ensures p.Some? && level == 0 ==> forall f :: f in v[0] && InRange(f, UserRange(begin, end)) ==>
      f in p.value.inputs0
    ensures p.Some? ==> exists all, chosen ::
      && FilesFor(v, level, UserRange(begin, end), all)
      && (if level == 0 then chosen == all else UpToBytes(all, o.maxFileSize, chosen))
      && SetUp(v, level, chosen, o, p.value.inputs0, p.value.inputs1)
  {
    hide SetUp, FilesFor, UpToBytes, DeepLevelsSorted, OverlapFilter, Seeded, Picked, IsHull, NoDuplicates;
    var seeds := OverlappingSeeds(v, level, begin, end);
    if seeds == [] {
      return None;
    }
    SeedsOverlap(v, level, seeds, UserRange(begin, end));
    var inputs := TakeSeeds(v, level, seeds, UserRange(begin, end), o);
    var picks := SetupOtherInputs(v, level, inputs, o);
    p := Some(picks);
  }

  lemma SeedsOverlap(v: Version, level: nat, seeds: seq<File>, r: Range)
    requires seeds != [] && Seeded(v, level, seeds)
    requires level > 0 ==> seeds == OverlapFilter(v[level], r)
    ensures forall f :: f in seeds ==> f in v[level]
    ensures level > 0 ==> InRange(seeds[0], r)
  {
    FilterMembers(v[level], r);
    assert seeds[0] in seeds;
  }

  /** Off level 0, the seeds up to the size of one file. */
  method TakeSeeds(v: Version, level: nat, all: seq<File>, r: Range, o: Options) returns (inputs: seq<File>)
    requires DeepLevelsSorted(v) && all != [] && Seeded(v, level, all)
    requires level > 0 ==> all == OverlapFilter(v[level], r)
    ensures Seeded(v, level, inputs) && inputs != [] && inputs <= all && (level == 0 ==> inputs == all)
    ensures level > 0 ==> UpToBytes(all, o.maxFileSize, inputs)
  {
    hide OverlapFilter, DeepLevelsSorted, Less, InRange, Sorted, NoGap;
    inputs := all;
    if level > 0 {
      SeedsLieInOrder(v, level, all, r);
      var total := 0;
      for i := 0 to |all|
        invariant inputs == all && total == TotalFileSize(all[..i])
        invariant forall n :: 0 < n <= i ==> TotalFileSize(all[..n]) < o.maxFileSize
      {
        assert all[..i + 1][..i] == all[..i];
        total := total + all[i].fileSize;
        if total >= o.maxFileSize {
          inputs := all[..i + 1];
          PrefixSeeded(v, level, all, i + 1);
          break;
        }
      }
    }
  }
}
