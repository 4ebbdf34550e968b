/** Choosing files by key range. */
module Picking {
  // Where a flush goes and what a compaction takes (db/version_set.cc lines 108-157, 491-559, 1205-1235, 1270-1495).

  import opened Basics
  import opened DbFormat
  import opened Versions
  import opened ReadPath
  import opened CompactionLoop

  /** A range of user keys; an absent end is unbounded. */
  datatype Range = Range(lo: Option<UserKey>, hi: Option<UserKey>)

  function UserRange(begin: Option<IKey>, end: Option<IKey>): Range {
    Range(if begin.Some? then Some(begin.value.user) else None, if end.Some? then Some(end.value.user) else None)
  }

  /** AfterFile: the null key is before every file. */
  predicate AfterFile(k: Option<UserKey>, f: File) {
    k.Some? && k.value > f.largest.user
  }

  /** BeforeFile: the null key is after every file. */
  predicate BeforeFile(k: Option<UserKey>, f: File) {
    k.Some? && k.value < f.smallest.user
  }

  predicate InRange(f: File, r: Range) {
    !AfterFile(r.lo, f) && !BeforeFile(r.hi, f)
  }

  predicate Within(f: File, r: Range) {
    && (r.lo.Some? ==> r.lo.value <= f.smallest.user)
    && (r.hi.Some? ==> f.largest.user <= r.hi.value)
  }

  predicate SubRange(a: Range, b: Range) {
    && (b.lo.Some? ==> a.lo.Some? && b.lo.value <= a.lo.value)
    && (b.hi.Some? ==> a.hi.Some? && a.hi.value <= b.hi.value)
  }

  predicate UserOverlap(f: File, g: File) {
    f.smallest.user <= g.largest.user && g.smallest.user <= f.largest.user
  }

  // ---------- SomeFileOverlapsRange, PickLevelForMemTableOutput ----------

  method SomeFileOverlapsRange(disjointSortedFiles: bool, files: Level, lo: Option<UserKey>, hi: Option<UserKey>)
      returns (r: bool)
    requires ValidFiles(files) && (disjointSortedFiles ==> Disjoint(files))
    requires lo.Some? && hi.Some? ==> lo.value <= hi.value
    ensures r <==> exists f :: f in files && InRange(f, Range(lo, hi))
  {
    if !disjointSortedFiles {
      for i := 0 to |files|
        invariant forall j :: 0 <= j < i ==> !InRange(files[j], Range(lo, hi))
      {
        if AfterFile(lo, files[i]) || BeforeFile(hi, files[i]) {
        } else {
          assert files[i] in files;
          return true;
        }
      }
      return false;
    }

    var index := 0;
    if lo.Some? {
      LargestIncrease(files);
      index := FindFile(files, IKey(lo.value, MAX_SEQUENCE, KIND_FOR_SEEK));
    }
    forall j | 0 <= j < index ensures AfterFile(lo, files[j]) { }
    if index >= |files| {
      return false;
    }
    r := !BeforeFile(hi, files[index]);
    assert !AfterFile(lo, files[index]);
    if r {
      assert files[index] in files;
    } else {
      forall j | index <= j < |files| ensures BeforeFile(hi, files[j]) {
        FileBounds(files[index], files[index].entries[0]);
        if index < j { assert Less(files[index].largest, files[j].smallest); }
      }
    }
  }

  ghost predicate NoOverlap(files: Level, lo: UserKey, hi: UserKey) {
    forall f :: f in files ==> !InRange(f, Range(Some(lo), Some(hi)))
  }

  /** The bytes of the files of a level that overlap a user-key range. */
  function OverlapBytes(files: Level, lo: UserKey, hi: UserKey): nat {
    TotalFileSize(OverlapFilter(files, Range(Some(lo), Some(hi))))
  }

  /** Where a table of this range goes: down from level 0 past levels it does not overlap, while the files two levels
      down that it overlaps are few enough, and no further than level 2; and there something does stop it. */
  ghost predicate IsFlushLevel(v: Version, lo: UserKey, hi: UserKey, maxGp: nat, level: nat) {
    && level <= 2
    && (forall l :: 0 <= l <= level && level > 0 ==> NoOverlap(v[l], lo, hi))
    && (forall l :: 2 <= l <= level + 1 ==> OverlapBytes(v[l], lo, hi) <= maxGp)
    && (|| (level == 0 && !NoOverlap(v[0], lo, hi))
        || level == 2
        || !NoOverlap(v[level + 1], lo, hi)
        || OverlapBytes(v[level + 2], lo, hi) > maxGp)
  }

  /** The level a flushed table goes to. */
  method PickLevelForMemTableOutput(v: Version, smallestUserKey: UserKey, largestUserKey: UserKey, maxGp: nat)
      returns (level: nat)
    requires DeepLevelsSorted(v) && smallestUserKey <= largestUserKey
    ensures level <= MAX_MEM_COMPACT_LEVEL
    ensures level > 0 ==> forall l :: 0 <= l <= level ==> NoOverlap(v[l], smallestUserKey, largestUserKey)
    ensures IsFlushLevel(v, smallestUserKey, largestUserKey, maxGp, level)
  {
    level := 0;
    var overlap := SomeFileOverlapsRange(false, v[0], Some(smallestUserKey), Some(largestUserKey));
    if !overlap {
      var start := IKey(smallestUserKey, MAX_SEQUENCE, KIND_FOR_SEEK);
      var limit := IKey(largestUserKey, 0, Deletion);
      while level < MAX_MEM_COMPACT_LEVEL
        invariant 0 <= level <= MAX_MEM_COMPACT_LEVEL
        invariant forall l :: 0 <= l <= level ==> NoOverlap(v[l], smallestUserKey, largestUserKey)
        invariant forall l :: 2 <= l <= level + 1 ==> OverlapBytes(v[l], smallestUserKey, largestUserKey) <= maxGp
      {
        overlap := SomeFileOverlapsRange(true, v[level + 1], Some(smallestUserKey), Some(largestUserKey));
        if overlap {
          break;
        }
        if level + 2 < NUM_LEVELS {
          var overlaps, _ := GetOverlappingInputs(v[level + 2], false, Some(start), Some(limit));
          if TotalFileSize(overlaps) > maxGp {
            break;
          }
        }
        level := level + 1;
      }
    }
  }

  // ---------- GetOverlappingInputs ----------

  function OverlapFilter(files: seq<File>, r: Range): seq<File> {
    if files == [] then [] else
    OverlapFilter(files[..|files| - 1], r) +
      (if InRange(files[|files| - 1], r) then [files[|files| - 1]] else [])
  }

  lemma {:induction false} FilterMembers(files: seq<File>, r: Range)
    ensures forall f :: f in OverlapFilter(files, r) <==> f in files && InRange(f, r)
  {
    if files != [] {
      FilterMembers(files[..|files| - 1], r);
      assert files == files[..|files| - 1] + [files[|files| - 1]];
    }
  }

  lemma {:induction false} FilterDisjoint(files: seq<File>, r: Range)
    requires ValidFiles(files) && Disjoint(files)
    ensures ValidFiles(OverlapFilter(files, r)) && Disjoint(OverlapFilter(files, r))
  {
    hide Less, Sorted, InRange;
    if files != [] {
      var init := files[..|files| - 1];
      FilterDisjoint(init, r);
      FilterMembers(init, r);
      assert forall f :: f in init ==> Less(f.largest, files[|files| - 1].smallest);
      var g := OverlapFilter(init, r);
      assert forall i :: 0 <= i < |g| ==> g[i] in g;
    }
  }

  /** `s` holds every file overlapping the range and, with a file, every file overlapping it. */
  ghost predicate OverlapClosed(files: seq<File>, r: Range, s: set<File>) {
    && (forall f :: f in files && InRange(f, r) ==> f in s)
    && (forall f, g :: f in files && g in files && g in s && UserOverlap(f, g) ==> f in s)
  }

  /** Every file overlapping range `r` is forced by the closure of the files overlapping `r0`. */
  ghost predicate ForcedBy(files: seq<File>, r0: Range, r: Range) {
    forall s: set<File>, f :: OverlapClosed(files, r0, s) && f in files && InRange(f, r) ==> f in s
  }

  function CountStartingBefore(files: seq<File>, lo: Option<UserKey>): nat {
    if files == [] then 0 else
    CountStartingBefore(files[1..], lo) + (if BeforeFileStart(files[0], lo) then 1 else 0)
  }

  function CountEndingAfter(files: seq<File>, hi: Option<UserKey>): nat {
    if files == [] then 0 else
    CountEndingAfter(files[1..], hi) + (if AfterFileEnd(files[0], hi) then 1 else 0)
  }

  predicate BeforeFileStart(f: File, lo: Option<UserKey>) { lo.Some? && f.smallest.user < lo.value }

  predicate AfterFileEnd(f: File, hi: Option<UserKey>) { hi.Some? && f.largest.user > hi.value }

  lemma {:induction false} FewerStartBefore(files: seq<File>, lo: UserKey, f: File)
    requires f.smallest.user < lo
    ensures CountStartingBefore(files, Some(f.smallest.user)) <= CountStartingBefore(files, Some(lo))
    ensures f in files ==> CountStartingBefore(files, Some(f.smallest.user)) < CountStartingBefore(files, Some(lo))
  {
    if files != [] {
      FewerStartBefore(files[1..], lo, f);
      assert files == [files[0]] + files[1..];
    }
  }

  lemma {:induction false} FewerEndAfter(files: seq<File>, hi: UserKey, f: File)
    requires f.largest.user > hi
    ensures CountEndingAfter(files, Some(f.largest.user)) <= CountEndingAfter(files, Some(hi))
    ensures f in files ==> CountEndingAfter(files, Some(f.largest.user)) < CountEndingAfter(files, Some(hi))
  {
    if files != [] {
      FewerEndAfter(files[1..], hi, f);
      assert files == [files[0]] + files[1..];
    }
  }

  /** Growing the range over a file it already overlaps forces nothing new but what that file forces. */
  lemma GrowForced(files: seq<File>, r0: Range, r: Range, f: File, grown: Range)
    requires ValidFiles(files) && ForcedBy(files, r0, r) && f in files && InRange(f, r)
    requires
      || (r.lo.Some? && f.smallest.user < r.lo.value && grown == r.(lo := Some(f.smallest.user)))
      || (r.hi.Some? && f.largest.user > r.hi.value && grown == r.(hi := Some(f.largest.user)))
    ensures ForcedBy(files, r0, grown)
  {
    forall s: set<File>, g | OverlapClosed(files, r0, s) && g in files && InRange(g, grown) ensures g in s {
      assert f in s;
      FileBounds(g, g.entries[0]);
      if !InRange(g, r) { assert UserOverlap(g, f); }
    }
  }

  /** All files overlapping the range; at level 0 the range grows with every file that sticks out of it. */
  method GetOverlappingInputs(files: Level, level0: bool, begin: Option<IKey>, end: Option<IKey>)
      returns (inputs: seq<File>, ghost r: Range)
    requires ValidFiles(files)
    ensures !level0 ==> inputs == OverlapFilter(files, UserRange(begin, end))
    ensures level0 ==> LeastClosed(files, UserRange(begin, end), set f | f in inputs)
    ensures inputs == OverlapFilter(files, r) && SubRange(UserRange(begin, end), r)
    ensures !level0 ==> r == UserRange(begin, end)
    ensures level0 ==> forall f :: f in inputs ==> Within(f, r)
    ensures level0 ==> ForcedBy(files, UserRange(begin, end), r)
  {
    inputs := [];
    var userBegin, userEnd := UserRange(begin, end).lo, UserRange(begin, end).hi;
    var i := 0;
    while i < |files|
      invariant 0 <= i <= |files|
      invariant SubRange(UserRange(begin, end), Range(userBegin, userEnd))
      invariant userBegin.Some? == begin.Some? && userEnd.Some? == end.Some?
      invariant inputs == OverlapFilter(files[..i], Range(userBegin, userEnd))
      invariant !level0 ==> Range(userBegin, userEnd) == UserRange(begin, end)
      invariant level0 ==> forall f :: f in inputs ==> Within(f, Range(userBegin, userEnd))
      invariant level0 ==> ForcedBy(files, UserRange(begin, end), Range(userBegin, userEnd))
      decreases CountStartingBefore(files, userBegin) + CountEndingAfter(files, userEnd), |files| - i
    {
      var f := files[i];
      i := i + 1;
      assert files[..i][..i - 1] == files[..i - 1];
      if begin.Some? && f.largest.user < userBegin.value {
      } else if end.Some? && f.smallest.user > userEnd.value {
      } else {
        inputs := inputs + [f];
        if level0 {
          if begin.Some? && f.smallest.user < userBegin.value {
            FewerStartBefore(files, userBegin.value, f);
            GrowForced(files, UserRange(begin, end), Range(userBegin, userEnd), f,
              Range(Some(f.smallest.user), userEnd));
            userBegin := Some(f.smallest.user);
            inputs := [];
            i := 0;
          } else if end.Some? && f.largest.user > userEnd.value {
            FewerEndAfter(files, userEnd.value, f);
            GrowForced(files, UserRange(begin, end), Range(userBegin, userEnd), f,
              Range(userBegin, Some(f.largest.user)));
            userEnd := Some(f.largest.user);
            inputs := [];
            i := 0;
          }
        }
      }
    }
    assert files[..|files|] == files;
    r := Range(userBegin, userEnd);
    if level0 { OverlapClosureIsLeast(files, UserRange(begin, end), r); }
  }

  /** Closed under user-key overlap with the range and within the level, and part of every such set. */
  ghost predicate LeastClosed(files: Level, r0: Range, s: set<File>) {
    OverlapClosed(files, r0, s) && forall t: set<File> :: OverlapClosed(files, r0, t) ==> s <= t
  }

  /** At level 0 the chosen files are the least set closed under user-key overlap
      that covers the given range. */
  lemma OverlapClosureIsLeast(files: Level, r0: Range, r: Range)
    requires ValidFiles(files) && SubRange(r0, r) && ForcedBy(files, r0, r)
    requires forall f :: f in OverlapFilter(files, r) ==> Within(f, r)
    ensures LeastClosed(files, r0, set f | f in OverlapFilter(files, r))
  {
    FilterMembers(files, r);
    var s := set f | f in OverlapFilter(files, r);
    forall f, g | f in files && g in files && g in s && UserOverlap(f, g) ensures f in s {
      assert Within(g, r);
    }
    forall t: set<File> | OverlapClosed(files, r0, t) ensures s <= t {
      forall f | f in s ensures f in t { }
    }
  }

  // ---------- boundary files ----------

  /** The minimal internal-key range covering all of `inputs`. */
  ghost predicate IsHull(inputs: seq<File>, smallest: IKey, largest: IKey) {
    && (exists f :: f in inputs && f.smallest == smallest)
    && (exists f :: f in inputs && f.largest == largest)
    && (forall f :: f in inputs ==> LessEq(smallest, f.smallest) && LessEq(f.largest, largest))
  }

  method GetRange(inputs: seq<File>) returns (smallest: IKey, largest: IKey)
    requires inputs != []
    ensures IsHull(inputs, smallest, largest)
  {
    smallest, largest := inputs[0].smallest, inputs[0].largest;
    for i := 1 to |inputs|
      invariant exists j :: 0 <= j < i && inputs[j].smallest == smallest
      invariant exists j :: 0 <= j < i && inputs[j].largest == largest
      invariant forall j :: 0 <= j < i ==> LessEq(smallest, inputs[j].smallest) && LessEq(inputs[j].largest, largest)
    {
      var f := inputs[i];
      if Less(f.smallest, smallest) {
        forall j | 0 <= j < i ensures LessEq(f.smallest, inputs[j].smallest) {
          LessTransitive(f.smallest, smallest, inputs[j].smallest);
        }
        smallest := f.smallest;
      }
      if Less(largest, f.largest) {
        forall j | 0 <= j < i ensures LessEq(inputs[j].largest, f.largest) {
          LessTransitive(inputs[j].largest, largest, f.largest);
        }
        largest := f.largest;
      }
    }
  }

  /** A file starting after `key` at the same user key. */
  predicate IsBoundary(f: File, key: IKey) {
    Less(key, f.smallest) && f.smallest.user == key.user
  }

  method FindSmallestBoundaryFile(levelFiles: Level, largestKey: IKey) returns (r: Option<File>)
    ensures r.None? ==> forall f :: f in levelFiles ==> !IsBoundary(f, largestKey)
    ensures r.Some? ==> r.value in levelFiles && IsBoundary(r.value, largestKey)
    ensures r.Some? ==> forall f :: f in levelFiles && IsBoundary(f, largestKey) ==>
      LessEq(r.value.smallest, f.smallest)
  {
    r := None;
    for i := 0 to |levelFiles|
      invariant r.None? ==> forall j :: 0 <= j < i ==> !IsBoundary(levelFiles[j], largestKey)
      invariant r.Some? ==> r.value in levelFiles && IsBoundary(r.value, largestKey)
      invariant r.Some? ==> forall j :: 0 <= j < i && IsBoundary(levelFiles[j], largestKey)
                              ==> LessEq(r.value.smallest, levelFiles[j].smallest)
    {
      var f := levelFiles[i];
      if Less(largestKey, f.smallest) && f.smallest.user == largestKey.user {
        if r.None? || Less(f.smallest, r.value.smallest) {
          r := Some(f);
        }
      }
    }
  }

  ghost predicate Between(f: File, g: File, h: File) {
    Less(f.largest, g.smallest) && Less(g.largest, h.smallest)
  }

  /** No file of the level lies between two chosen ones. */
  ghost predicate NoGap(levelFiles: Level, inputs: seq<File>) {
    forall f, g, h {:trigger Between(f, g, h)} :: f in inputs && h in inputs && g in levelFiles && Between(f, g, h) ==>
      g in inputs
  }

  ghost predicate NoDuplicates(inputs: seq<File>) {
    forall i, j :: 0 <= i < j < |inputs| ==> inputs[i] != inputs[j]
  }

  function CountStartingAfter(files: seq<File>, key: IKey): nat {
    if files == [] then 0 else
    CountStartingAfter(files[1..], key) + (if Less(key, files[0].smallest) then 1 else 0)
  }

  lemma {:induction false} FewerStartAfter(files: seq<File>, key: IKey, f: File)
    requires Less(key, f.smallest) && LessEq(f.smallest, f.largest)
    ensures CountStartingAfter(files, f.largest) <= CountStartingAfter(files, key)
    ensures f in files ==> CountStartingAfter(files, f.largest) < CountStartingAfter(files, key)
  {
    if files != [] {
      FewerStartAfter(files[1..], key, f);
      assert files == [files[0]] + files[1..];
      LessTransitive(key, f.smallest, f.largest);
      if Less(f.largest, files[0].smallest) { LessTransitive(key, f.largest, files[0].smallest); }
    }
  }

  /** `r` extends `chosen` by boundary files, and `key` is its largest key. */
  ghost predicate BoundaryExtension(levelFiles: Level, chosen: seq<File>, r: seq<File>, key: IKey) {
    && |chosen| <= |r| && r[..|chosen|] == chosen
    && (forall f :: f in r ==> f in levelFiles && LessEq(f.largest, key))
    && (exists f :: f in r && f.largest == key)
    && (|chosen| < |r| ==> exists f :: f in chosen && IsBoundary(r[|chosen|], f.largest))
    && (NoDuplicates(chosen) ==> NoDuplicates(r))
    && (Disjoint(levelFiles) && NoGap(levelFiles, chosen) ==> NoGap(levelFiles, r))
  }

  /** The first file in key order to continue the user key `key` ends. */
  ghost predicate NextBoundary(levelFiles: Level, key: IKey, b: File) {
    b in levelFiles && IsBoundary(b, key) &&
    forall f :: f in levelFiles && IsBoundary(f, key) ==> LessEq(b.smallest, f.smallest)
  }

  /** `r` is `chosen` with boundary files, each the next one after everything before it. */
  ghost predicate BoundaryChain(levelFiles: Level, chosen: seq<File>, r: seq<File>) {
    chosen <= r && forall i :: |chosen| <= i < |r| ==> ChainLink(levelFiles, r[..i], r[i])
  }

  ghost predicate ChainLink(levelFiles: Level, before: seq<File>, b: File) {
    exists f :: f in before && (forall g :: g in before ==> LessEq(g.largest, f.largest)) &&
      NextBoundary(levelFiles, f.largest, b)
  }

  lemma ChainGrows(levelFiles: Level, chosen: seq<File>, r: seq<File>, b: File)
    requires BoundaryChain(levelFiles, chosen, r) && ChainLink(levelFiles, r, b)
    ensures BoundaryChain(levelFiles, chosen, r + [b])
  {
    hide ChainLink;
    var all := r + [b];
    forall i | |chosen| <= i < |all| ensures ChainLink(levelFiles, all[..i], all[i]) {
      assert all[..i] == if i == |r| then r else r[..i];
    }
  }

  /** Extends the inputs until no file of the level continues their last user key. */
  method AddBoundaryInputs(levelFiles: Level, compactionFiles: seq<File>) returns (r: seq<File>, ghost largestKey: IKey)
    requires ValidFiles(levelFiles) && compactionFiles != []
    requires forall f :: f in compactionFiles ==> f in levelFiles
    ensures compactionFiles <= r && (forall f :: f in r ==> f in levelFiles)
    ensures NoDuplicates(compactionFiles) ==> NoDuplicates(r)
    ensures EndsCleanly(levelFiles, r) && BoundaryChain(levelFiles, compactionFiles, r)
    ensures BoundaryExtension(levelFiles, compactionFiles, r, largestKey)
    ensures forall f :: f in levelFiles ==> !IsBoundary(f, largestKey)
  {
    hide NoDuplicates, NoGap, Disjoint, EndsCleanly, BoundaryChain, ChainLink, BoundaryExtension, IsHull, IsBoundary;
    var _, key := GetRange(compactionFiles);
    r := compactionFiles;
    NothingAdded(levelFiles, compactionFiles, key);
    var continueSearching := true;
    while continueSearching
      invariant BoundaryExtension(levelFiles, compactionFiles, r, key)
      invariant BoundaryChain(levelFiles, compactionFiles, r)
      invariant !continueSearching ==> forall f :: f in levelFiles ==> !IsBoundary(f, key)
      decreases continueSearching, CountStartingAfter(levelFiles, key)
    {
      var boundary := FindSmallestBoundaryFile(levelFiles, key);
      if boundary.Some? {
        AppendBoundary(levelFiles, compactionFiles, r, key, boundary.value);
        FewerFollow(levelFiles, key, boundary.value);
        LinkFrom(levelFiles, compactionFiles, r, key, boundary.value);
        ChainGrows(levelFiles, compactionFiles, r, boundary.value);
        r := r + [boundary.value];
        key := boundary.value.largest;
      } else {
        continueSearching := false;
      }
    }
    largestKey := key;
    LargestEnds(levelFiles, compactionFiles, r, key);
    ExtensionFacts(levelFiles, compactionFiles, r, key);
  }

  lemma NothingAdded(levelFiles: Level, chosen: seq<File>, key: IKey)
    requires (forall f :: f in chosen ==> f in levelFiles) && exists s :: IsHull(chosen, s, key)
    ensures BoundaryExtension(levelFiles, chosen, chosen, key) && BoundaryChain(levelFiles, chosen, chosen)
  {
    hide NoDuplicates, NoGap, Disjoint;
    assert chosen[..|chosen|] == chosen;
  }

  lemma FewerFollow(levelFiles: Level, key: IKey, b: File)
    requires IsBoundary(b, key) && LessEq(b.smallest, b.largest) && b in levelFiles
    ensures CountStartingAfter(levelFiles, b.largest) < CountStartingAfter(levelFiles, key)
  {
    FewerStartAfter(levelFiles, key, b);
  }

  lemma LinkFrom(levelFiles: Level, chosen: seq<File>, r: seq<File>, key: IKey, b: File)
    requires BoundaryExtension(levelFiles, chosen, r, key) && b in levelFiles && IsBoundary(b, key)
    requires forall f :: f in levelFiles && IsBoundary(f, key) ==> LessEq(b.smallest, f.smallest)
    ensures ChainLink(levelFiles, r, b)
  {
    hide NoDuplicates, NoGap, Disjoint, IsBoundary;
    var f :| f in r && f.largest == key;
    assert NextBoundary(levelFiles, f.largest, b);
  }

  lemma ExtensionFacts(levelFiles: Level, chosen: seq<File>, r: seq<File>, key: IKey)
    requires BoundaryExtension(levelFiles, chosen, r, key)
    ensures chosen <= r && forall f :: f in r ==> f in levelFiles
    ensures NoDuplicates(chosen) ==> NoDuplicates(r)
  {
    hide NoDuplicates, NoGap, Disjoint;
  }

  lemma LargestEnds(levelFiles: Level, chosen: seq<File>, r: seq<File>, key: IKey)
    requires BoundaryExtension(levelFiles, chosen, r, key) && forall f :: f in levelFiles ==> !IsBoundary(f, key)
    ensures EndsCleanly(levelFiles, r)
  {
    hide NoDuplicates, NoGap, Disjoint;
    forall g | g in r && forall h :: h in r ==> LessEq(h.largest, g.largest) ensures g.largest == key {
      LessTotal(g.largest, key);
    }
  }

  /** No file of the level starts after the largest key of `r` at the same user key. */
  ghost predicate EndsCleanly(levelFiles: Level, r: seq<File>) {
    forall f, g :: f in levelFiles && g in r && (forall h :: h in r ==> LessEq(h.largest, g.largest)) ==>
      !IsBoundary(f, g.largest)
  }

  lemma AppendBoundary(levelFiles: Level, chosen: seq<File>, r: seq<File>, key: IKey, b: File)
    requires ValidFiles(levelFiles) && b in levelFiles && IsBoundary(b, key)
    requires BoundaryExtension(levelFiles, chosen, r, key)
    requires forall f :: f in levelFiles && IsBoundary(f, key) ==> LessEq(b.smallest, f.smallest)
    ensures LessEq(b.smallest, b.largest)
    ensures BoundaryExtension(levelFiles, chosen, r + [b], b.largest)
  {
    BoundaryIsNew(r, key, b);
    assert (r + [b])[..|chosen|] == r[..|chosen|];
    assert b in r + [b];
    if |chosen| == |r| { assert r == chosen; }
    if Disjoint(levelFiles) && NoGap(levelFiles, r) {
      NoGapStep(levelFiles, r, key, b);
    }
  }

  lemma BoundaryIsNew(r: seq<File>, key: IKey, b: File)
    requires ValidFile(b) && IsBoundary(b, key)
    requires forall f :: f in r ==> LessEq(f.largest, key)
    ensures LessEq(b.smallest, b.largest)
    ensures b !in r && forall f :: f in r ==> LessEq(f.largest, b.largest)
  {
    FileBounds(b, b.entries[0]);
    forall f | f in r ensures LessEq(f.largest, b.largest) && f != b {
      LessTransitive(f.largest, key, b.smallest);
      LessTransitive(f.largest, b.smallest, b.largest);
    }
  }

  lemma NoGapStep(levelFiles: Level, r: seq<File>, key: IKey, b: File)
    requires ValidFiles(levelFiles) && Disjoint(levelFiles) && NoGap(levelFiles, r)
    requires b in levelFiles && IsBoundary(b, key)
    requires forall f :: f in r ==> f in levelFiles && LessEq(f.largest, b.largest)
    requires exists f :: f in r && f.largest == key
    requires forall f :: f in levelFiles && IsBoundary(f, key) ==> LessEq(b.smallest, f.smallest)
    ensures NoGap(levelFiles, r + [b])
  {
    var m :| m in r && m.largest == key;
    forall f, g, h | f in r + [b] && h in r + [b] && g in levelFiles && Between(f, g, h)
      ensures g in r + [b]
    {
      FileBounds(g, g.entries[0]);
      FileBounds(b, b.entries[0]);
      assert f == b ==> !Less(g.largest, h.smallest) by {
        var p :| 0 <= p < |levelFiles| && levelFiles[p] == h;
        FileBounds(h, h.entries[0]);
        if f == b && Less(g.largest, h.smallest) {
          LessTransitive(b.largest, g.smallest, g.largest);
          LessTransitive(b.largest, g.largest, h.smallest);
          LessTransitive(b.largest, h.smallest, h.largest);
        }
      }
      if h == b {
        NotBetween(levelFiles, m, g, b);
        assert g == m || Between(f, g, m);
      }
    }
  }

  /** A file between the last input and its smallest boundary file would itself be a smaller boundary file. */
  lemma NotBetween(levelFiles: Level, m: File, g: File, b: File)
    requires ValidFiles(levelFiles) && Disjoint(levelFiles)
    requires m in levelFiles && g in levelFiles && b in levelFiles
    requires IsBoundary(b, m.largest) && Less(g.largest, b.smallest)
    requires forall f :: f in levelFiles && IsBoundary(f, m.largest) ==> LessEq(b.smallest, f.smallest)
    ensures g == m || Less(g.largest, m.smallest)
  {
    var i :| 0 <= i < |levelFiles| && levelFiles[i] == m;
    var j :| 0 <= j < |levelFiles| && levelFiles[j] == g;
    FileBounds(g, g.entries[0]);
    LessTransitive(g.smallest, g.largest, b.smallest);
    assert !IsBoundary(g, m.largest);
    assert !(i < j);
  }
}
