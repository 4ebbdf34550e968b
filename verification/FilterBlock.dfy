/** The filter block. */
module FilterBlocks {
  // One filter for every 2 KB of table offsets (table/filter_block.cc): the builder that flattens keys and collects
  // filters, and the reader that finds the filter of an offset.

  import opened Basics
  import opened Coding

  const FILTER_BASE_LG: Byte := 11
  const FILTER_BASE: nat := 2048

  /** A filter policy: the bytes it appends for a list of keys, and its answer about a key. */
  datatype Policy = Policy(create: seq<Bytes> -> Bytes, mayMatch: (Bytes, Bytes) -> bool)

  ghost predicate NoFalseNegatives(p: Policy) {
    forall keys, k :: k in keys ==> p.mayMatch(k, p.create(keys))
  }

  // ---------- what a builder produces ----------

  function Filter(p: Policy, keys: seq<Bytes>): Bytes {
    if keys == [] then [] else p.create(keys)
  }

  function Filters(p: Policy, groups: seq<seq<Bytes>>): Bytes {
    if groups == [] then [] else Filters(p, groups[..|groups| - 1]) + Filter(p, groups[|groups| - 1])
  }

  function Offsets(p: Policy, groups: seq<seq<Bytes>>): (r: seq<U32>)
    ensures |r| == |groups|
  {
    if groups == [] then []
    else Offsets(p, groups[..|groups| - 1]) + [|Filters(p, groups[..|groups| - 1])| % TWO32]
  }

  /** The finished block: filters, their offsets, the offset of that array, and the base parameter. */
  function FilterBlock(p: Policy, groups: seq<seq<Bytes>>): Bytes {
    Filters(p, groups) + FixedAll(Offsets(p, groups)) + Fixed32(|Filters(p, groups)| % TWO32) + [FILTER_BASE_LG]
  }

  function Concat(keys: seq<Bytes>): Bytes {
    if keys == [] then [] else Concat(keys[..|keys| - 1]) + keys[|keys| - 1]
  }

  lemma {:induction false} ConcatPrefix(keys: seq<Bytes>, i: nat)
    requires i <= |keys|
    ensures |Concat(keys[..i])| <= |Concat(keys)| && Concat(keys)[..|Concat(keys[..i])|] == Concat(keys[..i])
    decreases |keys|
  {
    if i == |keys| {
      assert keys[..i] == keys;
    } else {
      assert keys[..|keys| - 1][..i] == keys[..i];
      ConcatPrefix(keys[..|keys| - 1], i);
    }
  }

  lemma ConcatPart(keys: seq<Bytes>, i: nat)
    requires i < |keys|
    ensures var from, end := |Concat(keys[..i])|, |Concat(keys[..i + 1])|;
      from <= end <= |Concat(keys)| && Concat(keys)[from..end] == keys[i]
  {
    var from, end := |Concat(keys[..i])|, |Concat(keys[..i + 1])|;
    assert keys[..i + 1][..i] == keys[..i];
    ConcatPrefix(keys, i + 1);
    assert Concat(keys)[from..end] == Concat(keys)[..end][from..];
  }

  // ---------- a run of calls ----------

  /** The finished filters' keys, and those of the filter being gathered. */
  datatype Build = Build(groups: seq<seq<Bytes>>, pending: seq<Bytes>)

  datatype Call = StartBlock(offset: nat) | AddKey(key: Bytes)

  /** Filters are closed until the one for this offset is open. */
  function Started(b: Build, offset: nat): Build
    decreases offset / FILTER_BASE - |b.groups|
  {
    if offset / FILTER_BASE > |b.groups| then Started(Build(b.groups + [b.pending], []), offset) else b
  }

  function AfterCalls(calls: seq<Call>): Build {
    if calls == [] then Build([], [])
    else
      var b := AfterCalls(calls[..|calls| - 1]);
      match calls[|calls| - 1]
      case StartBlock(offset) => Started(b, offset)
      case AddKey(k) => Build(b.groups, b.pending + [k])
  }

  /** Offsets never go back behind a filter already closed. */
  predicate Legal(calls: seq<Call>) {
    calls == [] ||
    (Legal(calls[..|calls| - 1])
     && (calls[|calls| - 1].StartBlock? ==>
           |AfterCalls(calls[..|calls| - 1]).groups| <= calls[|calls| - 1].offset / FILTER_BASE))
  }

  function Finished(b: Build): seq<seq<Bytes>> {
    b.groups + (if b.pending == [] then [] else [b.pending])
  }

  /** The block the next key belongs to. */
  function CurrentBlock(calls: seq<Call>): Option<nat> {
    if calls == [] then None
    else if calls[|calls| - 1].StartBlock? then Some(calls[|calls| - 1].offset)
    else CurrentBlock(calls[..|calls| - 1])
  }

  /** A key is where its block's filter is, closed or still open. */
  ghost predicate Holds(b: Build, index: nat, k: Bytes) {
    if index < |b.groups| then k in b.groups[index] else index == |b.groups| && k in b.pending
  }

  lemma {:induction false} StartedKeeps(b: Build, offset: nat, index: nat, k: Bytes)
    requires Holds(b, index, k)
    ensures Holds(Started(b, offset), index, k)
    decreases offset / FILTER_BASE - |b.groups|
  {
    if offset / FILTER_BASE > |b.groups| {
      StartedKeeps(Build(b.groups + [b.pending], []), offset, index, k);
    }
  }

  lemma {:induction false} StartedIndex(b: Build, offset: nat)
    requires |b.groups| <= offset / FILTER_BASE
    ensures |Started(b, offset).groups| == offset / FILTER_BASE
    decreases offset / FILTER_BASE - |b.groups|
  {
    if offset / FILTER_BASE > |b.groups| {
      StartedIndex(Build(b.groups + [b.pending], []), offset);
    }
  }

  lemma {:induction false} OpenFilter(calls: seq<Call>)
    requires Legal(calls) && CurrentBlock(calls).Some?
    ensures |AfterCalls(calls).groups| == CurrentBlock(calls).value / FILTER_BASE
  {
    var init, last := calls[..|calls| - 1], calls[|calls| - 1];
    if last.StartBlock? {
      StartedIndex(AfterCalls(init), last.offset);
    } else {
      OpenFilter(init);
    }
  }

  /** Every key ends up among those of the filter for its block. */
  lemma {:induction false} KeyIsHeld(calls: seq<Call>, i: nat)
    requires Legal(calls) && i < |calls| && calls[i].AddKey? && CurrentBlock(calls[..i]).Some?
    ensures Holds(AfterCalls(calls), CurrentBlock(calls[..i]).value / FILTER_BASE, calls[i].key)
    decreases |calls|
  {
    var init, last := calls[..|calls| - 1], calls[|calls| - 1];
    if i == |calls| - 1 {
      OpenFilter(init);
    } else {
      assert init[..i] == calls[..i];
      KeyIsHeld(init, i);
      if last.StartBlock? {
        StartedKeeps(AfterCalls(init), last.offset, CurrentBlock(calls[..i]).value / FILTER_BASE, calls[i].key);
      }
    }
  }

  class FilterBlockBuilder {
    const policy: Policy
    var keys: Bytes              // flattened keys of the current filter
    var start: seq<nat>          // where each of them begins
    var result: Bytes
    var filterOffsets: seq<U32>
    ghost var pending: seq<Bytes>
    ghost var groups: seq<seq<Bytes>>

    ghost predicate Valid()
      reads this
    {
      && keys == Concat(pending) && |start| == |pending|
      && (forall i :: 0 <= i < |start| ==> start[i] == |Concat(pending[..i])|)
      && result == Filters(policy, groups)
      && filterOffsets == Offsets(policy, groups)
    }

    constructor (policy: Policy)
      ensures Valid() && pending == [] && groups == [] && this.policy == policy
    {
      this.policy := policy;
      keys, start, result, filterOffsets, pending, groups := [], [], [], [], [], [];
    }

    /** The keys that follow go to the filter of this block's offset. */
    method StartBlock(blockOffset: nat)
      requires Valid() && |groups| <= blockOffset / FILTER_BASE
      modifies this
      ensures Valid() && Build(groups, pending) == Started(old(Build(groups, pending)), blockOffset)
    {
      var filterIndex := blockOffset / FILTER_BASE;
      while filterIndex > |filterOffsets|
        invariant Valid() && |groups| <= filterIndex
        invariant Started(Build(groups, pending), blockOffset) == Started(old(Build(groups, pending)), blockOffset)
        decreases filterIndex - |filterOffsets|
      {
        GenerateFilter();
      }
    }

    method AddKey(k: Bytes)
      requires Valid()
      modifies this
      ensures Valid() && pending == old(pending) + [k] && groups == old(groups)
    {
      start := start + [|keys|];
      keys := keys + k;
      assert (pending + [k])[..|pending|] == pending;
      assert forall i :: 0 <= i < |pending| ==> (pending + [k])[..i] == pending[..i];
      pending := pending + [k];
    }

    method GenerateFilter()
      requires Valid()
      modifies this
      ensures Valid() && groups == old(groups) + [old(pending)] && pending == []
    {
      hide FixedAll;
      ghost var after := groups + [pending];
      assert after[..|groups|] == groups;
      var numKeys := |start|;
      if numKeys == 0 {
        filterOffsets := filterOffsets + [|result| % TWO32];
        groups := after;
        assert Filters(policy, after) == result + [] == result;
        return;
      }
      var tmpKeys := TmpKeys();
      filterOffsets := filterOffsets + [|result| % TWO32];
      result := result + policy.create(tmpKeys);
      keys, start := [], [];
      groups, pending := after, [];
    }

    /** The keys cut out of their flattened form. */
    method TmpKeys() returns (tmpKeys: seq<Bytes>)
      requires Valid()
      ensures tmpKeys == pending
    {
      hide Concat, Filters, Offsets;
      var ends := start + [|keys|];
      assert pending[..|pending|] == pending;
      tmpKeys := [];
      for i := 0 to |start|
        invariant tmpKeys == pending[..i]
      {
        ConcatPart(pending, i);
        tmpKeys := tmpKeys + [keys[ends[i]..ends[i + 1]]];
      }
    }

    method Finish() returns (block: Bytes)
      requires Valid()
      modifies this
      ensures groups == Finished(old(Build(groups, pending)))
      ensures block == FilterBlock(policy, groups)
    {
      hide Filters, Offsets, Fixed32;
      if |start| > 0 {
        GenerateFilter();
      }
      assert groups == old(groups) + (if old(pending) == [] then [] else [old(pending)]);
      ghost var filters := result;
      var arrayOffset := |result| % TWO32;
      for i := 0 to |filterOffsets|
        invariant groups == old(groups) + (if old(pending) == [] then [] else [old(pending)])
        invariant filterOffsets == Offsets(policy, groups) && filters == Filters(policy, groups)
        invariant i <= |filterOffsets| && result == filters + FixedAll(filterOffsets[..i])
      {
        assert filterOffsets[..i + 1][..i] == filterOffsets[..i];
        result := result + Fixed32(filterOffsets[i]);
      }
      assert filterOffsets[..|filterOffsets|] == filterOffsets;
      result := result + Fixed32(arrayOffset);
      result := result + [FILTER_BASE_LG];
      block := result;
    }
  }

  // ---------- reading ----------

  /** The fields of FilterBlockReader; `num` is 0 for contents it cannot use. */
  datatype Reader = Reader(data: Bytes, offset: nat, num: nat, baseLg: nat)

  function Open(contents: Bytes): Reader {
    var n := |contents|;
    if n < 5 then Reader([], 0, 0, 0)
    else
      var lastWord := UnFixed32(contents[n - 5..n - 1]);
      if lastWord > n - 5 then Reader([], 0, 0, contents[n - 1])
      else Reader(contents, lastWord, (n - 5 - lastWord) / 4, contents[n - 1])
  }

  /** n >> k. */
  function Shift(n: nat, k: nat): nat
    decreases k
  {
    if k == 0 then n else Shift(n / 2, k - 1)
  }

  lemma ShiftByBase(n: nat)
    ensures Shift(n, 11) == n / FILTER_BASE
  {
    assert Shift(n, 11) == Shift(n / 2, 10) == Shift(n / 2 / 2, 9);
    assert n / 2 / 2 == n / 4;
    assert Shift(n / 4, 9) == Shift(n / 4 / 2, 8) == Shift(n / 4 / 2 / 2, 7);
    assert n / 4 / 2 / 2 == n / 16;
    assert Shift(n / 16, 7) == Shift(n / 16 / 2, 6) == Shift(n / 16 / 2 / 2, 5);
    assert n / 16 / 2 / 2 == n / 64;
    assert Shift(n / 64, 5) == Shift(n / 64 / 2, 4) == Shift(n / 64 / 2 / 2, 3);
    assert n / 64 / 2 / 2 == n / 256;
    assert Shift(n / 256, 3) == Shift(n / 256 / 2, 2) == Shift(n / 256 / 2 / 2, 1) == Shift(n / 256 / 2 / 2 / 2, 0);
  }

  predicate KeyMayMatch(p: Policy, r: Reader, blockOffset: nat, key: Bytes)
    requires r.num > 0 ==> r.offset + 4 * r.num + 4 <= |r.data|
  {
    var index := Shift(blockOffset, r.baseLg);
    if index < r.num then
      var at := r.offset + 4 * index;
      var start := UnFixed32(r.data[at..at + 4]);
      var limit := UnFixed32(r.data[at + 4..at + 8]);
      if start <= limit && limit <= r.offset then p.mayMatch(key, r.data[start..limit])
      else start != limit
    else true
  }

  lemma OpenFits(contents: Bytes)
    ensures var r := Open(contents); r.num > 0 ==> r.offset + 4 * r.num + 4 <= |r.data|
  {
  }

  lemma {:induction false} FiltersPrefix(p: Policy, groups: seq<seq<Bytes>>, i: nat)
    requires i <= |groups|
    ensures |Filters(p, groups[..i])| <= |Filters(p, groups)|
    ensures Filters(p, groups)[..|Filters(p, groups[..i])|] == Filters(p, groups[..i])
    decreases |groups|
  {
    if i == |groups| {
      assert groups[..i] == groups;
    } else {
      assert groups[..|groups| - 1][..i] == groups[..i];
      FiltersPrefix(p, groups[..|groups| - 1], i);
    }
  }

  lemma FilterPart(p: Policy, groups: seq<seq<Bytes>>, i: nat)
    requires i < |groups|
    ensures var from, end := |Filters(p, groups[..i])|, |Filters(p, groups[..i + 1])|;
      from <= end <= |Filters(p, groups)| && Filters(p, groups)[from..end] == Filter(p, groups[i])
  {
    var from, end := |Filters(p, groups[..i])|, |Filters(p, groups[..i + 1])|;
    assert groups[..i + 1][..i] == groups[..i];
    FiltersPrefix(p, groups, i + 1);
    assert Filters(p, groups)[from..end] == Filters(p, groups)[..end][from..];
  }

  lemma {:induction false} OffsetAt(p: Policy, groups: seq<seq<Bytes>>, i: nat)
    requires i < |groups|
    ensures Offsets(p, groups)[i] == |Filters(p, groups[..i])| % TWO32
    decreases |groups|
  {
    if i < |groups| - 1 {
      assert groups[..|groups| - 1][..i] == groups[..i];
      OffsetAt(p, groups[..|groups| - 1], i);
    }
  }

  /** The word of the array at `i`; the one after the last is the offset of the array itself. */
  lemma WordAt(p: Policy, groups: seq<seq<Bytes>>, i: nat)
    requires i <= |groups| && |FilterBlock(p, groups)| < TWO32
    ensures var at := |Filters(p, groups)| + 4 * i;
      at + 4 <= |FilterBlock(p, groups)| && UnFixed32(FilterBlock(p, groups)[at..at + 4]) == |Filters(p, groups[..i])|
  {
    hide Filters, Offsets, Fixed32, UnFixed32;
    var f, a, w := Filters(p, groups), FixedAll(Offsets(p, groups)), Fixed32(|Filters(p, groups)| % TWO32);
    FiltersPrefix(p, groups, i);
    Fixed32RoundTrip(|Filters(p, groups[..i])|);
    var b := FilterBlock(p, groups);
    if i < |groups| {
      OffsetAt(p, groups, i);
      FixedAllAt(Offsets(p, groups), i);
      assert b[|f| + 4 * i..|f| + 4 * i + 4] == a[4 * i..4 * i + 4];
    } else {
      assert groups[..i] == groups;
      assert b[|f| + 4 * i..|f| + 4 * i + 4] == w;
    }
  }

  lemma OpenFinished(p: Policy, groups: seq<seq<Bytes>>)
    requires |FilterBlock(p, groups)| < TWO32
    ensures Open(FilterBlock(p, groups)) == Reader(FilterBlock(p, groups), |Filters(p, groups)|, |groups|, 11)
  {
    hide Filters, Offsets, Fixed32, UnFixed32;
    var b := FilterBlock(p, groups);
    WordAt(p, groups, |groups|);
    assert groups[..|groups|] == groups;
    assert |b| - 5 == |Filters(p, groups)| + 4 * |groups|;
  }

  /** What the reader answers: that of the policy on the filter of the block's 2 KB stretch, and yes past the last
      filter. */
  lemma ReaderAnswers(p: Policy, groups: seq<seq<Bytes>>, blockOffset: nat, key: Bytes)
    requires |FilterBlock(p, groups)| < TWO32
    ensures var r, i := Open(FilterBlock(p, groups)), blockOffset / FILTER_BASE;
      && (r.num > 0 ==> r.offset + 4 * r.num + 4 <= |r.data|)
      && KeyMayMatch(p, r, blockOffset, key) == (i < |groups| ==> p.mayMatch(key, Filter(p, groups[i])))
  {
    hide Filters, Offsets, Fixed32, UnFixed32, FixedAll, Shift;
    var r, i := Open(FilterBlock(p, groups)), blockOffset / FILTER_BASE;
    OpenFinished(p, groups);
    OpenFits(FilterBlock(p, groups));
    ShiftByBase(blockOffset);
    if i < |groups| {
      WordAt(p, groups, i);
      WordAt(p, groups, i + 1);
      FilterPart(p, groups, i);
      var b := FilterBlock(p, groups);
      var from, end := |Filters(p, groups[..i])|, |Filters(p, groups[..i + 1])|;
      assert b[..|Filters(p, groups)|] == Filters(p, groups);
      assert b[from..end] == Filters(p, groups)[from..end];
    }
  }

  /** No key is missed under the offset of the block it was added for. */
  lemma NoKeyMissed(p: Policy, groups: seq<seq<Bytes>>, blockOffset: nat, key: Bytes)
    requires NoFalseNegatives(p) && |FilterBlock(p, groups)| < TWO32
    requires blockOffset / FILTER_BASE < |groups| && key in groups[blockOffset / FILTER_BASE]
    ensures var r := Open(FilterBlock(p, groups));
      (r.num > 0 ==> r.offset + 4 * r.num + 4 <= |r.data|) && KeyMayMatch(p, r, blockOffset, key)
  {
    ReaderAnswers(p, groups, blockOffset, key);
    assert p.mayMatch(key, p.create(groups[blockOffset / FILTER_BASE]));
  }

  /** In a legal run of StartBlock and AddKey calls no key is missed under its block's offset, nor under any other
      offset of the same 2 KB stretch. */
  lemma NoKeyMissedInRun(p: Policy, calls: seq<Call>, i: nat, blockOffset: nat)
    requires NoFalseNegatives(p) && Legal(calls) && i < |calls| && calls[i].AddKey? && CurrentBlock(calls[..i]).Some?
    requires blockOffset / FILTER_BASE == CurrentBlock(calls[..i]).value / FILTER_BASE
    requires |FilterBlock(p, Finished(AfterCalls(calls)))| < TWO32
    ensures var r := Open(FilterBlock(p, Finished(AfterCalls(calls))));
      (r.num > 0 ==> r.offset + 4 * r.num + 4 <= |r.data|) && KeyMayMatch(p, r, blockOffset, calls[i].key)
  {
    hide FilterBlock, Open, KeyMayMatch, NoFalseNegatives;
    KeyIsHeld(calls, i);
    NoKeyMissed(p, Finished(AfterCalls(calls)), blockOffset, calls[i].key);
  }
}
