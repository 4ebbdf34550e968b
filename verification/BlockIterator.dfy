/** Reading a block: entry decoding and the iterator over it (table/block.cc lines 19-252), which moves both ways and
    seeks by binary search over the restart points. */
module BlockIterators {
  import opened Basics
  import opened Coding
  import opened BlockBuilders

  /** The three lengths in front of an entry and how many bytes they take. */
  datatype EntryHeader = EntryHeader(shared: nat, nonShared: nat, valueLength: nat, size: nat)

  /** DecodeEntry on the bytes up to the restart array. */
  function DecodeEntry(input: Bytes): (r: Option<EntryHeader>)
    ensures r.Some? ==> r.value.size <= |input|
  {
    if |input| < 3 then None
    else if input[0] < 128 && input[1] < 128 && input[2] < 128 then
      Fitting(EntryHeader(input[0], input[1], input[2], 3), input)
    else DecodeLong(input)
  }

  /** The lengths as three variable-length integers. */
  function DecodeLong(input: Bytes): (r: Option<EntryHeader>)
    ensures r.Some? ==> r.value.size <= |input|
  {
    match GetVarint32(input)
    case None => None
    case Some((shared, r1)) =>
      match GetVarint32(r1)
      case None => None
      case Some((nonShared, r2)) =>
        match GetVarint32(r2)
        case None => None
        case Some((valueLength, r3)) => Fitting(EntryHeader(shared, nonShared, valueLength, |input| - |r3|), input)
  }

  /** The sum of the lengths is taken in 32 bits. */
  function Fitting(h: EntryHeader, input: Bytes): Option<EntryHeader>
    requires h.size <= |input|
  {
    if (|input| - h.size) % TWO32 < (h.nonShared + h.valueLength) % TWO32 then None else Some(h)
  }

  lemma VarintOneByte(n: nat)
    ensures Varint(n)[0] < 128 <==> n < 128
    ensures n < 128 ==> Varint(n) == [n]
  {
  }

  lemma FrontBytes(va: Bytes, vb: Bytes, vc: Bytes, rest: Bytes)
    requires va != [] && vb != [] && vc != []
    ensures var input := va + vb + vc + rest;
      && |input| >= 3 && input[0] == va[0]
      && (|va| == 1 ==> input[1] == vb[0])
      && (|va| == 1 && |vb| == 1 ==> input[2] == vc[0])
      && input == va + (vb + (vc + rest))
  {
  }

  /** All three lengths in one byte each exactly when the first three bytes say so. */
  lemma FastPath(a: nat, b: nat, c: nat, input: Bytes)
    requires |input| >= 3 && input[0] == Varint(a)[0]
    requires |Varint(a)| == 1 ==> input[1] == Varint(b)[0]
    requires |Varint(a)| == 1 && |Varint(b)| == 1 ==> input[2] == Varint(c)[0]
    requires input[0] < 128 && input[1] < 128 && input[2] < 128
    ensures input[0] == a && input[1] == b && input[2] == c && |Varint(a)| == |Varint(b)| == |Varint(c)| == 1
  {
    VarintOneByte(a);
    VarintOneByte(b);
    VarintOneByte(c);
  }

  lemma Fits(h: EntryHeader, input: Bytes)
    requires h.size <= |input| && h.nonShared + h.valueLength <= |input| - h.size < TWO32
    ensures Fitting(h, input) == Some(h)
  {
  }

  lemma LongReads(a: U32, b: U32, c: U32, rest: Bytes)
    requires b + c <= |rest| < TWO32
    ensures var input := Varint(a) + (Varint(b) + (Varint(c) + rest));
      DecodeLong(input) == Some(EntryHeader(a, b, c, |Varint(a)| + |Varint(b)| + |Varint(c)|))
  {
    hide Varint, GetVarint32, Fitting;
    var va, vb, vc := Varint(a), Varint(b), Varint(c);
    var r2 := vc + rest;
    var r1 := vb + r2;
    Varint32RoundTrip(a, r1);
    Varint32RoundTrip(b, r2);
    Varint32RoundTrip(c, rest);
    Fits(EntryHeader(a, b, c, |va| + |vb| + |vc|), va + r1);
  }

  /** The lengths read back from an encoded entry. */
  lemma HeaderReads(a: U32, b: U32, c: U32, rest: Bytes)
    requires b + c <= |rest| < TWO32
    ensures DecodeEntry(Varint(a) + Varint(b) + Varint(c) + rest)
      == Some(EntryHeader(a, b, c, |Varint(a)| + |Varint(b)| + |Varint(c)|))
  {
    hide Varint, DecodeLong, Fitting;
    var va, vb, vc := Varint(a), Varint(b), Varint(c);
    var input := va + vb + vc + rest;
    FrontBytes(va, vb, vc, rest);
    LongReads(a, b, c, rest);
    Fits(EntryHeader(a, b, c, |va| + |vb| + |vc|), input);
    if input[0] < 128 && input[1] < 128 && input[2] < 128 {
      FastPath(a, b, c, input);
    }
  }

  lemma EntryParts(shared: nat, e: Pair)
    requires shared <= |e.key| < TWO32 && |EncodeEntry(shared, e)| < TWO32
    ensures |e.value| < TWO32
    ensures EncodeEntry(shared, e) ==
      Varint(shared) + Varint(|e.key| - shared) + Varint(|e.value|) + e.key[shared..] + e.value
  {
    hide Varint;
    assert |e.value| <= |EncodeEntry(shared, e)|;
    assert |e.value| % TWO32 == |e.value|;
  }

  lemma Slices(head: Bytes, a: Bytes, b: Bytes, rest: Bytes)
    ensures (head + a + b) + rest == head + (a + b + rest)
    ensures ((head + a + b) + rest)[|head|..|head| + |a|] == a
    ensures ((head + a + b) + rest)[|head| + |a|..|head| + |a| + |b|] == b
  {
  }

  /** An entry followed by anything decodes to its lengths, key difference and value. */
  lemma EntryReads(shared: nat, e: Pair, rest: Bytes)
    requires shared <= |e.key| < TWO32 && |EncodeEntry(shared, e)| + |rest| < TWO32
    ensures var input := EncodeEntry(shared, e) + rest;
      var h := DecodeEntry(input);
      && h.Some? && h.value.shared == shared && h.value.nonShared == |e.key| - shared &&
        h.value.valueLength == |e.value|
      && h.value.size + h.value.nonShared + h.value.valueLength == |EncodeEntry(shared, e)|
      && input[h.value.size..h.value.size + h.value.nonShared] == e.key[shared..]
      && input[h.value.size + h.value.nonShared..h.value.size + h.value.nonShared + h.value.valueLength] == e.value
  {
    hide Varint, DecodeEntry, EncodeEntry;
    EntryParts(shared, e);
    var head := Varint(shared) + Varint(|e.key| - shared) + Varint(|e.value|);
    Slices(head, e.key[shared..], e.value, rest);
    HeaderReads(shared, |e.key| - shared, |e.value|, e.key[shared..] + e.value + rest);
  }

  // ---------- where things are in a block ----------

  lemma OffsetStep(entries: seq<Pair>, interval: nat, i: nat)
    requires interval >= 1 && i < |entries|
    ensures var shared := Shared(entries[..i + 1], interval);
      && Data(entries[..i + 1], interval) == Data(entries[..i], interval) + EncodeEntry(shared, entries[i])
      && Offset(entries, interval, i + 1) == Offset(entries, interval, i) + |EncodeEntry(shared, entries[i])|
      && Offset(entries, interval, i) + 3 <= Offset(entries, interval, i + 1)
  {
    assert entries[..i + 1][..i] == entries[..i];
    EntryLength(Shared(entries[..i + 1], interval), entries[i]);
  }

  lemma EntryLength(shared: nat, e: Pair)
    requires shared <= |e.key|
    ensures |EncodeEntry(shared, e)| >= 3
  {
  }

  lemma {:induction false} DataPrefix(entries: seq<Pair>, interval: nat, i: nat)
    requires interval >= 1 && i <= |entries|
    ensures Offset(entries, interval, i) <= |Data(entries, interval)|
    ensures Data(entries, interval)[..Offset(entries, interval, i)] == Data(entries[..i], interval)
    decreases |entries|
  {
    if i == |entries| {
      assert entries[..i] == entries;
    } else {
      hide EncodeEntry;
      var init := entries[..|entries| - 1];
      assert init[..i] == entries[..i];
      DataPrefix(init, interval, i);
    }
  }

  lemma {:induction false} OffsetsGrow(entries: seq<Pair>, interval: nat, i: nat, j: nat)
    requires interval >= 1 && i < j <= |entries|
    ensures Offset(entries, interval, i) < Offset(entries, interval, j)
    decreases j
  {
    hide Data;
    OffsetStep(entries, interval, j - 1);
    if i < j - 1 { OffsetsGrow(entries, interval, i, j - 1); }
  }

  /** The bytes of entry `i`. */
  lemma EntryBytes(entries: seq<Pair>, interval: nat, i: nat)
    requires interval >= 1 && i < |entries|
    ensures var data := Data(entries, interval);
      var from, shared := Offset(entries, interval, i), Shared(entries[..i + 1], interval);
      && from <= Offset(entries, interval, i + 1) <= |data|
      && data[from..] == EncodeEntry(shared, entries[i]) + data[Offset(entries, interval, i + 1)..]
  {
    hide EncodeEntry, Data, Shared;
    DataPrefix(entries, interval, i);
    DataPrefix(entries, interval, i + 1);
    OffsetStep(entries, interval, i);
    var data, end := Data(entries, interval), Offset(entries, interval, i + 1);
    assert data == data[..end] + data[end..];
  }

  /** A key is never longer than the data written up to it. */
  lemma {:induction false} KeyLengths(entries: seq<Pair>, interval: nat, i: nat)
    requires interval >= 1 && i < |entries| && |Data(entries, interval)| < TWO32
    ensures |entries[i].key| <= Offset(entries, interval, i + 1) <= |Data(entries, interval)|
    decreases i
  {
    hide Data, EncodeEntry, Shared;
    var shared := Shared(entries[..i + 1], interval);
    DataPrefix(entries, interval, i + 1);
    OffsetStep(entries, interval, i);
    SharedBound(entries, interval, i);
    if i > 0 { KeyLengths(entries, interval, i - 1); }
    NonShared(shared, entries[i]);
  }

  /** What an entry shares it shares with the one before. */
  lemma SharedBound(entries: seq<Pair>, interval: nat, i: nat)
    requires interval >= 1 && i < |entries|
    ensures var n := Shared(entries[..i + 1], interval);
      && n <= |entries[i].key|
      && (i % interval == 0 ==> n == 0)
      && (i > 0 ==> n <= |entries[i - 1].key| && entries[i - 1].key[..n] == entries[i].key[..n])
  {
    if i == 0 { DivUnique(0, interval, 0, 0); }
  }

  lemma NonShared(shared: nat, e: Pair)
    requires shared <= |e.key|
    ensures |e.key| - shared <= |EncodeEntry(shared, e)|
  {
  }

  lemma {:induction false} RestartAt(entries: seq<Pair>, interval: nat, j: nat)
    requires interval >= 1 && j < |Restarts(entries, interval)| && |Data(entries, interval)| < TWO32
    ensures j * interval <= |entries| && (entries != [] ==> j * interval < |entries|)
    ensures Restarts(entries, interval)[j] == Offset(entries, interval, j * interval)
    decreases |entries|
  {
    hide Data, EncodeEntry;
    if |entries| <= 1 {
      assert j == 0;
      NoData(entries, interval);
    } else {
      var init := entries[..|entries| - 1];
      DataPrefix(entries, interval, |entries| - 1);
      if j < |Restarts(init, interval)| {
        RestartAt(init, interval, j);
        assert init[..j * interval] == entries[..j * interval];
      } else {
        LastRestart(entries, interval, j);
      }
    }
  }

  lemma NoData(entries: seq<Pair>, interval: nat)
    requires interval >= 1
    ensures Offset(entries, interval, 0) == 0
  {
  }

  lemma LastRestart(entries: seq<Pair>, interval: nat, j: nat)
    requires interval >= 1 && |entries| > 1 && |Data(entries[..|entries| - 1], interval)| < TWO32
    requires |Restarts(entries[..|entries| - 1], interval)| <= j < |Restarts(entries, interval)|
    ensures j * interval == |entries| - 1
    ensures Restarts(entries, interval)[j] == |Data(entries[..|entries| - 1], interval)|
  {
    hide Data, EncodeEntry;
    DivExact(|entries| - 1, interval);
    DivStep(|entries| - 1, interval);
  }

  lemma DivExact(n: nat, k: nat)
    requires k >= 1
    ensures n % k == 0 ==> n / k * k == n
  {
    assert n == n / k * k + n % k;
  }

  // ---------- opening a block ----------

  /** The entry restart point `j` stands at. */
  function Entry(j: nat, interval: nat): nat {
    j * interval
  }

  /** Where the restart array begins and how many entries it has (the constructor of Block). */
  function Open(contents: Bytes): Option<(nat, nat)> {
    if |contents| < 4 then None
    else
      var num := UnFixed32(contents[|contents| - 4..]);
      if num > (|contents| - 4) / 4 then None else Some((|contents| - (1 + num) * 4, num))
  }

  ghost predicate BlockOf(data: Bytes, restarts: nat, num: nat, entries: seq<Pair>, interval: nat) {
    && interval >= 1
    && data == BlockBytes(entries, interval) && |data| < TWO32
    && restarts == |Data(entries, interval)|
    && num == |Restarts(entries, interval)|
  }

  /** A finished block of less than 2^32 bytes opens as what was built. */
  lemma OpenFinished(entries: seq<Pair>, interval: nat)
    requires interval >= 1 && |BlockBytes(entries, interval)| < TWO32
    ensures var o := Open(BlockBytes(entries, interval));
      o.Some? && BlockOf(BlockBytes(entries, interval), o.value.0, o.value.1, entries, interval)
  {
    hide Data, Restarts, Fixed32, UnFixed32;
    var rs := Restarts(entries, interval);
    Fixed32RoundTrip(|rs|);
    var b := BlockBytes(entries, interval);
    assert b[|b| - 4..] == Fixed32(|rs|);
  }

  /** The restart array as the reader sees it. */
  lemma RestartPoint(data: Bytes, restarts: nat, num: nat, entries: seq<Pair>, interval: nat, j: nat)
    requires BlockOf(data, restarts, num, entries, interval) && j < num
    ensures restarts + 4 * j + 4 <= |data|
    ensures Entry(j, interval) <= |entries| && (entries != [] ==> Entry(j, interval) < |entries|)
    ensures UnFixed32(data[restarts + 4 * j..restarts + 4 * j + 4]) == Offset(entries, interval, Entry(j, interval))
  {
    hide Data, Restarts, Fixed32, UnFixed32, FixedAll;
    var rs := Restarts(entries, interval);
    RestartAt(entries, interval, j);
    FixedAllAt(rs, j);
    Fixed32RoundTrip(rs[j]);
    SliceOfMiddle(Data(entries, interval), FixedAll(rs), Fixed32(|rs| % TWO32), 4 * j, 4 * j + 4);
  }

  lemma SliceOfMiddle(a: Bytes, b: Bytes, c: Bytes, i: nat, j: nat)
    requires i <= j <= |b|
    ensures (a + b + c)[|a| + i..|a| + j] == b[i..j]
  {
  }

  // ---------- the iterator ----------

  ghost predicate Transitive(less: (Bytes, Bytes) -> bool) {
    forall a, b, c :: less(a, b) && less(b, c) ==> less(a, c)
  }

  ghost predicate Increasing(less: (Bytes, Bytes) -> bool, entries: seq<Pair>) {
    forall i, j :: 0 <= i < j < |entries| ==> less(entries[i].key, entries[j].key)
  }

  /** Where a seek must land: on the first key that is not less than the target. */
  ghost predicate SeekPos(less: (Bytes, Bytes) -> bool, entries: seq<Pair>, target: Bytes, p: nat) {
    && p <= |entries|
    && (forall i :: 0 <= i < p ==> less(entries[i].key, target))
    && (forall i :: p <= i < |entries| ==> !less(entries[i].key, target))
  }

  lemma SeekPosFrom(less: (Bytes, Bytes) -> bool, entries: seq<Pair>, target: Bytes, p: nat)
    requires Transitive(less) && Increasing(less, entries) && p <= |entries|
    requires p > 0 ==> less(entries[p - 1].key, target)
    requires p < |entries| ==> !less(entries[p].key, target)
    ensures SeekPos(less, entries, target, p)
  {
    forall i | 0 <= i < p ensures less(entries[i].key, target) {
      if i < p - 1 { assert less(entries[i].key, entries[p - 1].key); }
    }
    forall i | p <= i < |entries| ensures !less(entries[i].key, target) {
      if i > p { assert less(entries[p].key, entries[i].key); }
    }
  }

  class BlockIter {
    const data: Bytes
    const restarts: nat
    const numRestarts: nat
    const less: (Bytes, Bytes) -> bool
    ghost const entries: seq<Pair>
    ghost const interval: nat
    var current: nat          // offset of the current entry; `restarts` if there is none
    var restartIndex: nat
    var key: Bytes
    var valueAt: nat          // where the current value lies
    var valueLength: nat
    var corrupted: bool

    constructor (data: Bytes, restarts: nat, numRestarts: nat, less: (Bytes, Bytes) -> bool,
                 ghost entries: seq<Pair>, ghost interval: nat)
      requires BlockOf(data, restarts, numRestarts, entries, interval)
      ensures this.data == data && this.entries == entries && this.interval == interval && this.less == less
      ensures this.restarts == restarts && this.numRestarts == numRestarts
      ensures Block() && Done()
    {
      this.data, this.restarts, this.numRestarts, this.less := data, restarts, numRestarts, less;
      this.entries, this.interval := entries, interval;
      current, restartIndex, key, valueAt, valueLength, corrupted := restarts, numRestarts, [], 0, 0, false;
    }

    ghost predicate Block() {
      BlockOf(data, restarts, numRestarts, entries, interval)
    }

    /** The iterator shows entry `i`. Its restart index may lag: it is that of a restart point at or before the entry,
        with no other strictly between them. */
    ghost predicate At(i: nat)
      reads this
      requires Block()
    {
      && i < |entries|
      && current == Offset(entries, interval, i)
      && key == entries[i].key
      && valueAt + valueLength == Offset(entries, interval, i + 1) <= |data|
      && data[valueAt..valueAt + valueLength] == entries[i].value
      && restartIndex < numRestarts && Entry(restartIndex, interval) <= i
      && (restartIndex + 1 < numRestarts ==> i <= Entry(restartIndex + 1, interval))
      && !corrupted
    }

    /** The iterator shows nothing. */
    ghost predicate Done()
      reads this
    {
      current == restarts && restartIndex == numRestarts && !corrupted
    }

    /** Ready to parse entry `i`: the value slice ends where it begins, and the key gathered so far is that of the entry
        before, or the entry is a restart point. */
    ghost predicate Before(i: nat)
      reads this
      requires Block()
    {
      && i <= |entries|
      && valueAt + valueLength == Offset(entries, interval, i)
      && (0 < i < |entries| ==> key == entries[i - 1].key || Shared(entries[..i + 1], interval) == 0)
      && restartIndex < numRestarts && Entry(restartIndex, interval) <= i
      && !corrupted
    }

    predicate Valid()
      reads this
    {
      current < restarts
    }

    function NextEntryOffset(): nat
      reads this
    {
      valueAt + valueLength
    }

    method GetRestartPoint(index: nat) returns (offset: nat)
      requires Block() && index < numRestarts
      ensures Entry(index, interval) <= |entries| && (entries != [] ==> Entry(index, interval) < |entries|)
      ensures offset == Offset(entries, interval, Entry(index, interval))
    {
      RestartPoint(data, restarts, numRestarts, entries, interval, index);
      offset := UnFixed32(data[restarts + 4 * index..restarts + 4 * index + 4]);
    }

    method SeekToRestartPoint(index: nat)
      requires Block() && index < numRestarts && !corrupted
      modifies this
      ensures Entry(index, interval) <= |entries| && Before(Entry(index, interval))
      ensures restartIndex == index && current == old(current)
    {
      key := [];
      restartIndex := index;
      valueAt := GetRestartPoint(index);
      valueLength := 0;
      RestartIsMultiple(index, interval);
    }

    /** Moves on to the entry after the current value, if there is one. */
    method ParseNextKey(ghost i: nat) returns (more: bool)
      requires Block() && Before(i)
      modifies this
      ensures more == (i < |entries|)
      ensures if more then At(i) && Valid() else Done()
    {
      hide Entry, BlockOf, DecodeEntry, Data, Shared;
      BlockFacts(data, restarts, numRestarts, entries, interval);
      current := NextEntryOffset();
      OffsetRange(entries, interval, i);
      if current >= restarts {
        current := restarts;
        restartIndex := numRestarts;
        return false;
      }
      EntryDecodes(data, restarts, numRestarts, entries, interval, i);
      ghost var shared := Shared(entries[..i + 1], interval);
      SharedBound(entries, interval, i);
      var input := data[current..restarts];
      match DecodeEntry(input) {
        case None =>
          assert false;
          more := false;
        case Some(h) =>
          key := key[..h.shared] + data[current + h.size..current + h.size + h.nonShared];
          valueAt := current + h.size + h.nonShared;
          valueLength := h.valueLength;
          assert key == entries[i].key by {
            assert entries[i].key[..shared] + entries[i].key[shared..] == entries[i].key;
          }
          AdvanceRestart(i);
          more := true;
      }
    }

    /** The loop that moves the restart index up to the last restart point before the current entry. */
    method AdvanceRestart(ghost i: nat)
      requires Block() && i < |entries| && current == Offset(entries, interval, i)
      requires restartIndex < numRestarts && Entry(restartIndex, interval) <= i
      modifies this`restartIndex
      ensures restartIndex < numRestarts && Entry(restartIndex, interval) <= i
      ensures restartIndex + 1 < numRestarts ==> i <= Entry(restartIndex + 1, interval)
    {
      hide Entry, BlockOf, Data;
      BlockFacts(data, restarts, numRestarts, entries, interval);
      while restartIndex + 1 < numRestarts
        invariant restartIndex < numRestarts && Entry(restartIndex, interval) <= i
        decreases numRestarts - restartIndex
      {
        var offset := GetRestartPoint(restartIndex + 1);
        OffsetOrder(entries, interval, Entry(restartIndex + 1, interval), i);
        if offset >= current {
          return;
        }
        restartIndex := restartIndex + 1;
      }
    }

    method Next(ghost i: nat)
      requires Block() && At(i)
      modifies this
      ensures if i + 1 < |entries| then At(i + 1) && Valid() else Done()
    {
      var _ := ParseNextKey(i + 1);
    }

    /** Steps back until the restart point lies before `original`; false if there is none. */
    method RestartBefore(original: nat, ghost i: nat) returns (found: bool)
      requires Block() && At(i) && original == current
      modifies this`restartIndex
      ensures restartIndex < numRestarts
      ensures found ==> Entry(restartIndex, interval) < i
      ensures !found ==> i == 0
    {
      hide Entry, BlockOf, Data, Shared;
      BlockFacts(data, restarts, numRestarts, entries, interval);
      var offset := GetRestartPoint(restartIndex);
      OffsetOrder(entries, interval, Entry(restartIndex, interval), i);
      while offset >= original
        invariant restartIndex < numRestarts && Entry(restartIndex, interval) <= i
        invariant offset < original <==> Entry(restartIndex, interval) < i
        decreases restartIndex
      {
        if restartIndex == 0 {
          HasRestart(data, restarts, numRestarts, entries, interval);
          return false;
        }
        EntryGrows(restartIndex - 1, interval);
        restartIndex := restartIndex - 1;
        offset := GetRestartPoint(restartIndex);
        OffsetOrder(entries, interval, Entry(restartIndex, interval), i);
      }
      found := true;
    }

    method Prev(ghost i: nat)
      requires Block() && At(i)
      modifies this
      ensures if i > 0 then At(i - 1) && Valid() else Done()
    {
      hide Entry, BlockOf, Data, Shared;
      BlockFacts(data, restarts, numRestarts, entries, interval);
      var original := current;
      var found := RestartBefore(original, i);
      if !found {
        current := restarts;
        restartIndex := numRestarts;
        return;
      }
      SeekToRestartPoint(restartIndex);
      ghost var k := Entry(restartIndex, interval);
      while true
        invariant k < i && Before(k)
        decreases i - k
      {
        var more := ParseNextKey(k);
        OffsetOrder(entries, interval, k + 1, i);
        if !(more && NextEntryOffset() < original) {
          return;
        }
        k := k + 1;
        AtThenBefore(k);
      }
    }

    method SeekToFirst()
      requires Block() && !corrupted
      modifies this
      ensures if entries != [] then At(0) && Valid() else Done()
    {
      HasRestart(data, restarts, numRestarts, entries, interval);
      SeekToRestartPoint(0);
      var _ := ParseNextKey(0);
    }

    method SeekToLast()
      requires Block() && !corrupted
      modifies this
      ensures if entries != [] then At(|entries| - 1) && Valid() else Done()
    {
      hide Entry, BlockOf, Data;
      BlockFacts(data, restarts, numRestarts, entries, interval);
      SeekToRestartPoint(numRestarts - 1);
      ghost var k := Entry(numRestarts - 1, interval);
      RestartPoint(data, restarts, numRestarts, entries, interval, numRestarts - 1);
      while true
        invariant Before(k) && (entries != [] ==> k < |entries|)
        decreases |entries| - k
      {
        var more := ParseNextKey(k);
        if !more {
          return;
        }
        OffsetRange(entries, interval, k + 1);
        if NextEntryOffset() >= restarts {
          return;
        }
        k := k + 1;
        AtThenBefore(k);
      }
    }

    /** The last restart point whose key is less than the target, or the first one. */
    method SeekRestart(target: Bytes) returns (left: nat)
      requires Block() && Transitive(less) && Increasing(less, entries)
      ensures left < numRestarts &&
        (left > 0 ==> Entry(left, interval) < |entries| && less(entries[Entry(left, interval)].key, target))
      ensures left + 1 < numRestarts ==>
        Entry(left + 1, interval) < |entries| && !less(entries[Entry(left + 1, interval)].key, target)
    {
      hide Entry, BlockOf, Data, Transitive, Increasing, DecodeEntry;
      BlockFacts(data, restarts, numRestarts, entries, interval);
      left := 0;
      var right := numRestarts - 1;
      while left < right
        invariant left <= right < numRestarts
        invariant left > 0 ==> Entry(left, interval) < |entries| && less(entries[Entry(left, interval)].key, target)
        invariant right + 1 < numRestarts
          ==> Entry(right + 1, interval) < |entries| && !less(entries[Entry(right + 1, interval)].key, target)
      {
        var mid := (left + right + 1) / 2;
        var regionOffset := GetRestartPoint(mid);
        RestartHasEntry(data, restarts, numRestarts, entries, interval, mid);
        EntryDecodes(data, restarts, numRestarts, entries, interval, Entry(mid, interval));
        RestartIsMultiple(mid, interval);
        SharedBound(entries, interval, Entry(mid, interval));
        match DecodeEntry(data[regionOffset..restarts]) {
          case None =>
            assert false;
          case Some(h) =>
            assert h.shared == 0;
            var midKey := data[regionOffset + h.size..regionOffset + h.size + h.nonShared];
            assert midKey == entries[Entry(mid, interval)].key;
            if less(midKey, target) {
              left := mid;
            } else {
              right := mid - 1;
            }
        }
      }
    }

    /** Nothing before `p` needs to be looked at. */
    ghost predicate Skipped(target: Bytes, p: nat)
    {
      p <= |entries| &&
      (p > 0 && !less(entries[p - 1].key, target) ==> p < |entries| && less(entries[p].key, target))
    }

    /** Binary search in the restart array, then a scan from the restart point found. */
    method Seek(target: Bytes) returns (ghost p: nat)
      requires Block() && !corrupted && Transitive(less) && Increasing(less, entries)
      modifies this
      ensures SeekPos(less, entries, target, p)
      ensures if p < |entries| then At(p) && Valid() else Done()
    {
      hide Entry, BlockOf, Data, Transitive, Increasing, SeekPos;
      var left := SeekRestart(target);
      SeekToRestartPoint(left);
      p := Entry(left, interval);
      HasRestart(data, restarts, numRestarts, entries, interval);
      while true
        invariant Before(p) && Skipped(target, p)
        decreases |entries| - p
      {
        var more := ParseNextKey(p);
        if !more {
          SeekPosFrom(less, entries, target, p);
          return;
        }
        if !less(key, target) {
          SeekPosFrom(less, entries, target, p);
          return;
        }
        p := p + 1;
        AtThenBefore(p);
      }
    }

    lemma AtThenBefore(p: nat)
      requires Block() && p > 0 && At(p - 1)
      ensures Before(p)
    {
    }
  }

  lemma EntryGrows(j: nat, interval: nat)
    requires interval >= 1
    ensures Entry(j, interval) < Entry(j + 1, interval)
  {
  }

  lemma RestartIsMultiple(j: nat, interval: nat)
    requires interval >= 1
    ensures Entry(j, interval) % interval == 0
  {
    DivUnique(j * interval, interval, j, 0);
  }

  lemma BlockFacts(data: Bytes, restarts: nat, num: nat, entries: seq<Pair>, interval: nat)
    requires BlockOf(data, restarts, num, entries, interval)
    ensures interval >= 1 && num >= 1 && restarts <= |data| < TWO32 && restarts == |Data(entries, interval)|
    ensures restarts == Offset(entries, interval, |entries|) && Offset(entries, interval, 0) == 0
  {
    assert entries[..|entries|] == entries;
  }

  lemma HasRestart(data: Bytes, restarts: nat, num: nat, entries: seq<Pair>, interval: nat)
    requires BlockOf(data, restarts, num, entries, interval)
    ensures num >= 1 && Entry(0, interval) == 0
  {
  }

  lemma RestartHasEntry(data: Bytes, restarts: nat, num: nat, entries: seq<Pair>, interval: nat, j: nat)
    requires BlockOf(data, restarts, num, entries, interval) && 0 < j < num
    ensures Entry(j, interval) < |entries|
  {
    hide Data, EncodeEntry;
    RestartAt(entries, interval, j);
    assert entries == [] ==> num == 1;
  }

  lemma OffsetRange(entries: seq<Pair>, interval: nat, i: nat)
    requires interval >= 1 && i <= |entries|
    ensures Offset(entries, interval, i) <= |Data(entries, interval)|
    ensures Offset(entries, interval, i) == |Data(entries, interval)| <==> i == |entries|
  {
    assert entries[..|entries|] == entries;
    if i < |entries| { OffsetsGrow(entries, interval, i, |entries|); }
  }

  lemma OffsetOrder(entries: seq<Pair>, interval: nat, i: nat, j: nat)
    requires interval >= 1 && i <= |entries| && j <= |entries|
    ensures Offset(entries, interval, i) < Offset(entries, interval, j) <==> i < j
  {
    if i < j { OffsetsGrow(entries, interval, i, j); }
    if j < i { OffsetsGrow(entries, interval, j, i); }
  }

  /** Decoding at the offset of entry `i`. */
  lemma EntryDecodes(data: Bytes, restarts: nat, num: nat, entries: seq<Pair>, interval: nat, i: nat)
    requires BlockOf(data, restarts, num, entries, interval) && i < |entries|
    ensures var at, shared := Offset(entries, interval, i), Shared(entries[..i + 1], interval);
      && at < restarts <= |data|
      && var h := DecodeEntry(data[at..restarts]);
      && h.Some? && h.value.shared == shared
      && at + h.value.size + h.value.nonShared + h.value.valueLength == Offset(entries, interval, i + 1) <= restarts
      && data[at + h.value.size..at + h.value.size + h.value.nonShared] == entries[i].key[shared..]
      && data[at + h.value.size + h.value.nonShared..Offset(entries, interval, i + 1)] == entries[i].value
  {
    hide Data, EncodeEntry, Restarts, DecodeEntry, Shared, FixedAll;
    var at, shared := Offset(entries, interval, i), Shared(entries[..i + 1], interval);
    var d := Data(entries, interval);
    assert data[..restarts] == d;
    OffsetStep(entries, interval, i);
    EntryBytes(entries, interval, i);
    KeyLengths(entries, interval, i);
    EntryReads(shared, entries[i], d[Offset(entries, interval, i + 1)..]);
    assert data[at..restarts] == d[at..];
    var h := DecodeEntry(data[at..restarts]).value;
    SliceOfSlice(data, at, restarts, h.size, h.size + h.nonShared);
    SliceOfSlice(data, at, restarts, h.size + h.nonShared, h.size + h.nonShared + h.valueLength);
  }

  lemma SliceOfSlice(data: Bytes, from: nat, end: nat, i: nat, j: nat)
    requires from <= end <= |data| && i <= j <= end - from
    ensures data[from..end][i..j] == data[from + i..from + j]
  {
    var a, b := data[from..end][i..j], data[from + i..from + j];
    assert |a| == |b|;
    assert forall k :: 0 <= k < |a| ==> a[k] == b[k];
  }

  /** Opening a finished block and stepping through it gives back the pairs that were added. */
  method ReadBack(contents: Bytes, less: (Bytes, Bytes) -> bool, ghost entries: seq<Pair>, ghost interval: nat)
      returns (pairs: seq<Pair>)
    requires interval >= 1 && contents == BlockBytes(entries, interval) && |contents| < TWO32
    ensures pairs == entries
  {
    hide BlockBytes, Data, Restarts, BlockOf, Shared;
    OpenFinished(entries, interval);
    var (restarts, num) := Open(contents).value;
    var it := new BlockIter(contents, restarts, num, less, entries, interval);
    it.SeekToFirst();
    pairs := [];
    ghost var i := 0;
    OffsetRange(entries, interval, 0);
    BlockFacts(contents, restarts, num, entries, interval);
    while it.Valid()
      invariant i <= |entries| && pairs == entries[..i]
      invariant it.Block() && it.data == contents && it.entries == entries && it.interval == interval
      invariant if i < |entries| then it.At(i) && it.Valid() else it.Done()
      decreases |entries| - i
    {
      pairs := pairs + [Pair(it.key, it.data[it.valueAt..it.valueAt + it.valueLength])];
      it.Next(i);
      i := i + 1;
    }
    assert entries[..|entries|] == entries;
  }
}
