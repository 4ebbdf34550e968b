/** Blocks of sorted entries, each key stored as its difference from the one before, with restart points
    (table/block_builder.cc lines 28-106). */
module BlockBuilders {
  import opened Basics
  import opened Coding

  datatype Pair = Pair(key: Bytes, value: Bytes)

  /** Length of the longest common prefix. */
  function CommonPrefix(a: Bytes, b: Bytes): (n: nat)
    ensures n <= |a| && n <= |b| && a[..n] == b[..n]
    ensures n < |a| && n < |b| ==> a[n] != b[n]
  {
    if a == [] || b == [] || a[0] != b[0] then 0
    else
      var n := CommonPrefix(a[1..], b[1..]);
      assert a[..n + 1] == [a[0]] + a[1..][..n] && b[..n + 1] == [b[0]] + b[1..][..n];
      1 + n
  }

  /** How many key bytes the last entry shares with the one before it; none at a restart point. */
  function Shared(entries: seq<Pair>, interval: nat): (n: nat)
    requires entries != [] && interval >= 1
    ensures n <= |entries[|entries| - 1].key|
  {
    var i := |entries| - 1;
    if i % interval == 0 then 0 else CommonPrefix(entries[i - 1].key, entries[i].key)
  }

  /** One entry in the block; lengths are 32 bits wide. */
  function EncodeEntry(shared: nat, e: Pair): Bytes
    requires shared <= |e.key|
  {
    Varint(shared % TWO32) + Varint((|e.key| - shared) % TWO32) + Varint(|e.value| % TWO32) + e.key[shared..] + e.value
  }

  function Data(entries: seq<Pair>, interval: nat): Bytes
    requires interval >= 1
  {
    if entries == [] then []
    else
      Data(entries[..|entries| - 1], interval) + EncodeEntry(Shared(entries, interval), entries[|entries| - 1])
  }

  /** Where the data of entry `i` begins. */
  function Offset(entries: seq<Pair>, interval: nat, i: nat): nat
    requires interval >= 1 && i <= |entries|
  {
    |Data(entries[..i], interval)|
  }

  /** The restart array: the offset of every `interval`-th entry, the first being there from the start. */
  function Restarts(entries: seq<Pair>, interval: nat): (r: seq<U32>)
    requires interval >= 1
    ensures |r| == 1 + (if entries == [] then 0 else (|entries| - 1) / interval)
  {
    if |entries| <= 1 then [0]
    else
      var init := entries[..|entries| - 1];
      var rest := Restarts(init, interval);
      assert (|init| % interval == 0 ==> |init| / interval == (|init| - 1) / interval + 1) by {
        DivStep(|init|, interval);
      }
      assert (|init| % interval != 0 ==> |init| / interval == (|init| - 1) / interval) by { DivStep(|init|, interval); }
      rest + (if |init| % interval == 0 then [|Data(init, interval)| % TWO32] else [])
  }

  lemma DivStep(n: nat, k: nat)
    requires n > 0 && k >= 1
    ensures n % k == 0 ==> n / k == (n - 1) / k + 1
    ensures n % k != 0 ==> n / k == (n - 1) / k
  {
    var q, r := n / k, n % k;
    assert n == q * k + r;
    if r == 0 {
      assert n - 1 == (q - 1) * k + (k - 1);
      DivUnique(n - 1, k, q - 1, k - 1);
    } else {
      DivUnique(n - 1, k, q, r - 1);
    }
  }

  lemma Multiples(a: int, b: int, k: nat)
    requires a < b
    ensures a * k + k <= b * k
  {
    assert (b - a - 1) * k >= 0;
    assert b * k == a * k + k + (b - a - 1) * k;
  }

  lemma DivUnique(n: int, k: nat, q: int, r: nat)
    requires k >= 1 && r < k && n == q * k + r
    ensures n / k == q && n % k == r
  {
    var q', r' := n / k, n % k;
    assert q' * k + r' == n;
    if q' < q { Multiples(q', q, k); }
    if q' > q { Multiples(q, q', k); }
  }

  /** The finished block. */
  function BlockBytes(entries: seq<Pair>, interval: nat): Bytes
    requires interval >= 1
  {
    var rs := Restarts(entries, interval);
    Data(entries, interval) + FixedAll(rs) + Fixed32(|rs| % TWO32)
  }

  class BlockBuilder {
    const blockRestartInterval: nat
    var buffer: Bytes
    var restarts: seq<U32>
    var counter: nat
    var finished: bool
    var lastKey: Bytes
    ghost var entries: seq<Pair>

    ghost predicate Valid()
      reads this
    {
      && blockRestartInterval >= 1
      && (!finished ==> buffer == Data(entries, blockRestartInterval))
      && restarts == Restarts(entries, blockRestartInterval)
      && counter == (if entries == [] then 0 else (|entries| - 1) % blockRestartInterval + 1)
      && lastKey == (if entries == [] then [] else entries[|entries| - 1].key)
    }

    constructor (interval: nat)
      requires interval >= 1
      ensures Valid() && entries == [] && !finished && blockRestartInterval == interval
    {
      blockRestartInterval := interval;
      buffer, restarts, counter, finished, lastKey, entries := [], [0], 0, false, [], [];
    }

    method Reset()
      requires Valid()
      modifies this
      ensures Valid() && entries == [] && !finished
    {
      buffer, restarts, counter, finished, lastKey, entries := [], [0], 0, false, [], [];
    }

    method Add(key: Bytes, value: Bytes)
      requires Valid() && !finished
      modifies this
      ensures Valid() && !finished && entries == old(entries) + [Pair(key, value)]
    {
      hide Data, Restarts, EncodeEntry;
      ghost var before, after := entries, entries + [Pair(key, value)];
      AddFacts(before, Pair(key, value), blockRestartInterval);
      var shared := 0;
      if counter < blockRestartInterval {
        shared := SharedWith(lastKey, key);
      } else {
        restarts := restarts + [|buffer| % TWO32];
        counter := 0;
      }
      buffer := buffer + EncodeEntry(shared, Pair(key, value));
      lastKey := key;
      counter := counter + 1;
      entries := after;
    }

    /** The finished block, which starts over only with Reset. */
    method Finish() returns (block: Bytes)
      requires Valid() && !finished
      modifies this
      ensures Valid() && finished && entries == old(entries)
      ensures block == BlockBytes(entries, blockRestartInterval)
    {
      hide Data, Restarts, Fixed32;
      ghost var data := buffer;
      for i := 0 to |restarts|
        invariant restarts == Restarts(entries, blockRestartInterval) && entries == old(entries)
        invariant counter == old(counter) && lastKey == old(lastKey) && !finished
        invariant buffer == data + FixedAll(restarts[..i])
      {
        assert restarts[..i + 1][..i] == restarts[..i];
        buffer := buffer + Fixed32(restarts[i]);
      }
      assert restarts[..|restarts|] == restarts;
      buffer := buffer + Fixed32(|restarts| % TWO32);
      finished := true;
      block := buffer;
    }
  }

  /** The loop that compares byte by byte. */
  method SharedWith(last: Bytes, key: Bytes) returns (shared: nat)
    ensures shared == CommonPrefix(last, key)
  {
    shared := 0;
    var minLength := if |last| < |key| then |last| else |key|;
    while shared < minLength && last[shared] == key[shared]
      invariant shared <= minLength && last[..shared] == key[..shared]
      decreases minLength - shared
    {
      shared := shared + 1;
    }
    PrefixUnique(last, key, shared);
  }

  lemma PrefixUnique(a: Bytes, b: Bytes, n: nat)
    requires n <= |a| && n <= |b| && a[..n] == b[..n] && (n < |a| && n < |b| ==> a[n] != b[n])
    ensures n == CommonPrefix(a, b)
  {
    var m := CommonPrefix(a, b);
    forall i | 0 <= i < n ensures a[i] == b[i] { assert a[..n][i] == b[..n][i]; }
    forall i | 0 <= i < m ensures a[i] == b[i] { assert a[..m][i] == b[..m][i]; }
  }

  lemma AddFacts(before: seq<Pair>, e: Pair, interval: nat)
    requires interval >= 1
    ensures var after := before + [e];
      && Shared(after, interval) ==
        (if |before| % interval == 0 then 0 else CommonPrefix(before[|before| - 1].key, e.key))
      && Data(after, interval) == Data(before, interval) + EncodeEntry(Shared(after, interval), e)
      && Restarts(after, interval) == Restarts(before, interval)
           + (if before != [] && |before| % interval == 0 then [|Data(before, interval)| % TWO32] else [])
      && (before != [] && |before| % interval == 0 <==> before != [] && (|before| - 1) % interval + 1 == interval)
      && (|before| % interval == 0 ==> |before| % interval + 1 == 1)
      && (|before| % interval != 0 ==> (|before| - 1) % interval + 1 == |before| % interval)
    ensures CommonPrefix([], e.key) == 0
  {
    assert (before + [e])[..|before|] == before;
    if before != [] {
      ModStep(|before|, interval);
    }
  }

  lemma ModStep(n: nat, k: nat)
    requires n > 0 && k >= 1
    ensures n % k == 0 <==> (n - 1) % k + 1 == k
    ensures n % k != 0 ==> (n - 1) % k + 1 == n % k
  {
    var q, r := n / k, n % k;
    assert n == q * k + r;
    if r == 0 {
      assert n - 1 == (q - 1) * k + (k - 1);
      DivUnique(n - 1, k, q - 1, k - 1);
    } else {
      DivUnique(n - 1, k, q, r - 1);
    }
  }
}
