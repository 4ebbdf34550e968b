/** The memtable. */
module MemTables {
  // Encoded entries ordered by a skip list (db/memtable.cc, db/dbformat.cc lines 51-67 and 121-138), and the lookup
  // that decodes the entry a seek lands on.

  import opened Basics
  import opened Coding
  import opened DbFormat
  import SkipLists

  /** The user comparator, as the rank it gives a user key. */
  type Rank = Bytes -> UserKey

  // ---------- encoded entries ----------

  function TagOf(s: Sequence, kind: Kind): U64 {
    Pack(IKey(0.0, s, kind))
  }

  function InternalKey(s: Sequence, kind: Kind, key: Bytes): Bytes {
    key + Fixed64(TagOf(s, kind))
  }

  function EncodeEntry(s: Sequence, kind: Kind, key: Bytes, value: Bytes): Bytes {
    LengthPrefixed(InternalKey(s, kind, key)) + LengthPrefixed(value)
  }

  /** LookupKey::memtable_key. */
  function MemtableKey(key: Bytes, s: Sequence): Bytes {
    LengthPrefixed(InternalKey(s, KIND_FOR_SEEK, key))
  }

  /** The user key, the tag and what follows the internal key. */
  function Parse(b: Bytes): Option<(Bytes, U64, Bytes)> {
    match GetLengthPrefixed(b)
    case None => None
    case Some((ikey, rest)) =>
      var n := |ikey|;
      if n < 8 then None else Some((ikey[..n - 8], UnFixed64(ikey[n - 8..]), rest))
  }

  lemma ParseInternalKey(s: Sequence, kind: Kind, key: Bytes, rest: Bytes)
    requires |key| + 8 < TWO32
    ensures Parse(LengthPrefixed(InternalKey(s, kind, key)) + rest) == Some((key, TagOf(s, kind), rest))
  {
    var ikey := InternalKey(s, kind, key);
    LengthPrefixedRoundTrip(ikey, rest);
    Fixed64RoundTrip(TagOf(s, kind));
    assert ikey[..|ikey| - 8] == key && ikey[|ikey| - 8..] == Fixed64(TagOf(s, kind));
  }

  /** MemTable::KeyComparator over InternalKeyComparator::Compare. */
  predicate Precedes(rank: Rank, a: Bytes, b: Bytes)
    requires Parse(a).Some? && Parse(b).Some?
  {
    var (ua, ta, _) := Parse(a).value;
    var (ub, tb, _) := Parse(b).value;
    rank(ua) < rank(ub) || (rank(ua) == rank(ub) && ta > tb)
  }

  /** `order` ranks encoded keys as the comparator does; there are countably many, so some function does. */
  ghost predicate Ranks(rank: Rank, order: Bytes -> real) {
    forall a, b :: Parse(a).Some? && Parse(b).Some? ==> (order(a) < order(b) <==> Precedes(rank, a, b))
  }

  ghost predicate EncodesWith(rank: Rank, b: Bytes, e: Entry, key: Bytes) {
    |key| + 8 < TWO32 && |e.value| < TWO32 && e.ikey.user == rank(key) &&
    b == EncodeEntry(e.ikey.seqno, e.ikey.kind, key, e.value)
  }

  /** The entry an encoding stands for. */
  ghost predicate Encodes(rank: Rank, b: Bytes, e: Entry) {
    exists key: Bytes :: EncodesWith(rank, b, e, key)
  }

  /** Encoded entries and lookup keys compare as their internal keys do. */
  lemma EncodedOrder(rank: Rank, a: Bytes, e: Entry, b: Bytes, f: Entry)
    requires Encodes(rank, a, e) && Encodes(rank, b, f)
    ensures Parse(a).Some? && Parse(b).Some?
    ensures Precedes(rank, a, b) <==> Less(e.ikey, f.ikey)
  {
    var ka: Bytes :| EncodesWith(rank, a, e, ka);
    var kb: Bytes :| EncodesWith(rank, b, f, kb);
    ParseInternalKey(e.ikey.seqno, e.ikey.kind, ka, LengthPrefixed(e.value));
    ParseInternalKey(f.ikey.seqno, f.ikey.kind, kb, LengthPrefixed(f.value));
  }

  lemma LookupOrder(rank: Rank, a: Bytes, e: Entry, key: Bytes, s: Sequence)
    requires Encodes(rank, a, e) && |key| + 8 < TWO32
    ensures Parse(a).Some? && Parse(MemtableKey(key, s)).Some?
    ensures Precedes(rank, a, MemtableKey(key, s)) <==> Less(e.ikey, LookupKey(rank(key), s))
  {
    var ka: Bytes :| EncodesWith(rank, a, e, ka);
    ParseInternalKey(e.ikey.seqno, e.ikey.kind, ka, LengthPrefixed(e.value));
    assert MemtableKey(key, s) == MemtableKey(key, s) + [];
    ParseInternalKey(s, KIND_FOR_SEEK, key, []);
  }

  // ---------- the table ----------

  class MemTable {
    const rank: Rank
    const order: Bytes -> real
    const table: SkipLists.SkipList
    var arena: map<SkipLists.Key, Bytes>
    ghost var entries: map<SkipLists.Key, Entry>

    ghost predicate Valid()
      reads this, table
    {
      && table.Valid() && Ranks(rank, order)
      && arena.Keys == entries.Keys
      && (forall k :: k in arena <==> k in table.Keys())
      && (forall k :: k in arena ==> Encodes(rank, arena[k], entries[k]) && order(arena[k]) == k)
    }

    /** The entries added so far. */
    ghost function Contents(): set<Entry>
      reads this
    {
      set k | k in entries :: entries[k]
    }

    constructor (rank: Rank, order: Bytes -> real)
      requires Ranks(rank, order)
      ensures Valid() && fresh(table) && Contents() == {} && this.rank == rank
    {
      this.rank, this.order := rank, order;
      table := new SkipLists.SkipList();
      arena, entries := map[], map[];
    }

    /** Adds an entry whose sequence number its user key does not have yet. */
    method Add(s: Sequence, kind: Kind, key: Bytes, value: Bytes, height: nat)
      requires Valid() && |key| + 8 < TWO32 && |value| < TWO32 && 1 <= height <= SkipLists.MAX_HEIGHT
      requires forall e :: e in Contents() && e.ikey.user == rank(key) ==> e.ikey.seqno != s
      modifies this, table
      ensures Valid() && Contents() == old(Contents()) + {Entry(IKey(rank(key), s, kind), value)}
    {
      hide SkipLists.Spells, SkipLists.InsertKey, Encodes, EncodeEntry, Ranks, Less, Varint, Fixed64;
      var buf := Varint(|key| + 8) + key + Fixed64(s * 256 + if kind.Value? then 1 else 0) + Varint(|value|) + value;
      ghost var e := Entry(IKey(rank(key), s, kind), value);
      assert Encodes(rank, buf, e) by { BufferEncodes(rank, s, kind, key, value, buf); }
      FreshOrder(buf, e);
      SkipKeys(table, order(buf));
      table.Insert(order(buf), height);
      arena := arena[order(buf) := buf];
      entries := entries[order(buf) := e];
      assert forall k :: k in old(entries) ==> entries[k] == old(entries)[k];
    }

    /** Keys the comparator cannot tell apart have the same sequence number. */
    lemma FreshOrder(buf: Bytes, e: Entry)
      requires Valid() && Encodes(rank, buf, e)
      requires forall f :: f in Contents() && f.ikey.user == e.ikey.user ==> f.ikey.seqno != e.ikey.seqno
      ensures order(buf) !in arena
    {
      hide SkipLists.Spells, Encodes;
      var k := order(buf);
      assert k in arena ==> entries[k] in Contents();
      if k in arena {
        EncodedOrder(rank, arena[k], entries[k], buf, e);
        EncodedOrder(rank, buf, e, arena[k], entries[k]);
        LessTotal(entries[k].ikey, e.ikey);
      }
    }

    /** The value of a user key at a snapshot; `found` says that this table decides it. */
    method Get(key: Bytes, s: Sequence) returns (found: bool, r: Option<Bytes>)
      requires Valid() && |key| + 8 < TWO32 && Unique(Contents())
      ensures found == Newest(Contents(), rank(key), s).Some?
      ensures r == ReadAt(Contents(), rank(key), s)
    {
      hide SkipLists.Spells, Encodes, MemtableKey;
      var target := order(MemtableKey(key, s));
      var at, _ := table.FindGreaterOrEqual(target);
      LandsOnNewest(key, s, at);
      if at == None { return false, None; }
      var entry := arena[at.value];
      EntryParses(rank, entry, entries[at.value]);
      var (user, tag, rest) := Parse(entry).value;
      if rank(user) != rank(key) { return false, None; }
      NewestIs(Contents(), rank(key), s, entries[at.value]);
      found := true;
      if tag % 256 == 1 {
        r := Some(GetLengthPrefixed(rest).value.0);
      } else {
        r := None;
      }
    }

    /** The first entry at or after the lookup key decides, if it has the user key. */
    lemma LandsOnNewest(key: Bytes, s: Sequence, at: Option<SkipLists.Key>)
      requires Valid() && |key| + 8 < TWO32
      requires SkipLists.AtOrAfter(table.Keys(), order(MemtableKey(key, s)), at)
      ensures at.Some? ==> at.value in arena
      ensures at.Some? && entries[at.value].ikey.user == rank(key) ==>
        IsNewest(Contents(), rank(key), s, entries[at.value])
      ensures at.None? || entries[at.value].ikey.user != rank(key) ==> Newest(Contents(), rank(key), s) == None
    {
      hide SkipLists.Spells, Encodes, MemtableKey;
      var lookup := LookupKey(rank(key), s);
      forall k | k in arena
        ensures k < order(MemtableKey(key, s)) <==> Less(entries[k].ikey, lookup)
        ensures at.Some? ==> (k < at.value <==> Less(entries[k].ikey, entries[at.value].ikey))
      {
        LookupOrder(rank, arena[k], entries[k], key, s);
        if at.Some? { EncodedOrder(rank, arena[k], entries[k], arena[at.value], entries[at.value]); }
      }
      forall e | e in Contents() && Visible(e, rank(key), s)
        ensures at.Some? && entries[at.value].ikey.user == rank(key) && e.ikey.seqno <= entries[at.value].ikey.seqno
      {
        var k :| k in entries && entries[k] == e;
        assert !Less(e.ikey, lookup);
        assert at.Some? && at.value <= k;
      }
    }
  }

  lemma BufferEncodes(rank: Rank, s: Sequence, kind: Kind, key: Bytes, value: Bytes, buf: Bytes)
    requires |key| + 8 < TWO32 && |value| < TWO32
    requires buf == Varint(|key| + 8) + key + Fixed64(s * 256 + if kind.Value? then 1 else 0) + Varint(|value|) + value
    ensures Encodes(rank, buf, Entry(IKey(rank(key), s, kind), value))
  {
    hide Varint, Fixed64, LengthPrefixed, EncodeEntry;
    BufferIsEntry(s, kind, key, value);
    assert EncodesWith(rank, buf, Entry(IKey(rank(key), s, kind), value), key);
  }

  lemma BufferIsEntry(s: Sequence, kind: Kind, key: Bytes, value: Bytes)
    requires |key| + 8 < TWO32 && |value| < TWO32
    ensures
      Varint(|key| + 8) + key + Fixed64(s * 256 + if kind.Value? then 1 else 0) + Varint(|value|) + value ==
      EncodeEntry(s, kind, key, value)
  {
    hide Varint, Fixed64, LengthPrefixed;
    Prefixed(InternalKey(s, kind, key));
    Prefixed(value);
    Regroup(Varint(|key| + 8), key, Fixed64(TagOf(s, kind)), Varint(|value|), value);
  }

  lemma Prefixed(b: Bytes)
    requires |b| < TWO32
    ensures LengthPrefixed(b) == Varint(|b|) + b
  {
    hide Varint;
    SmallMod(|b|);
  }

  lemma SmallMod(n: nat)
    requires n < TWO32
    ensures n % TWO32 == n
  {
  }

  lemma Regroup(a: Bytes, b: Bytes, c: Bytes, d: Bytes, e: Bytes)
    ensures a + b + c + d + e == (a + (b + c)) + (d + e)
  {
  }

  lemma EntryParses(rank: Rank, b: Bytes, e: Entry)
    requires Encodes(rank, b, e)
    ensures Parse(b).Some?
    ensures rank(Parse(b).value.0) == e.ikey.user
    ensures Parse(b).value.1 % 256 == if e.ikey.kind.Value? then 1 else 0
    ensures GetLengthPrefixed(Parse(b).value.2) == Some((e.value, []))
  {
    var key: Bytes :| EncodesWith(rank, b, e, key);
    hide Varint, Fixed64, GetLengthPrefixed, Parse, LengthPrefixed;
    ParseInternalKey(e.ikey.seqno, e.ikey.kind, key, LengthPrefixed(e.value));
    assert LengthPrefixed(e.value) == LengthPrefixed(e.value) + [];
    LengthPrefixedRoundTrip(e.value, []);
  }

  lemma SkipKeys(table: SkipLists.SkipList, key: SkipLists.Key)
    requires table.Valid() && key !in table.Keys()
    ensures forall j :: j in SkipLists.InsertKey(table.Keys(), key) <==> j == key || j in table.Keys()
  {
    SkipLists.InsertKeyIsOn(table.memory, table.lists, 0, key);
  }
}
