/** The byte form of a version edit (db/version_edit.cc lines 28-205): tagged items, in a fixed order when written,
    in any order and number when read. */
module EditCodec {
  import opened Basics
  import opened Coding
  import opened DbFormat

  /** Metadata of a table as the manifest holds it; keys are encoded internal keys. */
  datatype FileMeta = FileMeta(number: U64, fileSize: U64, smallest: Bytes, largest: Bytes)

  datatype WireEdit = WireEdit(
    comparator: Option<Bytes>,
    logNumber: Option<U64>,
    prevLogNumber: Option<U64>,
    nextFileNumber: Option<U64>,
    lastSequence: Option<U64>,
    compactPointers: seq<(nat, Bytes)>,
    deletedFiles: set<(nat, U64)>,
    newFiles: seq<(nat, FileMeta)>)

  const CLEAR := WireEdit(None, None, None, None, None, [], {}, [])

  datatype Item =
    | Comparator(name: Bytes)
    | LogNumber(n: U64)
    | NextFileNumber(n: U64)
    | LastSequence(n: U64)
    | CompactPointer(level: nat, key: Bytes)
    | DeletedFile(level: nat, number: U64)
    | NewFile(level: nat, f: FileMeta)
    | PrevLogNumber(n: U64)

  function TagOf(i: Item): (t: nat)
    ensures 1 <= t <= 9
  {
    match i
    case Comparator(_) => 1
    case LogNumber(_) => 2
    case NextFileNumber(_) => 3
    case LastSequence(_) => 4
    case CompactPointer(_, _) => 5
    case DeletedFile(_, _) => 6
    case NewFile(_, _) => 7
    case PrevLogNumber(_) => 9
  }

  predicate ValidItem(i: Item) {
    match i
    case Comparator(name) => |name| < TWO32
    case CompactPointer(level, key) => level < NUM_LEVELS && |key| < TWO32
    case DeletedFile(level, _) => level < NUM_LEVELS
    case NewFile(level, f) => level < NUM_LEVELS && |f.smallest| < TWO32 && |f.largest| < TWO32
    case _ => true
  }

  // ---------- one item ----------

  function BodyOf(i: Item): Bytes {
    match i
    case Comparator(name) => LengthPrefixed(name)
    case LogNumber(n) => Varint(n)
    case NextFileNumber(n) => Varint(n)
    case LastSequence(n) => Varint(n)
    case PrevLogNumber(n) => Varint(n)
    case CompactPointer(level, key) => Varint(level) + LengthPrefixed(key)
    case DeletedFile(level, number) => Varint(level) + Varint(number)
    case NewFile(level, f) =>
      Varint(level) + (Varint(f.number) +
        (Varint(f.fileSize) + (LengthPrefixed(f.smallest) + LengthPrefixed(f.largest))))
  }

  function EncodeItem(i: Item): Bytes {
    Varint(TagOf(i)) + BodyOf(i)
  }

  function GetLevel(input: Bytes): (r: Option<(nat, Bytes)>)
    ensures r.Some? ==> r.value.0 < NUM_LEVELS && |r.value.1| < |input|
  {
    match GetVarint32(input)
    case None => None
    case Some((v, rest)) => if v < NUM_LEVELS then Some((v, rest)) else None
  }

  datatype Parsed = Item(item: Item, rest: Bytes) | Malformed(msg: string)

  /** The body of an item with the given tag. */
  function ParseBody(tag: U32, input: Bytes): (r: Parsed)
    ensures r.Item? ==> ValidItem(r.item) && |r.rest| < |input|
  {
    if tag == 1 then
      match GetLengthPrefixed(input)
      case None => Malformed("comparator name")
      case Some((str, rest)) =>
        LengthPrefixedBound(input);
        Parsed.Item(Comparator(str), rest)
    else if tag == 2 then
      match GetVarint64(input)
      case None => Malformed("log number")
      case Some((n, rest)) => Parsed.Item(LogNumber(n), rest)
    else if tag == 9 then
      match GetVarint64(input)
      case None => Malformed("previous log number")
      case Some((n, rest)) => Parsed.Item(PrevLogNumber(n), rest)
    else if tag == 3 then
      match GetVarint64(input)
      case None => Malformed("next file number")
      case Some((n, rest)) => Parsed.Item(NextFileNumber(n), rest)
    else if tag == 4 then
      match GetVarint64(input)
      case None => Malformed("last sequence number")
      case Some((n, rest)) => Parsed.Item(LastSequence(n), rest)
    else if tag == 5 then ParsePointer(input)
    else if tag == 6 then ParseDeleted(input)
    else if tag == 7 then ParseNewFile(input)
    else Malformed("unknown tag")
  }

  lemma LengthPrefixedBound(input: Bytes)
    ensures var r := GetLengthPrefixed(input); r.Some? ==> |r.value.0| < TWO32
  {
  }

  function ParsePointer(input: Bytes): (r: Parsed)
    ensures r.Item? ==> ValidItem(r.item) && |r.rest| < |input|
  {
    match GetLevel(input)
    case None => Malformed("compaction pointer")
    case Some((level, rest)) =>
      match GetLengthPrefixed(rest)
      case None => Malformed("compaction pointer")
      case Some((key, rest')) =>
        LengthPrefixedBound(rest);
        Parsed.Item(CompactPointer(level, key), rest')
  }

  function ParseDeleted(input: Bytes): (r: Parsed)
    ensures r.Item? ==> ValidItem(r.item) && |r.rest| < |input|
  {
    match GetLevel(input)
    case None => Malformed("deleted file")
    case Some((level, rest)) =>
      match GetVarint64(rest)
      case None => Malformed("deleted file")
      case Some((number, rest')) => Parsed.Item(DeletedFile(level, number), rest')
  }

  function ParseNewFile(input: Bytes): (r: Parsed)
    ensures r.Item? ==> ValidItem(r.item) && |r.rest| < |input|
  {
    match GetLevel(input)
    case None => Malformed("new-file entry")
    case Some((level, r0)) =>
      match GetVarint64(r0)
      case None => Malformed("new-file entry")
      case Some((number, r1)) =>
        match GetVarint64(r1)
        case None => Malformed("new-file entry")
        case Some((fileSize, r2)) =>
          match GetLengthPrefixed(r2)
          case None => Malformed("new-file entry")
          case Some((smallest, r3)) =>
            match GetLengthPrefixed(r3)
            case None => Malformed("new-file entry")
            case Some((largest, rest)) =>
              LengthPrefixedBound(r2);
              LengthPrefixedBound(r3);
              Parsed.Item(NewFile(level, FileMeta(number, fileSize, smallest, largest)), rest)
  }

  lemma LevelRoundTrip(level: nat, rest: Bytes)
    requires level < NUM_LEVELS
    ensures GetLevel(Varint(level) + rest) == Some((level, rest))
  {
    Varint32RoundTrip(level, rest);
  }

  lemma NewFileRoundTrip(level: nat, f: FileMeta, rest: Bytes)
    requires ValidItem(NewFile(level, f))
    ensures ParseNewFile(BodyOf(NewFile(level, f)) + rest) == Parsed.Item(NewFile(level, f), rest)
  {
    hide Varint, LengthPrefixed, GetLevel, GetVarint64, GetLengthPrefixed;
    var b3 := LengthPrefixed(f.largest) + rest;
    var b2 := LengthPrefixed(f.smallest) + b3;
    var b1 := Varint(f.fileSize) + b2;
    var b0 := Varint(f.number) + b1;
    assert BodyOf(NewFile(level, f)) + rest == Varint(level) + b0;
    LevelRoundTrip(level, b0);
    Varint64RoundTrip(f.number, b1);
    Varint64RoundTrip(f.fileSize, b2);
    LengthPrefixedRoundTrip(f.smallest, b3);
    LengthPrefixedRoundTrip(f.largest, rest);
  }

  /** An item's body reads back as the item, whatever follows. */
  lemma BodyRoundTrip(i: Item, rest: Bytes)
    requires ValidItem(i)
    ensures ParseBody(TagOf(i), BodyOf(i) + rest) == Parsed.Item(i, rest)
  {
    hide Varint, LengthPrefixed, GetLevel, GetVarint64, GetLengthPrefixed, ParseNewFile;
    match i
    case Comparator(name) => LengthPrefixedRoundTrip(name, rest);
    case LogNumber(n) => Varint64RoundTrip(n, rest);
    case NextFileNumber(n) => Varint64RoundTrip(n, rest);
    case LastSequence(n) => Varint64RoundTrip(n, rest);
    case PrevLogNumber(n) => Varint64RoundTrip(n, rest);
    case CompactPointer(level, key) =>
      Associate(Varint(level), LengthPrefixed(key), rest);
      LevelRoundTrip(level, LengthPrefixed(key) + rest);
      LengthPrefixedRoundTrip(key, rest);
    case DeletedFile(level, number) =>
      Associate(Varint(level), Varint(number), rest);
      LevelRoundTrip(level, Varint(number) + rest);
      Varint64RoundTrip(number, rest);
    case NewFile(level, f) => NewFileRoundTrip(level, f, rest);
  }

  // ---------- a run of items ----------

  function EncodeItems(items: seq<Item>): Bytes {
    if items == [] then [] else EncodeItem(items[0]) + EncodeItems(items[1..])
  }

  datatype Decoded = Items(items: seq<Item>) | Corruption(msg: string)

  function Prepend(i: Item, d: Decoded): Decoded {
    if d.Items? then Items([i] + d.items) else d
  }

  /** All items of the input, or what is wrong with it. */
  function DecodeItems(input: Bytes): (r: Decoded)
    ensures r.Items? ==> forall i :: 0 <= i < |r.items| ==> ValidItem(r.items[i])
    decreases |input|
  {
    match GetVarint32(input)
    case None => if input == [] then Items([]) else Corruption("invalid tag")
    case Some((tag, rest)) =>
      match ParseBody(tag, rest)
      case Malformed(msg) => Corruption(msg)
      case Item(i, rest') => Prepend(i, DecodeItems(rest'))
  }

  lemma {:induction false} ItemsRoundTrip(items: seq<Item>)
    requires forall i :: 0 <= i < |items| ==> ValidItem(items[i])
    ensures DecodeItems(EncodeItems(items)) == Items(items)
  {
    if items == [] {
    } else {
      hide Varint, BodyOf, ParseBody, GetVarint32, ValidItem;
      var i, rest := items[0], EncodeItems(items[1..]);
      Associate(Varint(TagOf(i)), BodyOf(i), rest);
      Varint32RoundTrip(TagOf(i), BodyOf(i) + rest);
      BodyRoundTrip(i, rest);
      ItemsRoundTrip(items[1..]);
      assert items == [i] + items[1..];
    }
  }

  // ---------- edits ----------

  /** One item read into an edit. */
  function Add(e: WireEdit, i: Item): WireEdit {
    match i
    case Comparator(name) => e.(comparator := Some(name))
    case LogNumber(n) => e.(logNumber := Some(n))
    case NextFileNumber(n) => e.(nextFileNumber := Some(n))
    case LastSequence(n) => e.(lastSequence := Some(n))
    case PrevLogNumber(n) => e.(prevLogNumber := Some(n))
    case CompactPointer(level, key) => e.(compactPointers := e.compactPointers + [(level, key)])
    case DeletedFile(level, number) => e.(deletedFiles := e.deletedFiles + {(level, number)})
    case NewFile(level, f) => e.(newFiles := e.newFiles + [(level, f)])
  }

  function AddAll(e: WireEdit, items: seq<Item>): WireEdit
    decreases |items|
  {
    if items == [] then e else AddAll(Add(e, items[0]), items[1..])
  }

  predicate ValidEdit(e: WireEdit) {
    && (e.comparator.Some? ==> |e.comparator.value| < TWO32)
    && (forall i :: 0 <= i < |e.compactPointers| ==>
      e.compactPointers[i].0 < NUM_LEVELS && |e.compactPointers[i].1| < TWO32)
    && (forall d :: d in e.deletedFiles ==> d.0 < NUM_LEVELS)
    && (forall i :: 0 <= i < |e.newFiles| ==>
          && e.newFiles[i].0 < NUM_LEVELS
          && |e.newFiles[i].1.smallest| < TWO32 && |e.newFiles[i].1.largest| < TWO32)
  }

  function Single(o: Option<U64>, make: U64 -> Item): seq<Item> {
    if o.Some? then [make(o.value)] else []
  }

  function Pointers(ps: seq<(nat, Bytes)>): (r: seq<Item>)
    ensures |r| == |ps|
  {
    seq(|ps|, i requires 0 <= i < |ps| => CompactPointer(ps[i].0, ps[i].1))
  }

  function Deletions(ds: seq<(nat, U64)>): (r: seq<Item>)
    ensures |r| == |ds|
  {
    seq(|ds|, i requires 0 <= i < |ds| => DeletedFile(ds[i].0, ds[i].1))
  }

  function Additions(fs: seq<(nat, FileMeta)>): (r: seq<Item>)
    ensures |r| == |fs|
  {
    seq(|fs|, i requires 0 <= i < |fs| => NewFile(fs[i].0, fs[i].1))
  }

  function Header(e: WireEdit): seq<Item> {
    (if e.comparator.Some? then [Comparator(e.comparator.value)] else [])
    + Single(e.logNumber, (n: U64) => LogNumber(n))
    + Single(e.prevLogNumber, (n: U64) => PrevLogNumber(n))
    + Single(e.nextFileNumber, (n: U64) => NextFileNumber(n))
    + Single(e.lastSequence, (n: U64) => LastSequence(n))
  }

  /** The items of an edit as EncodeTo writes them, its deletions listed as `order`. */
  function ItemsOf(e: WireEdit, order: seq<(nat, U64)>): seq<Item> {
    Header(e) + Pointers(e.compactPointers) + Deletions(order) + Additions(e.newFiles)
  }

  predicate PairLess(a: (nat, U64), b: (nat, U64)) {
    a.0 < b.0 || (a.0 == b.0 && a.1 < b.1)
  }

  /** `order` is how a std::set of pairs lists `s`. */
  ghost predicate Lists(order: seq<(nat, U64)>, s: set<(nat, U64)>) {
    && (forall d :: d in order <==> d in s)
    && forall i, j :: 0 <= i < j < |order| ==> PairLess(order[i], order[j])
  }

  lemma {:induction false} AddAllAppend(e: WireEdit, a: seq<Item>, b: seq<Item>)
    ensures AddAll(e, a + b) == AddAll(AddAll(e, a), b)
    decreases |a|
  {
    if a == [] {
      assert a + b == b;
    } else {
      hide Add;
      assert (a + b)[0] == a[0] && (a + b)[1..] == a[1..] + b;
      AddAllAppend(Add(e, a[0]), a[1..], b);
    }
  }

  lemma {:induction false} AddPointers(e: WireEdit, ps: seq<(nat, Bytes)>)
    ensures AddAll(e, Pointers(ps)) == e.(compactPointers := e.compactPointers + ps)
    decreases |ps|
  {
    if ps == [] {
      assert e.compactPointers + ps == e.compactPointers;
    } else {
      AddPointers(e.(compactPointers := e.compactPointers + [ps[0]]), ps[1..]);
      assert Pointers(ps)[1..] == Pointers(ps[1..]);
      assert e.compactPointers + [ps[0]] + ps[1..] == e.compactPointers + ps;
    }
  }

  lemma {:induction false} AddDeletions(e: WireEdit, ds: seq<(nat, U64)>)
    ensures AddAll(e, Deletions(ds)) == e.(deletedFiles := e.deletedFiles + set d | d in ds)
    decreases |ds|
  {
    if ds == [] {
      assert e.deletedFiles + (set d | d in ds) == e.deletedFiles;
    } else {
      AddDeletions(e.(deletedFiles := e.deletedFiles + {ds[0]}), ds[1..]);
      assert Deletions(ds)[1..] == Deletions(ds[1..]);
      assert ds == [ds[0]] + ds[1..];
      assert e.deletedFiles + {ds[0]} + (set d | d in ds[1..]) == e.deletedFiles + (set d | d in ds);
    }
  }

  lemma {:induction false} AddAdditions(e: WireEdit, fs: seq<(nat, FileMeta)>)
    ensures AddAll(e, Additions(fs)) == e.(newFiles := e.newFiles + fs)
    decreases |fs|
  {
    if fs == [] {
      assert e.newFiles + fs == e.newFiles;
    } else {
      AddAdditions(e.(newFiles := e.newFiles + [fs[0]]), fs[1..]);
      assert Additions(fs)[1..] == Additions(fs[1..]);
      assert e.newFiles + [fs[0]] + fs[1..] == e.newFiles + fs;
    }
  }

  lemma AddOne(e: WireEdit, i: Item)
    ensures AddAll(e, [i]) == Add(e, i)
  {
    assert [i][1..] == [];
    assert AddAll(Add(e, i), []) == Add(e, i);
  }

  lemma AddSingle(e: WireEdit, o: Option<U64>, make: U64 -> Item)
    ensures AddAll(e, Single(o, make)) == if o.Some? then Add(e, make(o.value)) else e
  {
    hide Add;
    if o.Some? { AddOne(e, make(o.value)); }
  }

  lemma AddHeader(e: WireEdit, x: WireEdit)
    requires x == WireEdit(None, None, None, None, None, x.compactPointers, x.deletedFiles, x.newFiles)
    ensures AddAll(x, Header(e)) ==
      x.(comparator := e.comparator, logNumber := e.logNumber, prevLogNumber := e.prevLogNumber,
      nextFileNumber := e.nextFileNumber, lastSequence := e.lastSequence)
  {
    hide AddAll;
    var c := if e.comparator.Some? then [Comparator(e.comparator.value)] else [];
    var l, p := Single(e.logNumber, (n: U64) => LogNumber(n)), Single(e.prevLogNumber, (n: U64) => PrevLogNumber(n));
    var f, s := Single(e.nextFileNumber, (n: U64) => NextFileNumber(n)),
      Single(e.lastSequence, (n: U64) => LastSequence(n));
    AddAllAppend(x, c + l + p + f, s);
    AddAllAppend(x, c + l + p, f);
    AddAllAppend(x, c + l, p);
    AddAllAppend(x, c, l);
    var x1 := x.(comparator := e.comparator);
    assert AddAll(x, c) == x1 by {
      if e.comparator.Some? { AddOne(x, Comparator(e.comparator.value)); } else { AddNothing(x); }
    }
    AddSingle(x1, e.logNumber, (n: U64) => LogNumber(n));
    var x2 := x1.(logNumber := e.logNumber);
    AddSingle(x2, e.prevLogNumber, (n: U64) => PrevLogNumber(n));
    var x3 := x2.(prevLogNumber := e.prevLogNumber);
    AddSingle(x3, e.nextFileNumber, (n: U64) => NextFileNumber(n));
    AddSingle(x3.(nextFileNumber := e.nextFileNumber), e.lastSequence, (n: U64) => LastSequence(n));
  }

  lemma AddNothing(x: WireEdit)
    ensures AddAll(x, []) == x
  {
  }

  /** Reading the items of an edit into a cleared edit gives the edit back. */
  lemma ItemsRebuild(e: WireEdit, order: seq<(nat, U64)>)
    requires Lists(order, e.deletedFiles)
    ensures AddAll(CLEAR, ItemsOf(e, order)) == e
  {
    hide AddAll, Header, Pointers, Deletions, Additions;
    var h, p, d, a := Header(e), Pointers(e.compactPointers), Deletions(order), Additions(e.newFiles);
    AddAllAppend(CLEAR, h + p + d, a);
    AddAllAppend(CLEAR, h + p, d);
    AddAllAppend(CLEAR, h, p);
    AddHeader(e, CLEAR);
    var x := AddAll(CLEAR, h);
    AddPointers(x, e.compactPointers);
    var y := x.(compactPointers := x.compactPointers + e.compactPointers);
    AddDeletions(y, order);
    assert (set k | k in order) == e.deletedFiles;
    AddAdditions(y.(deletedFiles := y.deletedFiles + set k | k in order), e.newFiles);
  }

  lemma ItemsValid(e: WireEdit, order: seq<(nat, U64)>)
    requires ValidEdit(e) && Lists(order, e.deletedFiles)
    ensures forall i :: 0 <= i < |ItemsOf(e, order)| ==> ValidItem(ItemsOf(e, order)[i])
  {
    var h, p, d, a := Header(e), Pointers(e.compactPointers), Deletions(order), Additions(e.newFiles);
    assert forall i :: 0 <= i < |h| ==> ValidItem(h[i]);
    assert forall i :: 0 <= i < |d| ==> ValidItem(d[i]) by {
      forall i | 0 <= i < |d| ensures ValidItem(d[i]) { assert order[i] in order; }
    }
    assert ItemsOf(e, order) == h + p + d + a;
  }

  /** What EncodeTo writes, DecodeFrom reads back. */
  lemma EditRoundTrip(e: WireEdit, order: seq<(nat, U64)>)
    requires ValidEdit(e) && Lists(order, e.deletedFiles)
    ensures var d := DecodeItems(EncodeItems(ItemsOf(e, order))); d.Items? && AddAll(CLEAR, d.items) == e
  {
    ItemsValid(e, order);
    ItemsRoundTrip(ItemsOf(e, order));
    ItemsRebuild(e, order);
  }

  lemma {:induction false} AddAllValid(e: WireEdit, items: seq<Item>)
    requires ValidEdit(e) && forall i :: 0 <= i < |items| ==> ValidItem(items[i])
    ensures ValidEdit(AddAll(e, items))
    decreases |items|
  {
    if items != [] {
      AddAllValid(Add(e, items[0]), items[1..]);
    }
  }

  lemma {:induction false} EncodeItemsAppend(a: seq<Item>, b: seq<Item>)
    ensures EncodeItems(a + b) == EncodeItems(a) + EncodeItems(b)
    decreases |a|
  {
    if a == [] {
      assert a + b == b;
    } else {
      hide EncodeItem;
      assert (a + b)[0] == a[0] && (a + b)[1..] == a[1..] + b;
      EncodeItemsAppend(a[1..], b);
      Associate(EncodeItem(a[0]), EncodeItems(a[1..]), EncodeItems(b));
    }
  }

  lemma {:induction false} LeastPair(s: set<(nat, U64)>) returns (d: (nat, U64))
    requires s != {}
    ensures d in s && forall x :: x in s && x != d ==> PairLess(d, x)
    decreases s
  {
    d :| d in s;
    var first, rest := d, s - {d};
    if rest != {} {
      var m := LeastPair(rest);
      if PairLess(m, d) {
        d := m;
      }
      forall x | x in s && x != d ensures PairLess(d, x) {
        assert x == first || x in rest;
        assert x in rest && x != m ==> PairLess(m, x);
      }
    } else {
      assert forall x :: x in s ==> x == d || x in rest;
    }
  }

  /** The class of version_edit.h. */
  class VersionEdit {
    var comparator: Option<Bytes>
    var logNumber: Option<U64>
    var prevLogNumber: Option<U64>
    var nextFileNumber: Option<U64>
    var lastSequence: Option<U64>
    var compactPointers: seq<(nat, Bytes)>
    var deletedFiles: set<(nat, U64)>
    var newFiles: seq<(nat, FileMeta)>

    function Abs(): WireEdit
      reads this
    {
      WireEdit(comparator, logNumber, prevLogNumber, nextFileNumber, lastSequence, compactPointers, deletedFiles,
        newFiles)
    }

    constructor ()
      ensures Abs() == CLEAR
    {
      comparator, logNumber, prevLogNumber, nextFileNumber, lastSequence := None, None, None, None, None;
      compactPointers, deletedFiles, newFiles := [], {}, [];
    }

    constructor From(e: WireEdit)
      ensures Abs() == e
    {
      comparator, logNumber, prevLogNumber := e.comparator, e.logNumber, e.prevLogNumber;
      nextFileNumber, lastSequence := e.nextFileNumber, e.lastSequence;
      compactPointers, deletedFiles, newFiles := e.compactPointers, e.deletedFiles, e.newFiles;
    }

    /** Clears everything but the compaction pointers. */
    method Clear()
      modifies this
      ensures Abs() == CLEAR.(compactPointers := old(compactPointers))
    {
      comparator, logNumber, prevLogNumber, nextFileNumber, lastSequence := None, None, None, None, None;
      deletedFiles, newFiles := {}, [];
    }

    method EncodeTo(dst: Bytes) returns (r: Bytes, ghost order: seq<(nat, U64)>)
      ensures Lists(order, deletedFiles)
      ensures r == dst + EncodeItems(ItemsOf(Abs(), order))
    {
      hide EncodeItem, EncodeItems, Pointers, Additions, Deletions;
      ghost var done: seq<Item> := [];
      r := dst;
      EncodeNothing();
      done, r := PutAll(r, dst, done, if comparator.Some? then [Comparator(comparator.value)] else []);
      done, r := PutAll(r, dst, done, Single(logNumber, (n: U64) => LogNumber(n)));
      done, r := PutAll(r, dst, done, Single(prevLogNumber, (n: U64) => PrevLogNumber(n)));
      done, r := PutAll(r, dst, done, Single(nextFileNumber, (n: U64) => NextFileNumber(n)));
      done, r := PutAll(r, dst, done, Single(lastSequence, (n: U64) => LastSequence(n)));
      assert [] + (if comparator.Some? then [Comparator(comparator.value)] else [])
        == (if comparator.Some? then [Comparator(comparator.value)] else []);
      assert done == Header(Abs());
      done, r := PutPointers(r, dst, done);
      done, r, order := PutDeletions(r, dst, done);
      done, r := PutFiles(r, dst, done);
    }

    method PutPointers(r: Bytes, ghost dst: Bytes, ghost done: seq<Item>) returns (ghost done': seq<Item>, r': Bytes)
      requires r == dst + EncodeItems(done)
      ensures done' == done + Pointers(compactPointers) && r' == dst + EncodeItems(done')
    {
      hide EncodeItem, EncodeItems;
      done', r' := done, r;
      for i := 0 to |compactPointers|
        invariant done' == done + Pointers(compactPointers)[..i]
        invariant r' == dst + EncodeItems(done')
      {
        done', r' := PutItem(r', dst, done', CompactPointer(compactPointers[i].0, compactPointers[i].1));
      }
      assert Pointers(compactPointers)[..|compactPointers|] == Pointers(compactPointers);
    }

    method PutFiles(r: Bytes, ghost dst: Bytes, ghost done: seq<Item>) returns (ghost done': seq<Item>, r': Bytes)
      requires r == dst + EncodeItems(done)
      ensures done' == done + Additions(newFiles) && r' == dst + EncodeItems(done')
    {
      hide EncodeItem, EncodeItems;
      done', r' := done, r;
      for i := 0 to |newFiles|
        invariant done' == done + Additions(newFiles)[..i]
        invariant r' == dst + EncodeItems(done')
      {
        done', r' := PutItem(r', dst, done', NewFile(newFiles[i].0, newFiles[i].1));
      }
      assert Additions(newFiles)[..|newFiles|] == Additions(newFiles);
    }

    /** A tag and what it announces. */
    method PutItem(r: Bytes, ghost dst: Bytes, ghost done: seq<Item>, i: Item)
        returns (ghost done': seq<Item>, r': Bytes)
      requires r == dst + EncodeItems(done)
      ensures done' == done + [i] && r' == dst + EncodeItems(done')
    {
      hide EncodeItems, EncodeItem;
      r' := r + EncodeItem(i);
      done' := done + [i];
      EncodeItemsAppend(done, [i]);
      EncodeOne(i);
      Associate(dst, EncodeItems(done), EncodeItem(i));
    }

    /** An optional item. */
    method PutAll(r: Bytes, ghost dst: Bytes, ghost done: seq<Item>, items: seq<Item>)
        returns (ghost done': seq<Item>, r': Bytes)
      requires r == dst + EncodeItems(done) && |items| <= 1
      ensures done' == done + items && r' == dst + EncodeItems(done')
    {
      done', r' := done, r;
      if items != [] {
        done', r' := PutItem(r, dst, done, items[0]);
      }
    }

    /** The deleted files in the order of their set. */
    method PutDeletions(r: Bytes, ghost dst: Bytes, ghost done: seq<Item>)
        returns (ghost done': seq<Item>, r': Bytes, ghost order: seq<(nat, U64)>)
      requires r == dst + EncodeItems(done)
      ensures Lists(order, deletedFiles)
      ensures done' == done + Deletions(order) && r' == dst + EncodeItems(done')
    {
      hide EncodeItems, EncodeItem;
      done', r', order := done, r, [];
      var del := deletedFiles;
      while del != {}
        invariant del <= deletedFiles
        invariant Lists(order, deletedFiles - del)
        invariant forall d, x :: d in order && x in del ==> PairLess(d, x)
        invariant done' == done + Deletions(order) && r' == dst + EncodeItems(done')
        decreases del
      {
        ghost var least := LeastPair(del);
        var d :| d in del && forall x :: x in del && x != d ==> PairLess(d, x);
        ghost var was := order;
        order := order + [d];
        done', r' := PutItem(r', dst, done', DeletedFile(d.0, d.1));
        assert Deletions(order) == Deletions(was) + [DeletedFile(d.0, d.1)];
        assert deletedFiles - (del - {d}) == (deletedFiles - del) + {d};
        assert forall j :: 0 <= j < |was| ==> was[j] in was;
        del := del - {d};
      }
      assert deletedFiles - {} == deletedFiles;
    }

    /** Reads any bytes: either every item of them, or the first thing wrong. */
    method DecodeFrom(src: Bytes) returns (msg: Option<string>)
      modifies this
      ensures match DecodeItems(src)
        case Items(items) => msg == None && Abs() == AddAll(CLEAR.(compactPointers := old(compactPointers)), items)
        case Corruption(m) => msg == Some(m)
    {
      hide ParseBody, Add, GetVarint32;
      Clear();
      var input := src;
      ghost var start, items: seq<Item> := Abs(), [];
      msg := None;
      AddNothing(start);
      var more := true;
      while more
        invariant msg == None && Abs() == AddAll(start, items)
        invariant more ==> DecodeItems(src) == PrependAll(items, DecodeItems(input))
        invariant !more ==>
          DecodeItems(src) == PrependAll(items, if input == [] then Items([]) else Corruption("invalid tag"))
        decreases more, |input|
      {
        match GetVarint32(input) {
          case None => more := false;
          case Some((tag, rest)) =>
            match ParseBody(tag, rest) {
              case Malformed(m) =>
                return Some(m);
              case Item(i, rest') =>
                Store(i);
                AddAllAppend(start, items, [i]);
                AddOne(AddAll(start, items), i);
                PrependOne(items, i, DecodeItems(rest'));
                items := items + [i];
                input := rest';
            }
        }
      }
      if input != [] {
        msg := Some("invalid tag");
      } else {
        assert items + [] == items;
      }
    }

    method Store(i: Item)
      modifies this
      ensures Abs() == Add(old(Abs()), i)
    {
      match i
      case Comparator(name) => comparator := Some(name);
      case LogNumber(n) => logNumber := Some(n);
      case NextFileNumber(n) => nextFileNumber := Some(n);
      case LastSequence(n) => lastSequence := Some(n);
      case PrevLogNumber(n) => prevLogNumber := Some(n);
      case CompactPointer(level, key) => compactPointers := compactPointers + [(level, key)];
      case DeletedFile(level, number) => deletedFiles := deletedFiles + {(level, number)};
      case NewFile(level, f) => newFiles := newFiles + [(level, f)];
    }
  }

  lemma EncodeOne(i: Item)
    ensures EncodeItems([i]) == EncodeItem(i)
  {
    hide EncodeItem;
    assert [i][1..] == [] && EncodeItem(i) + [] == EncodeItem(i);
  }

  lemma EncodeNothing()
    ensures EncodeItems([]) == []
  {
  }

  function PrependAll(items: seq<Item>, d: Decoded): Decoded {
    if d.Items? then Items(items + d.items) else d
  }

  lemma PrependOne(items: seq<Item>, i: Item, d: Decoded)
    ensures PrependAll(items, Prepend(i, d)) == PrependAll(items + [i], d)
  {
    if d.Items? { assert items + ([i] + d.items) == (items + [i]) + d.items; }
  }
}
