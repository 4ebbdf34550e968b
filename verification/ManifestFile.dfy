/** From the bytes of a manifest to a version set. */
module ManifestFile {
  // What recovery makes of the file (db/version_set.cc lines 801-849, 886-1000, 1086-1117).

  import opened Basics
  import opened Coding
  import opened DbFormat
  import opened Versions
  import opened Builder
  import opened Manifest
  import opened ManifestReplay
  import EditCodec
  import LogWriter
  import opened LogReader
  import opened LogRecovery

  /** How internal keys are written as bytes, and what tables hold: the table cache's part. */
  datatype World = World(encode: IKey -> Bytes, decode: Bytes -> IKey, tables: nat -> seq<Entry>)

  // ---------- edits and their byte form ----------

  predicate Codable(w: World, k: IKey) {
    w.decode(w.encode(k)) == k && |w.encode(k)| < TWO32
  }

  predicate WritableFile(w: World, f: File) {
    && f.number < TWO64 && f.fileSize < TWO64
    && Codable(w, f.smallest) && Codable(w, f.largest)
    && f.entries == w.tables(f.number)
  }

  predicate Fits(n: Option<nat>) {
    n.Some? ==> n.value < TWO64
  }

  /** The edit's numbers fit into 64 bits and its keys can be written. */
  predicate Writable(w: World, e: VersionEdit) {
    && ValidLevels(e)
    && (e.comparator.Some? ==> |e.comparator.value| < TWO32)
    && Fits(e.logNumber) && Fits(e.prevLogNumber) && Fits(e.nextFileNumber) && Fits(e.lastSequence)
    && (forall i :: 0 <= i < |e.compactPointers| ==> Codable(w, e.compactPointers[i].1))
    && (forall d :: d in e.deletedFiles ==> d.1 < TWO64)
    && (forall i :: 0 <= i < |e.newFiles| ==> WritableFile(w, e.newFiles[i].1))
  }

  function WirePointers(w: World, ps: seq<(nat, IKey)>): (r: seq<(nat, Bytes)>)
    ensures |r| == |ps|
  {
    seq(|ps|, i requires 0 <= i < |ps| => (ps[i].0, w.encode(ps[i].1)))
  }

  function UnwirePointers(w: World, ps: seq<(nat, Bytes)>): (r: seq<(nat, IKey)>)
    ensures |r| == |ps|
  {
    seq(|ps|, i requires 0 <= i < |ps| => (ps[i].0, w.decode(ps[i].1)))
  }

  function WireFiles(w: World, fs: seq<(nat, File)>): (r: seq<(nat, EditCodec.FileMeta)>)
    requires forall i :: 0 <= i < |fs| ==> WritableFile(w, fs[i].1)
    ensures |r| == |fs|
  {
    seq(|fs|, i requires 0 <= i < |fs| && WritableFile(w, fs[i].1) =>
      (fs[i].0, EditCodec.FileMeta(fs[i].1.number, fs[i].1.fileSize, w.encode(fs[i].1.smallest),
        w.encode(fs[i].1.largest))))
  }

  function UnwireFiles(w: World, fs: seq<(nat, EditCodec.FileMeta)>): (r: seq<(nat, File)>)
    ensures |r| == |fs|
  {
    seq(|fs|, i requires 0 <= i < |fs| =>
      (fs[i].0, File(fs[i].1.number, fs[i].1.fileSize, w.decode(fs[i].1.smallest), w.decode(fs[i].1.largest),
                     w.tables(fs[i].1.number))))
  }

  function WireNumber(n: Option<nat>): Option<U64>
    requires Fits(n)
  {
    if n.Some? then Some(n.value) else None
  }

  function ToWire(w: World, e: VersionEdit): EditCodec.WireEdit
    requires Writable(w, e)
  {
    EditCodec.WireEdit(e.comparator, WireNumber(e.logNumber), WireNumber(e.prevLogNumber), WireNumber(e.nextFileNumber),
      WireNumber(e.lastSequence), WirePointers(w, e.compactPointers),
      set d | d in e.deletedFiles && d.1 < TWO64 :: (d.0, d.1 as U64),
      WireFiles(w, e.newFiles))
  }

  function FromWire(w: World, x: EditCodec.WireEdit): VersionEdit {
    VersionEdit(x.comparator, x.logNumber, x.prevLogNumber, x.nextFileNumber, x.lastSequence,
      UnwirePointers(w, x.compactPointers), x.deletedFiles, UnwireFiles(w, x.newFiles))
  }

  lemma WireRoundTrip(w: World, e: VersionEdit)
    requires Writable(w, e)
    ensures FromWire(w, ToWire(w, e)) == e && EditCodec.ValidEdit(ToWire(w, e))
  {
    var x := ToWire(w, e);
    assert UnwirePointers(w, x.compactPointers) == e.compactPointers;
    assert UnwireFiles(w, x.newFiles) == e.newFiles by {
      forall i | 0 <= i < |e.newFiles| ensures UnwireFiles(w, x.newFiles)[i] == e.newFiles[i] {
        assert WritableFile(w, e.newFiles[i].1);
      }
    }
    SameDeletions(e.deletedFiles);
  }

  lemma SameDeletions(ds: set<(nat, nat)>)
    requires forall d :: d in ds ==> d.1 < TWO64
    ensures (set d | d in ds && d.1 < TWO64 :: (d.0, d.1 as U64)) == ds
  {
    var x := set d | d in ds && d.1 < TWO64 :: (d.0, d.1 as U64);
    forall d | d in ds ensures d in x {
      assert d.1 < TWO64 && (d.0, d.1 as U64) == d;
    }
  }

  // ---------- recovery ----------

  /** What Recover leaves in the version set. */
  datatype VersionState = VersionState(
    current: Version,
    compactPointers: map<nat, IKey>,
    manifestFileNumber: nat,
    nextFileNumber: nat,
    lastSequence: nat,
    logNumber: nat,
    prevLogNumber: nat)

  /** The edit a record holds, if it can be read and names the right comparator or none. */
  function DecodeEdit(w: World, comparator: Bytes, record: Bytes): (r: Option<VersionEdit>)
    ensures r.Some? ==> ValidLevels(r.value)
  {
    match EditCodec.DecodeItems(record)
    case Corruption(_) => None
    case Items(items) =>
      var x := EditCodec.AddAll(EditCodec.CLEAR, items);
      if x.comparator.Some? && x.comparator.value != comparator then None
      else
        EditCodec.AddAllValid(EditCodec.CLEAR, items);
        Some(FromWire(w, x))
  }

  /** The edits of all records, or nothing if one cannot be used. */
  function DecodeEdits(w: World, comparator: Bytes, records: seq<Bytes>): (r: Option<seq<VersionEdit>>)
    ensures r.Some? ==> AllLevelsValid(r.value)
  {
    if records == [] then Some([])
    else
      match DecodeEdits(w, comparator, records[..|records| - 1])
      case None => None
      case Some(edits) =>
        match DecodeEdit(w, comparator, records[|records| - 1])
        case None => None
        case Some(e) => Some(edits + [e])
  }

  function Latest(earlier: Option<nat>, later: Option<nat>): Option<nat> {
    if later.Some? then later else earlier
  }

  /** The numbers recorded last. */
  datatype Numbers = Numbers(log: Option<nat>, prevLog: Option<nat>, nextFile: Option<nat>, lastSequence: Option<nat>)

  function LastNumbers(edits: seq<VersionEdit>): Numbers {
    if edits == [] then Numbers(None, None, None, None)
    else
      var n, e := LastNumbers(edits[..|edits| - 1]), edits[|edits| - 1];
      Numbers(Latest(n.log, e.logNumber), Latest(n.prevLog, e.prevLogNumber), Latest(n.nextFile, e.nextFileNumber),
              Latest(n.lastSequence, e.lastSequence))
  }

  function PointersOf(ptrs: map<nat, IKey>, edits: seq<VersionEdit>): map<nat, IKey> {
    if edits == [] then ptrs
    else SetPointers(PointersOf(ptrs, edits[..|edits| - 1]), edits[|edits| - 1].compactPointers)
  }

  /** The version set a list of edits stands for, if it has the required numbers. */
  function StateOf(edits: seq<VersionEdit>): Option<VersionState>
    requires AllLevelsValid(edits)
  {
    var n := LastNumbers(edits);
    if n.nextFile.None? || n.log.None? || n.lastSequence.None? then None
    else
      Some(VersionState(Save(EmptyVersion(), ApplyAll(EmptyState(), edits)), PointersOf(map[], edits), n.nextFile.value,
        n.nextFile.value + 1, n.lastSequence.value, n.log.value, if n.prevLog.Some? then n.prevLog.value else 0))
  }

  /** What a manifest file stands for; a report of dropped bytes or an unusable record makes it unreadable. */
  ghost function StateOfFile(crc: LogWriter.Checksum, w: World, comparator: Bytes, file: Bytes): Option<VersionState> {
    var events := Recovered(crc, true, file);
    var edits := DecodeEdits(w, comparator, Gots(events));
    if Drops(events) != [] || edits.None? then None else StateOf(edits.value)
  }

  lemma {:induction false} DecodeFails(w: World, comparator: Bytes, a: seq<Bytes>, b: seq<Bytes>)
    requires DecodeEdits(w, comparator, a).None?
    ensures DecodeEdits(w, comparator, a + b).None?
    decreases |b|
  {
    if b == [] {
      assert a + b == a;
    } else {
      assert (a + b)[..|a + b| - 1] == a + b[..|b| - 1];
      DecodeFails(w, comparator, a, b[..|b| - 1]);
    }
  }

  // ---------- what the manifest holds is what it recovers to ----------

  /** `record` is what EncodeTo makes of `e`. */
  ghost predicate Encodes(w: World, record: Bytes, e: VersionEdit) {
    && Writable(w, e)
    && exists order :: EncodedAs(record, ToWire(w, e), order)
  }

  ghost predicate EncodedAs(record: Bytes, x: EditCodec.WireEdit, order: seq<(nat, U64)>) {
    EditCodec.Lists(order, x.deletedFiles) && record == EditCodec.EncodeItems(EditCodec.ItemsOf(x, order))
  }

  predicate ComparatorOk(comparator: Bytes, e: VersionEdit) {
    e.comparator.Some? ==> e.comparator.value == comparator
  }

  lemma DecodeEncoded(w: World, comparator: Bytes, record: Bytes, e: VersionEdit)
    requires Encodes(w, record, e) && ComparatorOk(comparator, e)
    ensures DecodeEdit(w, comparator, record) == Some(e)
  {
    var x := ToWire(w, e);
    var order :| EncodedAs(record, x, order);
    WireRoundTrip(w, e);
    EditCodec.EditRoundTrip(x, order);
  }

  ghost predicate AllEncoded(w: World, comparator: Bytes, records: seq<Bytes>, edits: seq<VersionEdit>) {
    && |records| == |edits|
    && forall i :: 0 <= i < |edits| ==> Encodes(w, records[i], edits[i]) && ComparatorOk(comparator, edits[i])
  }

  lemma {:induction false} DecodeAllEncoded(w: World, comparator: Bytes, records: seq<Bytes>, edits: seq<VersionEdit>)
    requires AllEncoded(w, comparator, records, edits)
    ensures DecodeEdits(w, comparator, records) == Some(edits)
    decreases |records|
  {
    hide DecodeEdit, Encodes;
    if records != [] {
      var n := |records| - 1;
      DecodeAllEncoded(w, comparator, records[..n], edits[..n]);
      DecodeEncoded(w, comparator, records[n], edits[n]);
      assert edits == edits[..n] + [edits[n]];
    } else {
      assert edits == [];
    }
  }

  /** The counters a version set must find in its manifest. */
  predicate HasNumbers(n: Numbers) {
    n.nextFile.Some? && n.log.Some? && n.lastSequence.Some?
  }

  /** The manifest recovers to the pointers and numbers its edits led to, or to an error if a counter is missing; and to
      the version they led to, installed one after another, exactly if numbers keep their files. */
  lemma ManifestRecovers(
      crc: LogWriter.Checksum, w: World, comparator: Bytes, records: seq<Bytes>, edits: seq<VersionEdit>)
    requires AllEncoded(w, comparator, records, edits) && AllLevelsValid(edits) && FreshRun(edits)
    ensures var n, s := LastNumbers(edits), StateOfFile(crc, w, comparator, LogFile(crc, records));
      && (s.Some? <==> HasNumbers(n))
      && (s.Some? ==>
        && s == Some(VersionState(s.value.current, PointersOf(map[], edits), n.nextFile.value, n.nextFile.value + 1,
             n.lastSequence.value, n.log.value, if n.prevLog.Some? then n.prevLog.value else 0))
        && (s.value.current == InstallAll(EmptyVersion(), edits) <==>
             forall l: nat :: l < NUM_LEVELS ==> NumbersKeepFiles(edits, l)))
  {
    hide Recovered, DecodeEdits, LogFile, FreshRun, AllEncoded, Save, ApplyAll, NumbersKeepFiles;
    LogRoundTrip(crc, true, records);
    DecodeAllEncoded(w, comparator, records, edits);
    RecoveryExactIff(edits);
  }

  /** A manifest one of whose blocks is refused for its checksum or its length is never recovered from. */
  lemma DamagedManifestFails(crc: LogWriter.Checksum, w: World, comparator: Bytes, records: seq<Bytes>, g: Bytes,
      damaged: set<nat>, k: nat)
    requires Damage(crc, true, LogFile(crc, records), g, damaged) && k in damaged
    requires (k + 1) * LogWriter.BLOCK_SIZE <= |g|
    requires Header(crc, true, g[k * LogWriter.BLOCK_SIZE..(k + 1) * LogWriter.BLOCK_SIZE], false) != Bad(None)
    ensures StateOfFile(crc, w, comparator, g) == None
  {
    hide Recovered, Damage, Header, DecodeEdits;
    DamageIsReported(crc, true, records, g, damaged, k);
  }

  /** One record that cannot be used makes the whole manifest unusable; so does one that names another comparator. */
  lemma UnusableRecordFails(
      crc: LogWriter.Checksum, w: World, comparator: Bytes, records: seq<Bytes>, i: nat, e: VersionEdit)
    requires i < |records|
    requires EditCodec.DecodeItems(records[i]).Corruption? ||
      (Encodes(w, records[i], e) && e.comparator.Some? && e.comparator.value != comparator)
    ensures StateOfFile(crc, w, comparator, LogFile(crc, records)) == None
  {
    hide Recovered, LogFile, EditCodec.DecodeItems, Encodes, FromWire, DecodeEdits, StateOf;
    if !EditCodec.DecodeItems(records[i]).Corruption? {
      OtherComparator(w, comparator, records[i], e);
    }
    LogRoundTrip(crc, true, records);
    LastFails(w, comparator, records[..i], records[i]);
    DecodeFails(w, comparator, records[..i] + [records[i]], records[i + 1..]);
    assert records[..i] + [records[i]] + records[i + 1..] == records;
  }

  lemma LastFails(w: World, comparator: Bytes, before: seq<Bytes>, record: Bytes)
    requires DecodeEdit(w, comparator, record) == None
    ensures DecodeEdits(w, comparator, before + [record]) == None
  {
    hide DecodeEdit;
    assert (before + [record])[..|before|] == before;
  }

  lemma OtherComparator(w: World, comparator: Bytes, record: Bytes, e: VersionEdit)
    requires Encodes(w, record, e) && e.comparator.Some? && e.comparator.value != comparator
    ensures DecodeEdit(w, comparator, record) == None
  {
    var x := ToWire(w, e);
    var order :| EncodedAs(record, x, order);
    WireRoundTrip(w, e);
    EditCodec.EditRoundTrip(x, order);
  }
}
