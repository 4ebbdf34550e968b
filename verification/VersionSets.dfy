/** VersionSet: its fields, its manifest and its recovery. */
module VersionSets {
  // The fields that edits update, the manifest it writes, and what recovery makes of it
  // (db/version_set.cc lines 801-884, 886-974, 1086-1117).

  import opened Basics
  import opened Coding
  import opened DbFormat
  import opened Versions
  import opened Builder
  import opened Install
  import opened Manifest
  import opened ManifestReplay
  import opened ManifestFile
  import EditCodec
  import LogWriter
  import opened LogReader
  import opened LogRecovery

  // ---------- the snapshot record ----------

  /** All files of the levels below `level`, as additions. */
  function FilesBelow(v: Version, level: nat): seq<(nat, File)>
    requires level <= NUM_LEVELS
  {
    if level == 0 then [] else FilesBelow(v, level - 1) + AtLevel(level - 1, v[level - 1])
  }

  function PointersBelow(ptrs: map<nat, IKey>, level: nat): seq<(nat, IKey)> {
    if level == 0 then []
    else PointersBelow(ptrs, level - 1) + (if level - 1 in ptrs then [(level - 1, ptrs[level - 1])] else [])
  }

  lemma {:induction false} FilesBelowMembers(v: Version, level: nat)
    requires level <= NUM_LEVELS
    ensures forall l: nat, f :: (l, f) in FilesBelow(v, level) <==> l < level && f in v[l]
  {
    if level > 0 {
      FilesBelowMembers(v, level - 1);
      forall l: nat, f ensures (l, f) in FilesBelow(v, level) <==> l < level && f in v[l] {
        AtLevelMembers(level - 1, v[level - 1], l, f);
      }
    }
  }

  lemma {:induction false} FilesBelowDistinct(v: Version, level: nat)
    requires level <= NUM_LEVELS && LevelsOrdered(v)
    requires forall l, i, j :: 0 <= l < NUM_LEVELS && 0 <= i < j < |v[l]| ==> v[l][i].number != v[l][j].number
    ensures NewNumbersDistinct(FilesBelow(v, level))
  {
    if level > 0 {
      FilesBelowDistinct(v, level - 1);
      FilesBelowMembers(v, level - 1);
      var a, b := FilesBelow(v, level - 1), AtLevel(level - 1, v[level - 1]);
      assert forall i :: 0 <= i < |a| ==> a[i].0 < level - 1 by {
        forall i | 0 <= i < |a| ensures a[i].0 < level - 1 { assert (a[i].0, a[i].1) in a; }
      }
    }
  }

  lemma NumbersDifferInLevel(v: Version)
    requires DistinctNumbers(v) && LevelsOrdered(v)
    ensures forall l, i, j :: 0 <= l < NUM_LEVELS && 0 <= i < j < |v[l]| ==> v[l][i].number != v[l][j].number
  {
    forall l, i, j | 0 <= l < NUM_LEVELS && 0 <= i < j < |v[l]| ensures v[l][i].number != v[l][j].number {
      assert v[l][i] in v[l] && v[l][j] in v[l];
      assert KeyLess(v[l][i], v[l][j]);
    }
  }

  function SnapshotEdit(v: Version, ptrs: map<nat, IKey>, comparator: Bytes): (e: VersionEdit)
    ensures ValidLevels(e)
  {
    FilesBelowMembers(v, NUM_LEVELS);
    PointersBelowLevels(ptrs, NUM_LEVELS);
    var files := FilesBelow(v, NUM_LEVELS);
    assert forall i :: 0 <= i < |files| ==> (files[i].0, files[i].1) in files;
    EMPTY_EDIT.(comparator := Some(comparator), compactPointers := PointersBelow(ptrs, NUM_LEVELS), newFiles := files)
  }

  lemma {:induction false} PointersBelowLevels(ptrs: map<nat, IKey>, level: nat)
    ensures forall i :: 0 <= i < |PointersBelow(ptrs, level)| ==> PointersBelow(ptrs, level)[i].0 < level
  {
    if level > 0 { PointersBelowLevels(ptrs, level - 1); }
  }

  /** The record a new manifest begins with rebuilds the version it was taken of. */
  lemma SnapshotRebuilds(v: Version, ptrs: map<nat, IKey>, comparator: Bytes)
    requires DistinctNumbers(v) && LevelsOrdered(v)
    ensures Installed(EmptyVersion(), SnapshotEdit(v, ptrs, comparator)) == v
  {
    hide StrictlyOrdered, Installed, DistinctNumbers, FilesBelow, PointersBelow;
    var e, none := SnapshotEdit(v, ptrs, comparator), EmptyVersion();
    EmptyIsOrdered();
    NumbersDifferInLevel(v);
    FilesBelowDistinct(v, NUM_LEVELS);
    FilesBelowMembers(v, NUM_LEVELS);
    InstalledMembers(none, e);
    forall l | 0 <= l < NUM_LEVELS ensures Installed(none, e)[l] == v[l] {
      assert none[l] == [];
      SameMembers(Installed(none, e)[l], v[l]);
    }
  }

  lemma {:induction false} PointersRebuild(ptrs: map<nat, IKey>, level: nat)
    ensures SetPointers(map[], PointersBelow(ptrs, level)) == map l | l in ptrs && l < level :: ptrs[l]
  {
    if level > 0 {
      var last := PointersBelow(ptrs, level);
      PointersRebuild(ptrs, level - 1);
      if level - 1 in ptrs {
        assert last[..|last| - 1] == PointersBelow(ptrs, level - 1);
      } else {
        assert last == PointersBelow(ptrs, level - 1);
      }
    }
  }

  // ---------- the class ----------

  class VersionSet {
    const w: World
    const comparator: Bytes
    var current: Version
    var compactPointers: map<nat, IKey>
    var nextFileNumber: nat
    var lastSequence: nat
    var logNumber: nat
    var prevLogNumber: nat
    var descriptorLog: seq<Bytes>       // the records in the manifest
    ghost var edits: seq<VersionEdit>   // what they encode

    /** The edits in the manifest lead from nothing to the current version and pointers. */
    ghost predicate Described()
      reads this
    {
      && AllLevelsValid(edits) && FreshRun(edits)
      && AllEncoded(w, comparator, descriptorLog, edits)
      && current == InstallAll(EmptyVersion(), edits) && LevelsOrdered(current)
      && compactPointers == PointersOf(map[], edits)
    }

    /** Without a manifest the version may be any; with one it is described, its log numbers are those of the manifest,
        and the counters have only gone up since. */
    ghost predicate Valid()
      reads this
    {
      if edits == [] then
        && descriptorLog == [] && LevelsOrdered(current) && DistinctNumbers(current)
        && forall l :: l in compactPointers ==> l < NUM_LEVELS
      else
        var n := LastNumbers(edits);
        && Described()
        && n.log == Some(logNumber) && n.prevLog == Some(prevLogNumber)
        && n.nextFile.Some? && n.nextFile.value <= nextFileNumber
        && n.lastSequence.Some? && n.lastSequence.value <= lastSequence
    }

    constructor (w: World, comparator: Bytes)
      ensures Valid() && edits == [] && this.w == w && this.comparator == comparator
      ensures current == EmptyVersion() && nextFileNumber == 2 && lastSequence == 0
    {
      this.w, this.comparator := w, comparator;
      current, compactPointers := EmptyVersion(), map[];
      nextFileNumber, lastSequence, logNumber, prevLogNumber := 2, 0, 0, 0;
      descriptorLog, edits := [], [];
      new;
      EmptyIsOrdered();
    }

    /** The version set after recovery, before it has a manifest of its own. */
    constructor Reopened(w: World, comparator: Bytes, s: VersionState)
      requires LevelsOrdered(s.current) && DistinctNumbers(s.current)
      requires forall l :: l in s.compactPointers ==> l < NUM_LEVELS
      ensures Valid() && edits == [] && this.w == w && this.comparator == comparator
      ensures current == s.current && compactPointers == s.compactPointers
      ensures nextFileNumber == s.nextFileNumber && lastSequence == s.lastSequence
      ensures logNumber == s.logNumber && prevLogNumber == s.prevLogNumber
    {
      this.w, this.comparator := w, comparator;
      current, compactPointers := s.current, s.compactPointers;
      nextFileNumber, lastSequence := s.nextFileNumber, s.lastSequence;
      logNumber, prevLogNumber := s.logNumber, s.prevLogNumber;
      descriptorLog, edits := [], [];
    }

    method NewFileNumber() returns (number: nat)
      requires Valid()
      modifies this`nextFileNumber
      ensures Valid() && number == old(nextFileNumber) && nextFileNumber == number + 1
      ensures edits != [] ==> number >= LastNumbers(edits).nextFile.value
    {
      number := nextFileNumber;
      nextFileNumber := nextFileNumber + 1;
    }

    method SetLastSequence(s: nat)
      requires Valid() && s >= lastSequence
      modifies this`lastSequence
      ensures Valid() && lastSequence == s
    {
      lastSequence := s;
    }

    /** The manifest a new store or a recovered one begins: its first record describes the version it starts from. */
    method NewManifest()
      requires Valid() && edits == [] && Writable(w, SnapshotEdit(current, compactPointers, comparator))
      modifies this`descriptorLog, this`edits
      ensures Described() && edits == [SnapshotEdit(current, compactPointers, comparator)]
    {
      hide DistinctNumbers, LevelsOrdered, AllEncoded, FreshRun, Installed, Encodes;
      var edit := WriteSnapshot();
      var record := EncodeRecord(edit);
      SnapshotDescribes(current, compactPointers, comparator);
      OneEncoded(w, comparator, record, edit);
      descriptorLog := [record];
      edits := [edit];
    }

    /** Writes the edit to the manifest, beginning one if there is none, and makes the version it leads to current. The
        record says what the edit says and carries the log numbers and both counters as they then stand. */
    method LogAndApply(edit: VersionEdit)
      requires Valid() && Writable(w, edit) && ComparatorOk(comparator, edit)
      requires NewNumbersDistinct(edit.newFiles) && FreshNumbers(current, edit)
      requires logNumber < TWO64 && prevLogNumber < TWO64 && nextFileNumber < TWO64 && lastSequence < TWO64
      requires edits == [] ==> Writable(w, SnapshotEdit(current, compactPointers, comparator))
      modifies this
      ensures Valid() && old(descriptorLog) <= descriptorLog
      ensures current == Installed(old(current), edit)
      ensures compactPointers == SetPointers(old(compactPointers), edit.compactPointers)
      ensures nextFileNumber == old(nextFileNumber) && lastSequence == old(lastSequence)
      ensures logNumber == if edit.logNumber.Some? then edit.logNumber.value else old(logNumber)
      ensures prevLogNumber == if edit.prevLogNumber.Some? then edit.prevLogNumber.value else old(prevLogNumber)
      ensures LastNumbers(edits) ==
        Numbers(Some(logNumber), Some(prevLogNumber), Some(nextFileNumber), Some(lastSequence))
      ensures exists e ::
        && edits == (if old(edits) == [] then [old(SnapshotEdit(current, compactPointers, comparator))]
                     else old(edits)) + [e]
        && SameChanges(e, edit)
    {
      hide NewNumbersDistinct, FreshNumbers, FreshRun, Installed, ApplyEdit, AllEncoded, Encodes, LevelsOrdered,
        LastNumbers, PointersOf, InstallAll, SetPointers, DistinctNumbers, Writable;
      var e := Complete(edit);
      NumbersDoNotMatter(w, current, edit, e);
      var v, pointers := BuildVersion(e);
      if descriptorLog == [] {
        NoRecordNoEdit(w, comparator, descriptorLog, edits);
        NewManifest();
      }
      LogEdit(e);
      current, compactPointers := v, pointers;
      logNumber, prevLogNumber := e.logNumber.value, e.prevLogNumber.value;
    }

    /** Fills in the log numbers the edit leaves open and both counters. */
    method Complete(edit: VersionEdit) returns (e: VersionEdit)
      ensures SameChanges(e, edit)
      ensures e.logNumber == Some(if edit.logNumber.Some? then edit.logNumber.value else logNumber)
      ensures e.prevLogNumber == Some(if edit.prevLogNumber.Some? then edit.prevLogNumber.value else prevLogNumber)
      ensures e.nextFileNumber == Some(nextFileNumber) && e.lastSequence == Some(lastSequence)
    {
      e := edit;
      if e.logNumber.None? {
        e := e.(logNumber := Some(logNumber));
      }
      if e.prevLogNumber.None? {
        e := e.(prevLogNumber := Some(prevLogNumber));
      }
      e := e.(nextFileNumber := Some(nextFileNumber), lastSequence := Some(lastSequence));
    }

    /** The version and the pointers a builder makes of the current ones and an edit. */
    method BuildVersion(e: VersionEdit) returns (v: Version, pointers: map<nat, IKey>)
      requires LevelsOrdered(current) && ValidLevels(e)
      ensures v == Installed(current, e) && pointers == SetPointers(compactPointers, e.compactPointers)
    {
      hide ApplyEdit;
      var builder := new VersionBuilder(current, compactPointers);
      builder.Apply(e);
      assert forall l :: 0 <= l < NUM_LEVELS ==> StrictlyOrdered(current[l]) by { OrderedLevels(current); }
      v := builder.SaveTo();
      InstalledIs(current, e);
      pointers := builder.compactPointers;
    }

    /** The edit's record joins the manifest. */
    method LogEdit(e: VersionEdit)
      requires Described() && Writable(w, e) && ComparatorOk(comparator, e)
      requires NewNumbersDistinct(e.newFiles) && FreshNumbers(current, e)
      requires e.logNumber.Some? && e.prevLogNumber.Some? && e.nextFileNumber.Some? && e.lastSequence.Some?
      modifies this`descriptorLog, this`edits
      ensures edits == old(edits) + [e] && old(descriptorLog) <= descriptorLog
      ensures AllLevelsValid(edits) && FreshRun(edits) && AllEncoded(w, comparator, descriptorLog, edits)
      ensures InstallAll(EmptyVersion(), edits) == Installed(current, e) && LevelsOrdered(Installed(current, e))
      ensures PointersOf(map[], edits) == SetPointers(compactPointers, e.compactPointers)
      ensures LastNumbers(edits) == Numbers(e.logNumber, e.prevLogNumber, e.nextFileNumber, e.lastSequence)
    {
      hide NewNumbersDistinct, FreshNumbers, FreshRun, Installed, ApplyEdit, AllEncoded, Encodes, LevelsOrdered,
        LastNumbers, PointersOf, InstallAll, SetPointers;
      InstallOrder(edits, e);
      var record := EncodeRecord(e);
      StepFacts(edits, e);
      NumbersStep(edits, e);
      MoreEncoded(w, comparator, descriptorLog, edits, record, e);
      descriptorLog := descriptorLog + [record];
      edits := edits + [e];
    }

    method EncodeRecord(e: VersionEdit) returns (record: Bytes)
      requires Writable(w, e)
      ensures Encodes(w, record, e)
    {
      var x := new EditCodec.VersionEdit.From(ToWire(w, e));
      ghost var order;
      record, order := x.EncodeTo([]);
      assert record == EditCodec.EncodeItems(EditCodec.ItemsOf(ToWire(w, e), order));
      assert EncodedAs(record, ToWire(w, e), order);
    }

    /** The first record of a new manifest. */
    method WriteSnapshot() returns (edit: VersionEdit)
      ensures edit == SnapshotEdit(current, compactPointers, comparator)
    {
      edit := EMPTY_EDIT.(comparator := Some(comparator));
      var ptrs: seq<(nat, IKey)> := [];
      for level := 0 to NUM_LEVELS
        invariant ptrs == PointersBelow(compactPointers, level)
      {
        if level in compactPointers {
          ptrs := ptrs + [(level, compactPointers[level])];
        }
      }
      var files: seq<(nat, File)> := [];
      for level := 0 to NUM_LEVELS
        invariant files == FilesBelow(current, level)
      {
        ghost var before := files;
        for i := 0 to |current[level]|
          invariant files == before + AtLevel(level, current[level])[..i]
        {
          files := files + [(level, current[level][i])];
        }
        assert AtLevel(level, current[level])[..|current[level]|] == AtLevel(level, current[level]);
      }
      edit := edit.(compactPointers := ptrs, newFiles := files);
    }

    /** Whatever was applied, reading the manifest gives back the pointers, the log numbers and the counters recorded
        last, and the current version exactly if numbers kept their files. */
    lemma ManifestIsCurrent(crc: LogWriter.Checksum)
      requires Valid() && edits != []
      ensures var n, s := LastNumbers(edits), StateOfFile(crc, w, comparator, LogFile(crc, descriptorLog));
        && s.Some? && s.value.compactPointers == compactPointers
        && s.value.logNumber == logNumber && s.value.prevLogNumber == prevLogNumber
        && Some(s.value.manifestFileNumber) == n.nextFile && Some(s.value.lastSequence) == n.lastSequence
        && s.value.nextFileNumber == s.value.manifestFileNumber + 1
        && (s.value.current == current <==> forall l: nat :: l < NUM_LEVELS ==> NumbersKeepFiles(edits, l))
    {
      hide FreshRun, AllEncoded, InstallAll, PointersOf, NumbersKeepFiles, LevelsOrdered, DistinctNumbers;
      ManifestRecovers(crc, w, comparator, descriptorLog, edits);
    }

    /** A crash right after LogAndApply loses no number: the store opens again with the same counters. */
    lemma NoNumberIsLost(crc: LogWriter.Checksum)
      requires Valid() && edits != []
      requires LastNumbers(edits).nextFile == Some(nextFileNumber)
      requires LastNumbers(edits).lastSequence == Some(lastSequence)
      ensures var s := StateOfFile(crc, w, comparator, LogFile(crc, descriptorLog));
        && s.Some? && s.value.lastSequence == lastSequence && s.value.nextFileNumber == nextFileNumber + 1
    {
      hide Valid, NumbersKeepFiles;
      ManifestIsCurrent(crc);
    }
  }

  /** Two edits that differ at most in their numbers. */
  predicate SameChanges(a: VersionEdit, b: VersionEdit) {
    && a.comparator == b.comparator && a.compactPointers == b.compactPointers
    && a.deletedFiles == b.deletedFiles && a.newFiles == b.newFiles
  }

  lemma NumbersDoNotMatter(w: World, v: Version, edit: VersionEdit, e: VersionEdit)
    requires Writable(w, edit) && SameChanges(e, edit)
    requires e.logNumber == edit.logNumber || Fits(e.logNumber)
    requires e.prevLogNumber == edit.prevLogNumber || Fits(e.prevLogNumber)
    requires Fits(e.nextFileNumber) && Fits(e.lastSequence)
    ensures Writable(w, e) && Installed(v, e) == Installed(v, edit)
    ensures FreshNumbers(v, e) == FreshNumbers(v, edit)
  {
  }

  lemma NoRecordNoEdit(w: World, comparator: Bytes, records: seq<Bytes>, edits: seq<VersionEdit>)
    requires edits == [] || AllEncoded(w, comparator, records, edits)
    requires records == []
    ensures edits == []
  {
  }

  /** A manifest that begins with a snapshot of a version describes it. */
  lemma SnapshotDescribes(v: Version, ptrs: map<nat, IKey>, comparator: Bytes)
    requires LevelsOrdered(v) && DistinctNumbers(v) && forall l :: l in ptrs ==> l < NUM_LEVELS
    ensures var edits := [SnapshotEdit(v, ptrs, comparator)];
      && FreshRun(edits) && InstallAll(EmptyVersion(), edits) == v && PointersOf(map[], edits) == ptrs
  {
    hide LevelsOrdered, DistinctNumbers, Installed, FilesBelow, PointersBelow;
    var e := SnapshotEdit(v, ptrs, comparator);
    NumbersDifferInLevel(v);
    FilesBelowDistinct(v, NUM_LEVELS);
    SnapshotRebuilds(v, ptrs, comparator);
    PointersRebuild(ptrs, NUM_LEVELS);
    assert [e][..0] == [];
  }

  lemma InstalledIs(v: Version, e: VersionEdit)
    requires ValidLevels(e)
    ensures Installed(v, e) == Save(v, ApplyEdit(EmptyState(), e))
  {
  }

  lemma OneEncoded(w: World, comparator: Bytes, record: Bytes, e: VersionEdit)
    requires Encodes(w, record, e) && ComparatorOk(comparator, e)
    ensures AllEncoded(w, comparator, [record], [e])
  {
    hide Encodes;
  }

  lemma MoreEncoded(
      w: World, comparator: Bytes, records: seq<Bytes>, edits: seq<VersionEdit>, record: Bytes, e: VersionEdit)
    requires AllEncoded(w, comparator, records, edits) && Encodes(w, record, e) && ComparatorOk(comparator, e)
    ensures AllEncoded(w, comparator, records + [record], edits + [e])
  {
    hide Encodes;
  }

  lemma OrderedLevels(v: Version)
    requires LevelsOrdered(v)
    ensures forall l :: 0 <= l < NUM_LEVELS ==> StrictlyOrdered(v[l])
  {
  }

  lemma InstallOrder(edits: seq<VersionEdit>, e: VersionEdit)
    requires AllLevelsValid(edits) && ValidLevels(e) && FreshRun(edits)
    requires NewNumbersDistinct(e.newFiles) && FreshNumbers(InstallAll(EmptyVersion(), edits), e)
    ensures AllLevelsValid(edits + [e]) && FreshRun(edits + [e])
    ensures InstallAll(EmptyVersion(), edits + [e]) == Installed(InstallAll(EmptyVersion(), edits), e)
    ensures LevelsOrdered(InstallAll(EmptyVersion(), edits + [e]))
  {
    hide Installed, NewNumbersDistinct, FreshNumbers, LevelsOrdered;
    assert (edits + [e])[..|edits|] == edits;
    InstalledAreLive(edits + [e], 0);
  }

  // ---------- recovery ----------

  lemma {:induction false} DecodeOneMore(w: World, comparator: Bytes, done: seq<Bytes>, record: Bytes, rest: seq<Bytes>)
    ensures DecodeEdits(w, comparator, done + [record]) ==
      (match DecodeEdits(w, comparator, done)
       case None => None
       case Some(edits) =>
         match DecodeEdit(w, comparator, record)
         case None => None
         case Some(e) => Some(edits + [e]))
    ensures DecodeEdits(w, comparator, done + [record]).None? ==>
      DecodeEdits(w, comparator, done + ([record] + rest)).None?
  {
    assert (done + [record])[..|done|] == done;
    if DecodeEdits(w, comparator, done + [record]).None? {
      DecodeFails(w, comparator, done + [record], rest);
      assert (done + [record]) + rest == done + ([record] + rest);
    }
  }

  /** Decodes one record and applies its edit. */
  method ApplyRecord(builder: VersionBuilder, w: World, comparator: Bytes, record: Bytes, ghost edits: seq<VersionEdit>)
      returns (r: Option<VersionEdit>)
    requires AllLevelsValid(edits) && BuilderAt(builder, edits)
    modifies builder
    ensures r == DecodeEdit(w, comparator, record)
    ensures r.Some? ==> AllLevelsValid(edits + [r.value]) && BuilderAt(builder, edits + [r.value])
  {
    hide ApplyEdit, EditCodec.DecodeItems, EditCodec.AddAll, FromWire, AllLevelsValid, DecodeEdit;
    var edit := new EditCodec.VersionEdit();
    var msg := edit.DecodeFrom(record);
    DecodedEdit(w, comparator, record);
    if msg.Some? || (edit.comparator.Some? && edit.comparator.value != comparator) {
      return None;
    }
    var e := FromWire(w, edit.Abs());
    builder.Apply(e);
    StepFacts(edits, e);
    r := Some(e);
  }

  /** A builder that has been through these edits. */
  ghost predicate BuilderAt(builder: VersionBuilder, edits: seq<VersionEdit>)
    requires AllLevelsValid(edits)
    reads builder
  {
    && builder.base == EmptyVersion()
    && builder.levels == ApplyAll(EmptyState(), edits) && ValidState(builder.levels)
    && builder.compactPointers == PointersOf(map[], edits)
  }

  /** VersionSet::Recover on the bytes of the manifest CURRENT names. */
  method Recover(crc: LogWriter.Checksum, w: World, comparator: Bytes, file: Bytes) returns (r: Option<VersionState>)
    ensures r == StateOfFile(crc, w, comparator, file)
  {
    hide Assemble, Parse, Gots, Drops, DecodeEdits, DecodeEdit, OnlyDrops, BuilderAt, AllLevelsValid, LastNumbers,
      StateOf;
    var reader := new Reader(crc, true, file);
    var builder := new VersionBuilder(EmptyVersion(), map[]);
    var numbers := Numbers(None, None, None, None);
    ghost var all := Recovered(crc, true, file);
    ghost var done, edits: seq<VersionEdit> := [], [];
    NothingDecoded(w, comparator);
    FreshBuilder(builder);
    NoReports();
    var more := true;
    while more
      invariant OnlyDrops(reader.reports) && reader.reports == []
      invariant Gots(all) == done + (if more then Gots(Assemble(reader.Pending(), false, [])) else [])
      invariant Drops(all) == (if more then Drops(Assemble(reader.Pending(), false, [])) else [])
      invariant DecodeEdits(w, comparator, done) == Some(edits)
      invariant BuilderAt(builder, edits) && numbers == LastNumbers(edits)
      decreases more, |reader.Pending()|
    {
      ghost var before := Assemble(reader.Pending(), false, []);
      var ok, record := reader.ReadRecord();
      ghost var after := Assemble(reader.Pending(), false, []);
      ReadOne([], before, reader.reports, ok, record, after);
      assert [] + Drops(before) == Drops(before);
      if reader.reports != [] {
        return None;
      }
      if ok {
        Associate(done, [record], Gots(after));
        DecodeOneMore(w, comparator, done, record, Gots(after));
        var e := ApplyRecord(builder, w, comparator, record, edits);
        if e.None? {
          return None;
        }
        NumbersStep(edits, e.value);
        numbers := Numbers(Latest(numbers.log, e.value.logNumber), Latest(numbers.prevLog, e.value.prevLogNumber),
          Latest(numbers.nextFile, e.value.nextFileNumber), Latest(numbers.lastSequence, e.value.lastSequence));
        edits := edits + [e.value];
        done := done + [record];
      } else {
        more := false;
      }
    }
    assert done + [] == done;
    r := Finish(builder, numbers, edits);
  }

  /** The checks and assignments after the last record. */
  method Finish(builder: VersionBuilder, numbers: Numbers, ghost edits: seq<VersionEdit>)
      returns (r: Option<VersionState>)
    requires AllLevelsValid(edits) && BuilderAt(builder, edits) && numbers == LastNumbers(edits)
    ensures r == StateOf(edits)
  {
    if numbers.nextFile.None? || numbers.log.None? || numbers.lastSequence.None? {
      return None;
    }
    EmptyVersionLevels();
    var v := builder.SaveTo();
    r := Some(VersionState(v, builder.compactPointers, numbers.nextFile.value, numbers.nextFile.value + 1,
      numbers.lastSequence.value, numbers.log.value, if numbers.prevLog.Some? then numbers.prevLog.value else 0));
  }

  lemma FreshBuilder(builder: VersionBuilder)
    requires builder.base == EmptyVersion() && builder.levels == EmptyState() && builder.compactPointers == map[]
    ensures AllLevelsValid([]) && BuilderAt(builder, []) && LastNumbers([]) == Numbers(None, None, None, None)
  {
  }

  lemma NumbersStep(edits: seq<VersionEdit>, e: VersionEdit)
    ensures var n := LastNumbers(edits);
      LastNumbers(edits + [e]) == Numbers(Latest(n.log, e.logNumber), Latest(n.prevLog, e.prevLogNumber),
        Latest(n.nextFile, e.nextFileNumber), Latest(n.lastSequence, e.lastSequence))
  {
    assert (edits + [e])[..|edits|] == edits;
  }

  lemma NothingDecoded(w: World, comparator: Bytes)
    ensures DecodeEdits(w, comparator, []) == Some([])
  {
  }

  lemma NoReports()
    ensures OnlyDrops([])
  {
  }

  lemma EmptyVersionLevels()
    ensures forall l :: 0 <= l < NUM_LEVELS ==> StrictlyOrdered(EmptyVersion()[l])
  {
  }

  lemma DecodedEdit(w: World, comparator: Bytes, record: Bytes)
    ensures match EditCodec.DecodeItems(record)
      case Corruption(_) => DecodeEdit(w, comparator, record) == None
      case Items(items) =>
        var x := EditCodec.AddAll(EditCodec.CLEAR, items);
        && ValidLevels(FromWire(w, x))
        && DecodeEdit(w, comparator, record) ==
             if x.comparator.Some? && x.comparator.value != comparator then None else Some(FromWire(w, x))
  {
    match EditCodec.DecodeItems(record)
    case Corruption(_) =>
    case Items(items) => EditCodec.AddAllValid(EditCodec.CLEAR, items);
  }

  lemma StepFacts(edits: seq<VersionEdit>, e: VersionEdit)
    requires AllLevelsValid(edits) && ValidLevels(e)
    ensures AllLevelsValid(edits + [e])
    ensures ApplyAll(EmptyState(), edits + [e]) == ApplyEdit(ApplyAll(EmptyState(), edits), e)
    ensures PointersOf(map[], edits + [e]) == SetPointers(PointersOf(map[], edits), e.compactPointers)
  {
    assert (edits + [e])[..|edits|] == edits;
  }
}
