# LevelDB and nanopb, verified

The repository is a Flutter shell; the code in it that can go wrong in interesting ways is two vendored libraries. This
project models them in Dafny and proves what they promise.

**LevelDB** (`ios/Pods/leveldb-library`) is a log-structured merge tree. Writes are appended to a log and enter a
memtable; full memtables become table files; tables are merged down seven levels, and every such rearrangement has to
leave what each snapshot reads unchanged. `DbFormat.ReadAt` fixes that meaning once: the value of a key at snapshot `s`
is that of its newest entry numbered at most `s`, a tombstone being absence. Everything is measured against it.

**nanopb** (`ios/Pods/nanopb`) encodes and decodes Protocol Buffers messages by walking a descriptor. The wire format
is that of the Protocol Buffers Encoding specification, sections "Base 128 Varints", "Length-Delimited Records" and
"Packed Repeated Fields".

## How the files fit together

| files | what they hold |
|---|---|
| `Basics`, `Coding` | bytes, options; fixed and variable-length integers, masked checksums |
| `DbFormat`, `Versions` | internal keys, the meaning of a set of entries; files, levels and the invariants of a version |
| `ReadPath`, `MemTable` | point lookups through memtables and levels; the memtable as encoded entries in a skip list |
| `Picking`, `Setup` | choosing compaction inputs and closing them under overlap and boundary files |
| `DropRules`, `CompactionLoop`, `OutputCuts`, `Outputs` | which entries a merge may drop; the merge loop; where its outputs are cut, and that there is no other way; output files |
| `Builder`, `Install`, `Steps` | installing an edit; a flush, move or compaction keeps the invariants and the reads |
| `NextPiece`, `SplitKey` | exactly when readers notice a compaction; the version for which the theorem fails without its hypothesis |
| `Grandparents` | the overlap bound of outputs over the level two below |
| `Database`, `DbImpl` | the store as a state machine, and the class whose methods take its steps |
| `DbIterator` | the bidirectional iterator against a cursor over a sorted view |
| `LogWriter`, `LogReader`, `LogRecovery` | log framing, reassembly, resynchronisation |
| `Durability`, `CrashSafety`, `CrashBytes` | logs, tables, manifest and background jobs under crashes; the newest log cut at any byte |
| `EditCodec`, `Manifest`, `ManifestReplay`, `ManifestFile`, `VersionSets` | version edits as bytes, replaying them, recovering from them |
| `StoreEdits` | the edits of every run replay exactly |
| `BlockBuilder`, `BlockIterator`, `FilterBlock` | prefix-compressed blocks with restart points; filter blocks |
| `SkipList`, `SkipListReaders` | the skip list, alone and with readers between the stores of an insertion |
| `WriteBatch`, `GroupCommit`, `SnapshotList` | batches as bytes, the queue of writers, the ring of snapshots |
| `PbFields`, `PbLayout`, `PbWire` | descriptors and the circular iterator; the structs behind them; wire-level codecs |
| `PbEncode`, `PbStream`, `PbEncoder` | what is encoded; the output stream; the two-pass encoder |
| `PbDecode`, `PbDecoder` | what is decoded; the input stream and the decoder |
| `PbRoundTrip`, `PbSettled`, `PbFidelity` | the message round trip, when it is exact, and what it keeps in any case |
| `PbConcat`, `PbMerge`, `PbReads` | messages in parts, fields that come twice, bytes of any origin |
| `Formats` | a record of every format, byte by byte |

Where the source updates state the model does: the version builder, the compaction, the iterator, log writer and
reader, block builder and iterator, filter builder, skip list, batches, edits, snapshot ring, streams and field iterator
are classes, and their methods are proved against functions whose properties the lemmas then establish.

## Findings

* The compaction theorem needs a hypothesis the code does not establish. `SetupOtherInputs` closes the inputs of a level
  under boundary files but takes those of the next level by overlap alone, and the tombstone rule only looks at levels
  from `level + 2` on. If a user key is split between an input and a non-input file of the next level, a tombstone can
  be dropped while an older entry stays. `NextPiece.NoticedIff` says exactly when readers notice, by the one file the key
  goes on in; `Steps.ExposedNeedsSplit` that such a split is the only way; and `SplitKey.SplitKeyResurrectsDeleted` gives
  a version, the table written and the version installed, with a deleted key that reads as present afterwards.
  `NoSplitKey` is therefore a `requires` of `Steps.CompactionPreservesReads` and part of the compaction step.
* Replaying a manifest through one builder is not always exact. `ManifestReplay.ReplayExactIff` has the condition, readable
  off the edits: every file live in the end came first under its number at its level, and whatever else was added there
  under that number starts at the same key. Giving a number back to the very same file is harmless, giving it to one that
  starts elsewhere brings the deleted file back (`ManifestReplay.ReaddedNumberRevivesFile`). The store's own edits always
  meet the condition (`StoreEdits.EveryRunReplays`).
* `VersionEdit::Clear` (`ios/Pods/leveldb-library/db/version_edit.cc:26-39`) leaves the compaction pointers in place;
  the class keeps that.
* nanopb encodes a string that fills its member without a terminator and cannot decode it again:
  `PbSettled.RoundTrip` has the exact condition, `PbSettled.UnterminatedStringFails` an instance.
* The continuing members of a union keep the size address of the first one walked
  (`ios/Pods/nanopb/pb_common.c:44-50`); `PbFields.SizeAt` follows the code.

## Model

| member | source | states |
|---|---|---|
| `DbFormat.SeekFindsNewest` | ios/Pods/leveldb-library/db/dbformat.cc:51-67 | a seek to (key, snapshot, seek kind) in a sorted run lands on the newest visible entry of the key, or shows that there is none |
| `ReadPath.FindFile` | ios/Pods/leveldb-library/db/version_set.cc:88-106 | binary search returns the first file whose largest key is at or after the key |
| `ReadPath.RunGetIsNewest` | ios/Pods/leveldb-library/db/version_set.cc:263-276 | a lookup in one sorted run finds the newest visible entry of the key and nothing else |
| `ReadPath.GetLevel0` | ios/Pods/leveldb-library/db/version_set.cc:282-310 | level 0 searched newest file first up to the first hit gives the newest visible entry of the level |
| `ReadPath.GetSortedLevel` | ios/Pods/leveldb-library/db/version_set.cc:312-323 | on a deeper level the one file found by binary search decides, even when the versions of a key straddle two files |
| `ReadPath.FirstHitIsNewest` | ios/Pods/leveldb-library/db/version_set.cc:326-421 | the first level with a visible entry holds the newest one of the whole version |
| `ReadPath.VersionGet` | ios/Pods/leveldb-library/db/version_set.cc:326-421 | Version::Get equals the plain reading of the set of all entries of the version at the snapshot |
| `ReadPath.Layering` | ios/Pods/leveldb-library/db/db_impl.cc:1112-1134 | a layer that is newer throughout hides the one below exactly for the keys where it has something visible |
| `ReadPath.Get` | ios/Pods/leveldb-library/db/db_impl.cc:1100-1145 | memtable, immutable memtable and levels, stopping at the first hit, give the newest entry with sequence number at most the snapshot over all entries anywhere |
| `MemTables.ParseInternalKey` | ios/Pods/leveldb-library/db/dbformat.cc:121-138 | an encoded internal key or lookup key reads back as its user key and tag, whatever follows it |
| `MemTables.EncodedOrder` | ios/Pods/leveldb-library/db/memtable.cc:28-34 | the comparator on encoded entries orders them as their internal keys: user key up, sequence number and kind down |
| `MemTables.MemTable.Add` | ios/Pods/leveldb-library/db/memtable.cc:75-98 | the table holds the old entries and the new one; its skip list stays valid |
| `MemTables.MemTable.Get` | ios/Pods/leveldb-library/db/memtable.cc:100-134 | decides exactly when some entry of the key is visible, and then with the newest one, a deletion reading as absent |
| `DropRules.NothingKeptBelow` | ios/Pods/leveldb-library/db/db_impl.cc:940-953 | below a dropped tombstone nothing of the merged input for that key survives |
| `DropRules.ReadsPreservedIff` | ios/Pods/leveldb-library/db/db_impl.cc:933-953 | the two drop rules change no read at or after the oldest snapshot if and only if no dropped tombstone hides an older entry outside the input |
| `CompactionLoop.Compaction.IsBaseLevelForKey` | ios/Pods/leveldb-library/db/version_set.cc:1533-1552 | with cursors that only move forward the answer, for nondecreasing keys, is that of the stateless test over all levels from level + 2 on; the cursors stay behind later keys |
| `CompactionLoop.Compaction.ShouldStopBefore` | ios/Pods/leveldb-library/db/version_set.cc:1554-1576 | the scan keeps the invariant that bounds the grandparent bytes the open output overlaps |
| `CompactionLoop.BoundHolds` | ios/Pods/leveldb-library/db/version_set.cc:1554-1576 | the bytes of the grandparents passed bound the overlap of an output: at most the limit plus one further file |
| `CompactionLoop.CompactionState.StopBefore` | ios/Pods/leveldb-library/db/db_impl.cc:920-926 | closes the open output exactly when the grandparents passed since the last stop are more than the limit; only outputs within the overlap bound remain |
| `CompactionLoop.CompactionState.AddEntry` | ios/Pods/leveldb-library/db/db_impl.cc:965-994 | appends the entry to the open output or opens one, and closes it exactly when it has reached the maximal size; every closed output keeps the bound |
| `CompactionLoop.PredecessorDecides` | ios/Pods/leveldb-library/db/db_impl.cc:933-944 | the sequence number remembered from the previous entry of the key decides whether an entry is hidden |
| `CompactionLoop.ShouldDrop` | ios/Pods/leveldb-library/db/db_impl.cc:928-963 | the decision for one entry is membership in the kept set defined without the loop state |
| `CompactionLoop.DoCompactionWork` | ios/Pods/leveldb-library/db/db_impl.cc:890-1000 | the outputs, in order, are exactly the kept entries of the merged input, each within the grandparent bound; between two kept entries a run ends exactly when it is big enough or a stop falls between them, a stop being where the grandparents passed since the one before first exceed the limit |
| `OutputCuts.StopsAreDetermined` | ios/Pods/leveldb-library/db/version_set.cc:1554-1576 | the places where too many grandparent bytes have been passed follow from the merged keys alone |
| `OutputCuts.CutsAreDetermined` | ios/Pods/leveldb-library/db/db_impl.cc:920-994 | two ways of cutting the same kept entries that both obey the rule are the same |
| `Picking.SomeFileOverlapsRange` | ios/Pods/leveldb-library/db/version_set.cc:122-161 | true exactly when some file of the level overlaps the user-key range, by scan or by binary search |
| `Picking.PickLevelForMemTableOutput` | ios/Pods/leveldb-library/db/version_set.cc:491-516 | level 0 if level 0 overlaps the table; else the level, at most 2, down to which nothing overlaps it and the files two levels down are few enough at every step, where the next step is stopped by level 2, by an overlapping file, or by too many bytes |
| `Picking.GetOverlappingInputs` | ios/Pods/leveldb-library/db/version_set.cc:519-559 | terminates; off level 0 the inputs are exactly the files overlapping the range, at level 0 the least set closed under user-key overlap that covers it |
| `Picking.OverlapClosureIsLeast` | ios/Pods/leveldb-library/db/version_set.cc:519-559 | a range that every chosen file lies within, and whose every growth was forced, selects the least closed set |
| `Picking.GetRange` | ios/Pods/leveldb-library/db/version_set.cc:1205-1224 | smallest and largest bound all inputs and are attained |
| `Picking.FindSmallestBoundaryFile` | ios/Pods/leveldb-library/db/version_set.cc:1344-1362 | the file that starts next after the key at the same user key, if any |
| `Picking.AddBoundaryInputs` | ios/Pods/leveldb-library/db/version_set.cc:1378-1401 | terminates; adds nothing but, one after the other, the file that continues the largest key so far and starts first, until there is none, leaving no gap and no duplicates |
| `Setup.SetupOtherInputs` | ios/Pods/leveldb-library/db/version_set.cc:1403-1462 | which inputs exactly: the seeds with their boundary files and the next-level files overlapping their hull, or the wider set of both exactly when it has more files, stays below the byte limit and takes as many next-level files; the grandparents are exactly the files two levels down overlapping the hull of all inputs |
| `Setup.PickCompaction` | ios/Pods/leveldb-library/db/version_set.cc:1270-1322 | the inputs set up for the seek file, or for the first file past the compact pointer, or the first of all if there is none; at level 0 for the least set closed under overlap around it |
| `Setup.CompactRange` | ios/Pods/leveldb-library/db/version_set.cc:1464-1499 | nothing exactly when nothing of the level overlaps the range, else the inputs set up for all overlapping files at level 0, deeper down for the shortest prefix of them that reaches the byte limit |
| `Grandparents.BoundReachesLevel` | ios/Pods/leveldb-library/db/version_set.cc:1455-1462 | the bound the merge loop keeps over the listed grandparents holds over the whole level two below |
| `Outputs.MakeInputIterator` | ios/Pods/leveldb-library/db/version_set.cc:1237-1268 | the inputs of both levels as one sorted run of the same entries |
| `Outputs.RunsAreFiles` | ios/Pods/leveldb-library/db/db_impl.cc:811-858 | output runs of a sorted whole are valid, disjoint files holding exactly its entries |
| `Steps.ReplaceKeepsInv` | ios/Pods/leveldb-library/db/db_impl.cc:860-876 | replacing closed inputs by files made of their entries keeps levels sorted and disjoint, shallower data newer, file numbers distinct |
| `Steps.CompactionReadsIff` | ios/Pods/leveldb-library/db/db_impl.cc:890-963 | a compaction is invisible at every snapshot from the oldest on if and only if it drops no tombstone that hides data it leaves alone |
| `Steps.ExposedNeedsSplit` | ios/Pods/leveldb-library/db/version_set.cc:1403-1422 | the only way to drop such a tombstone is a user key split between an input and a non-input file of the next level |
| `Steps.CompactionPreservesReads` | ios/Pods/leveldb-library/db/db_impl.cc:890-963 | without such a split key every read at or after the oldest snapshot is the same before and after |
| `NextPiece.NoticedIff` | ios/Pods/leveldb-library/db/version_set.cc:1403-1422 | readers notice a compaction if and only if it drops a tombstone they all see whose key goes on in a next-level file left alone, the first such file starting with a value |
| `SplitKey.SplitKeyResurrectsDeleted` | ios/Pods/leveldb-library/db/version_set.cc:1403-1422 | a concrete version that satisfies every invariant, legal inputs, the table the merge writes and the version it installs: a deleted key reads as present afterwards |
| `Install.InstalledMembers` | ios/Pods/leveldb-library/db/version_set.cc:650-754 | an edit with fresh numbers removes exactly its deletions, adds exactly its new files and keeps the order of levels |
| `Install.CompactionInstalled` | ios/Pods/leveldb-library/db/db_impl.cc:860-876 | the edit of a compaction replaces the inputs by the outputs |
| `Install.FlushKeepsInv` | ios/Pods/leveldb-library/db/db_impl.cc:491-533 | installing a flushed memtable at the chosen level keeps every invariant and adds exactly its entries |
| `Builder.VersionBuilder.Apply` | ios/Pods/leveldb-library/db/version_set.cc:650-692 | deletions are recorded before additions and an addition clears a recorded deletion of its number |
| `Builder.VersionBuilder.SaveTo` | ios/Pods/leveldb-library/db/version_set.cc:695-739 | merging the sorted added files into the base and dropping deleted ones gives the saved version |
| `Builder.MergeMembers` | ios/Pods/leveldb-library/db/version_set.cc:695-739 | the merge holds the base files and the added ones, no others |
| `Database.AddOpReads` | ios/Pods/leveldb-library/db/db_impl.cc:1212-1226 | a logged operation extends what reads and the history agree on |
| `Database.FlushOk` | ios/Pods/leveldb-library/db/db_impl.cc:535-566 | a flush keeps the store correct |
| `Database.CompactOk` | ios/Pods/leveldb-library/db/db_impl.cc:718-766 | a compaction keeps the store correct, also with an older value of the oldest snapshot |
| `Database.MoveOk` | ios/Pods/leveldb-library/db/db_impl.cc:718-733 | a trivial move keeps the store correct |
| `Database.EveryRunReadsHistory` | ios/Pods/leveldb-library/db/db_impl.cc:1100-1145 | in every reachable state every read at the latest number or at a live snapshot is the last write of the history up to it, and every version satisfies its invariants |
| `Database.SnapshotReadsNeverChange` | ios/Pods/leveldb-library/db/snapshot.h:46-86 | what a held snapshot reads never changes, whatever is written, flushed, moved or compacted meanwhile |
| `DbImpl.DBImpl.Get` | ios/Pods/leveldb-library/db/db_impl.cc:1100-1145 | returns what the history of writes says at the snapshot or at the latest number |
| `DbImpl.DBImpl.NewIterator` | ios/Pods/leveldb-library/db/db_impl.cc:1147-1157 | an iterator whose view is the sorted map the history spells at its sequence number |
| `DbImpl.DBImpl.NewInternalIterator` | ios/Pods/leveldb-library/db/db_impl.cc:1060-1087 | memtables and tables merged into one sorted run of all entries |
| `DbImpl.DBImpl.Write` | ios/Pods/leveldb-library/db/db_impl.cc:1205-1237 | the numbers of the batch are used up whether or not it was logged; if it was, its operations join the history |
| `DbImpl.DBImpl.SwitchToNewMemtable` | ios/Pods/leveldb-library/db/db_impl.cc:1341-1366 | the full memtable becomes immutable and a new one takes its place |
| `DbImpl.DBImpl.CompactMemTable` | ios/Pods/leveldb-library/db/db_impl.cc:535-566 | is a flush step of the state machine, and the level it goes to is exactly the one the rule for flushed tables gives for its key range |
| `DbImpl.DBImpl.BackgroundCompaction` | ios/Pods/leveldb-library/db/db_impl.cc:688-766 | a trivial move exactly when one file has nothing to merge with and few grandparent bytes and the compaction is not manual, else the compaction step with the oldest snapshot, its outputs within the grandparent bound and cut where the limits demand it; the history and snapshots stay |
| `DbImpl.DBImpl.CompactFiles` | ios/Pods/leveldb-library/db/db_impl.cc:878-1048 | merging, dropping, writing and installing together are one compaction step, the outputs cut where the limits demand it |
| `DbImpl.DBImpl.RunCompaction` | ios/Pods/leveldb-library/db/db_impl.cc:878-1028 | outputs hold exactly the kept entries of the inputs under fresh consecutive numbers and their own sizes; each overlaps at most the limit and one more file two levels down, and ends exactly where the cutting rule says |
| `DbImpl.DBImpl.MergeAndDrop` | ios/Pods/leveldb-library/db/db_impl.cc:890-1000 | the kept entries of the merged input in runs, with the stops that cut them |
| `DbImpl.DBImpl.GetSnapshot` | ios/Pods/leveldb-library/db/db_impl.cc:1166-1169 | takes a snapshot at the latest number |
| `DbImpl.DBImpl.ReleaseSnapshot` | ios/Pods/leveldb-library/db/db_impl.cc:1171-1174 | lets one snapshot go, the others keep their order |
| `DbIterator.ViewIsSnapshot` | ios/Pods/leveldb-library/db/db_iter.cc:168-198 | the cursor's view lists exactly the keys the snapshot reads as present, increasing, with their values |
| `DbIterator.DBIter.Next` | ios/Pods/leveldb-library/db/db_iter.cc:141-166 | moves the cursor one key on, also right after a Prev |
| `DbIterator.DBIter.FindNextUserEntry` | ios/Pods/leveldb-library/db/db_iter.cc:168-198 | stops at the next live entry at or after the position, skipping hidden, deleted and invisible ones |
| `DbIterator.DBIter.Prev` | ios/Pods/leveldb-library/db/db_iter.cc:200-225 | moves the cursor one key back, also right after a Next |
| `DbIterator.DBIter.FindPrevUserEntry` | ios/Pods/leveldb-library/db/db_iter.cc:227-267 | scans back to the settled newest entry of the previous live key and saves it |
| `DbIterator.DBIter.Seek` | ios/Pods/leveldb-library/db/db_iter.cc:269-281 | places the cursor at the first live key at or after the target |
| `DbIterator.DBIter.SeekToFirst` | ios/Pods/leveldb-library/db/db_iter.cc:283-292 | places the cursor at the first live key |
| `DbIterator.DBIter.SeekToLast` | ios/Pods/leveldb-library/db/db_iter.cc:294-299 | places the cursor at the last live key |
| `DbIterator.DBIter.KeyValue` | ios/Pods/leveldb-library/db/db_iter.cc:64-71 | whenever the iterator is valid it shows the key and value under the cursor, in both directions |
| `LogWriter.Writer.AddRecord` | ios/Pods/leveldb-library/db/log_writer.cc:34-80 | appends exactly the fragments of the record, never leaving fewer than a header's bytes in a block |
| `LogWriter.Writer.EmitPhysicalRecord` | ios/Pods/leveldb-library/db/log_writer.cc:82-108 | appends header and payload of one fragment |
| `LogWriter.FullBlock` | ios/Pods/leveldb-library/db/log_writer.cc:55-76 | a fragment that does not end its record fills its block |
| `LogReader.Reader.ReadPhysicalRecord` | ios/Pods/leveldb-library/db/log_reader.cc:189-271 | the next fragment, the end of the file or a report, as the parse of the remaining bytes says |
| `LogReader.Reader.ReadRecord` | ios/Pods/leveldb-library/db/log_reader.cc:56-173 | the next record and the reports before it, as the reassembly of the fragments says |
| `LogReader.Reader.ReadAll` | ios/Pods/leveldb-library/db/db_impl.cc:424-461 | the loop of a recovery returns all records the file still holds |
| `LogRecovery.LogFileGrows` | ios/Pods/leveldb-library/db/log_writer.cc:34-80 | adding a record turns the file of some records into the file of one more |
| `LogRecovery.ParseChain` | ios/Pods/leveldb-library/db/log_reader.cc:189-271 | parsing a damaged file yields what is left of the fragments written to it, block by block |
| `LogRecovery.DamagedLogReads` | ios/Pods/leveldb-library/db/log_reader.cc:56-173 | after cutting the file and replacing whole blocks by refused ones, the reader returns exactly the records all of whose fragments are intact; without replaced blocks nothing is reported |
| `LogRecovery.TruncatedLogReads` | ios/Pods/leveldb-library/db/log_reader.cc:189-230 | cutting at any byte gives the records written completely before the cut, and no report |
| `LogRecovery.LogRoundTrip` | ios/Pods/leveldb-library/db/log_reader.cc:56-173 | the reader returns exactly the records written, for any checksum function, and reports nothing |
| `LogRecovery.BytesConserved` | ios/Pods/leveldb-library/db/log_reader.cc:56-173 | no byte of a fragment vanishes: it is returned in a record, reported, or part of a record the end of the file cuts off |
| `LogRecovery.DamageIsReported` | ios/Pods/leveldb-library/db/log_reader.cc:216-262 | a block of the written file that is refused for its checksum or length is reported with all its bytes |
| `Durability.RebuildOk` | ios/Pods/leveldb-library/db/db_impl.cc:371-489 | replaying records that spell a part of the history, with any dumps to level 0, rebuilds that part and every invariant |
| `Durability.ReplayHistory` | ios/Pods/leveldb-library/db/db_impl.cc:424-461 | replaying logs that spell the history from some number gives back the history |
| `CrashSafety.LogWriteOk` | ios/Pods/leveldb-library/db/db_impl.cc:1200-1237 | a batch logged and applied keeps the store recoverable |
| `CrashSafety.SwitchLogOk` | ios/Pods/leveldb-library/db/db_impl.cc:1341-1366 | switching memtable and log keeps the store recoverable |
| `CrashSafety.PersistOk` | ios/Pods/leveldb-library/db/version_set.cc:801-884 | persisting the edit of a finished job moves the manifest to tables and logs that recover the same history |
| `CrashSafety.InstallOk` | ios/Pods/leveldb-library/db/db_impl.cc:535-566 | installing the result after persisting keeps the store recoverable |
| `CrashSafety.DeletionKeepsWhatRecoveryNeeds` | ios/Pods/leveldb-library/db/db_impl.cc:223-278 | no table of the persisted version and no log to be replayed is deleted |
| `CrashSafety.ManifestTables` | ios/Pods/leveldb-library/db/version_set.cc:801-884 | the tables of the persisted version exist and read the history up to the number the manifest stands for |
| `CrashSafety.CrashLosesOnlyTheTail` | ios/Pods/leveldb-library/db/db_impl.cc:323-366 | after a crash that cuts the newest log, the recovered store holds a prefix of the history containing every completely appended record |
| `CrashSafety.RecoveryAlwaysSucceeds` | ios/Pods/leveldb-library/db/db_impl.cc:280-369 | from every reachable state, after any such crash, recovery finds its tables and completes |
| `CrashSafety.DurNextOk` | ios/Pods/leveldb-library/db/db_impl.cc:535-566 | each step of writers, background job, deletion, crash and recovery keeps the store recoverable |
| `CrashBytes.CutLogReads` | ios/Pods/leveldb-library/db/db_impl.cc:424-461 | the log of any records, cut at any byte, is read and decoded as its records before the cut, without a report |
| `CrashBytes.EveryCrashRecovers` | ios/Pods/leveldb-library/db/db_impl.cc:280-369 | in every reachable state, for every byte the newest log is cut at: the records before the cut are read back, recovery from them completes, and however it completes the store reads the history up to the last of them |
| `CrashSafety.EveryRunIsDurable` | ios/Pods/leveldb-library/db/db_impl.cc:280-369 | in every reachable state, crashes included, persisted tables and logs to replay together spell the history |
| `EditCodec.ItemsRoundTrip` | ios/Pods/leveldb-library/db/version_edit.cc:107-205 | a sequence of tagged items decodes to itself |
| `EditCodec.EditRoundTrip` | ios/Pods/leveldb-library/db/version_edit.cc:41-85 | what EncodeTo writes DecodeFrom reads back as the same edit |
| `EditCodec.VersionEdit.Clear` | ios/Pods/leveldb-library/db/version_edit.cc:26-39 | clears everything but the compaction pointers |
| `EditCodec.VersionEdit.EncodeTo` | ios/Pods/leveldb-library/db/version_edit.cc:41-85 | appends the items of the edit in the fixed order |
| `EditCodec.VersionEdit.DecodeFrom` | ios/Pods/leveldb-library/db/version_edit.cc:107-205 | on any bytes: all items stored, or the first thing that is wrong with them |
| `Manifest.SameMembers` | ios/Pods/leveldb-library/db/version_set.cc:587-592 | a sorted level is determined by which files it holds |
| `Manifest.ManifestReplayExact` | ios/Pods/leveldb-library/db/version_set.cc:886-1000 | applying all edits to one builder and saving once gives the same files in the same order as installing them one by one, if no number returns to a level |
| `ManifestReplay.ReplayedMembers` | ios/Pods/leveldb-library/db/version_set.cc:650-692 | what one builder saves over the empty version: of each number live in the end, the first file of every smallest key it was added with |
| `ManifestReplay.InstalledAreLive` | ios/Pods/leveldb-library/db/version_set.cc:801-884 | what installing one by one gives: the files added and not deleted since, at most one of each number |
| `ManifestReplay.ReplayExactIff` | ios/Pods/leveldb-library/db/version_set.cc:886-1000 | the two agree at a level if and only if every file live in the end came first under its number and whatever else was added under it starts at the same key |
| `ManifestReplay.ReaddedNumberRevivesFile` | ios/Pods/leveldb-library/db/version_set.cc:671-692 | from the empty version: a file is added, deleted, and its number given to a file that starts elsewhere; replay brings the first one back |
| `StoreEdits.EveryRunReplays` | ios/Pods/leveldb-library/db/db_impl.cc:491-533 | along every run of flushes, moves and compactions, with reserved numbers used at any later time, no level gets a number back, and replaying the edits gives the current version |
| `ManifestFile.WireRoundTrip` | ios/Pods/leveldb-library/db/version_edit.cc:41-85 | an edit survives the translation to encoded keys and back |
| `ManifestFile.ManifestRecovers` | ios/Pods/leveldb-library/db/version_set.cc:886-1000 | a manifest file recovers to the pointers and counters its edits led to, or to an error exactly if a counter is missing, and to the version they led to exactly if numbers kept their files |
| `ManifestFile.DamagedManifestFails` | ios/Pods/leveldb-library/db/version_set.cc:920-990 | a manifest with a block refused for its checksum or length is never recovered from |
| `ManifestFile.UnusableRecordFails` | ios/Pods/leveldb-library/db/version_set.cc:925-940 | nor is one with a record that cannot be decoded or names another comparator |
| `VersionSets.SnapshotRebuilds` | ios/Pods/leveldb-library/db/version_set.cc:1088-1116 | the record a new manifest begins with rebuilds the version it was taken of |
| `VersionSets.PointersRebuild` | ios/Pods/leveldb-library/db/version_set.cc:1093-1100 | and its compaction pointers |
| `VersionSets.VersionSet.LogAndApply` | ios/Pods/leveldb-library/db/version_set.cc:801-884 | for any edit with numbers new to its levels the current version becomes the old one with the edit installed; the manifest, begun with a snapshot if there was none, grows by a record of the same changes, and the numbers recorded last are the log numbers, the next file number and the last sequence number as they stand |
| `VersionSets.VersionSet.NewManifest` | ios/Pods/leveldb-library/db/version_set.cc:823-842 | the first record of a new manifest describes the version and pointers it starts from |
| `VersionSets.VersionSet.WriteSnapshot` | ios/Pods/leveldb-library/db/version_set.cc:1088-1116 | writes the snapshot edit of the current version |
| `VersionSets.VersionSet.ManifestIsCurrent` | ios/Pods/leveldb-library/db/version_set.cc:801-884 | whatever edits were applied, reading the manifest gives back pointers, log numbers and the counters recorded last, and the current version exactly if numbers kept their files |
| `VersionSets.VersionSet.NoNumberIsLost` | ios/Pods/leveldb-library/db/version_set.cc:813-814 | a store that stops right after LogAndApply opens again with the same last sequence number and with the file numbers going on where they were |
| `VersionSets.VersionSet.NewFileNumber` | ios/Pods/leveldb-library/db/version_set.h:194-194 | hands out the next number, which no record in the manifest has passed |
| `VersionSets.Recover` | ios/Pods/leveldb-library/db/version_set.cc:886-1000 | computes from any manifest bytes exactly the specified state or error |
| `BlockBuilders.BlockBuilder.Add` | ios/Pods/leveldb-library/table/block_builder.cc:72-106 | appends the entry sharing a prefix with its predecessor, or a restart point after every interval |
| `BlockBuilders.BlockBuilder.Finish` | ios/Pods/leveldb-library/table/block_builder.cc:62-70 | entries, restart array and count |
| `BlockIterators.FastPath` | ios/Pods/leveldb-library/table/block.cc:54-74 | the one-byte test for three lengths agrees with decoding three variable-length integers |
| `BlockIterators.EntryReads` | ios/Pods/leveldb-library/table/block.cc:54-74 | an encoded entry decodes to its lengths, key difference and value, whatever follows |
| `BlockIterators.OpenFinished` | ios/Pods/leveldb-library/table/block.cc:19-41 | a finished block under 2^32 bytes opens with its restart array |
| `BlockIterators.BlockIter.ParseNextKey` | ios/Pods/leveldb-library/table/block.cc:224-252 | moves to the next entry, rebuilding its key, with the restart index brought up to it, or to the end |
| `BlockIterators.BlockIter.Next` | ios/Pods/leveldb-library/table/block.cc:137-140 | moves from entry i to entry i + 1 or the end |
| `BlockIterators.BlockIter.Prev` | ios/Pods/leveldb-library/table/block.cc:142-161 | moves from entry i to entry i - 1 or off the block, although the restart index may lag |
| `BlockIterators.BlockIter.SeekRestart` | ios/Pods/leveldb-library/table/block.cc:163-190 | the last restart point whose key is less than the target, or the first |
| `BlockIterators.BlockIter.Seek` | ios/Pods/leveldb-library/table/block.cc:163-201 | lands on the first entry whose key is at or after the target, or at the end |
| `BlockIterators.BlockIter.SeekToFirst` | ios/Pods/leveldb-library/table/block.cc:203-206 | stands at the first entry |
| `BlockIterators.BlockIter.SeekToLast` | ios/Pods/leveldb-library/table/block.cc:208-213 | stands at the last entry |
| `BlockIterators.ReadBack` | ios/Pods/leveldb-library/table/block.cc:224-252 | iterating a finished block yields exactly the added pairs |
| `FilterBlocks.FilterBlockBuilder.StartBlock` | ios/Pods/leveldb-library/table/filter_block.cc:21-27 | generates the filters up to the block's stretch |
| `FilterBlocks.FilterBlockBuilder.AddKey` | ios/Pods/leveldb-library/table/filter_block.cc:29-33 | the key joins the pending keys |
| `FilterBlocks.FilterBlockBuilder.GenerateFilter` | ios/Pods/leveldb-library/table/filter_block.cc:51-75 | the pending keys become one more filter, an empty one if there are none |
| `FilterBlocks.FilterBlockBuilder.Finish` | ios/Pods/leveldb-library/table/filter_block.cc:35-49 | filters, offsets, array offset and base |
| `FilterBlocks.ReaderAnswers` | ios/Pods/leveldb-library/table/filter_block.cc:77-104 | the reader asks the policy on the filter of the offset's stretch, the last one bounded by the array offset, and says yes past the last |
| `FilterBlocks.NoKeyMissed` | ios/Pods/leveldb-library/table/filter_block.cc:77-104 | no key of a stretch is missed |
| `FilterBlocks.NoKeyMissedInRun` | ios/Pods/leveldb-library/table/filter_block.cc:21-75 | in any legal sequence of calls no key is missed under its block's offset |
| `SkipLists.PublishSpells` | ios/Pods/leveldb-library/db/skiplist.h:337-368 | one link store keeps every level sorted and a sublist of the level below |
| `SkipLists.SkipList.FindGreaterOrEqual` | ios/Pods/leveldb-library/db/skiplist.h:261-281 | the first key at or after the target, and the predecessor at every level |
| `SkipLists.SkipList.FindLessThan` | ios/Pods/leveldb-library/db/skiplist.h:284-302 | the last node before the target |
| `SkipLists.SkipList.FindLast` | ios/Pods/leveldb-library/db/skiplist.h:305-322 | the last node |
| `SkipLists.SkipList.Insert` | ios/Pods/leveldb-library/db/skiplist.h:337-368 | the key joins level 0 in order and every level of its tower |
| `SkipLists.SkipList.Contains` | ios/Pods/leveldb-library/db/skiplist.h:371-378 | whether the key is in the list |
| `SkipListReaders.StoreLinkOk` | ios/Pods/leveldb-library/db/skiplist.h:361-367 | after every single publication the list is a skip list again and a search under way can go on |
| `SkipListReaders.EveryRunKeepsLists` | ios/Pods/leveldb-library/db/skiplist.h:337-368 | in every state of every interleaving each level is strictly sorted and a sublist of the one below |
| `SkipListReaders.SearchSkipsNothing` | ios/Pods/leveldb-library/db/skiplist.h:261-281 | a search interleaved with insertions ends at a key at or after its target and skips no key that was present when it began |
| `WriteBatches.BatchRoundTrip` | ios/Pods/leveldb-library/db/write_batch.cc:42-80 | a batch reads back as its number and its operations |
| `WriteBatches.TornBatchFails` | ios/Pods/leveldb-library/db/write_batch.cc:42-80 | a batch whose last record is cut anywhere hands over exactly the operations before it and fails with the error of its kind |
| `WriteBatches.CountIsChecked` | ios/Pods/leveldb-library/db/write_batch.cc:75-79 | whole records are all handed over, and the batch fails exactly when its count is not theirs |
| `WriteBatches.RecordsAppend` | ios/Pods/leveldb-library/db/write_batch.cc:144-148 | the records of concatenated operations are the concatenated records |
| `WriteBatches.WriteBatch.PutOp` | ios/Pods/leveldb-library/db/write_batch.cc:98-103 | appends a put and counts it |
| `WriteBatches.WriteBatch.DeleteOp` | ios/Pods/leveldb-library/db/write_batch.cc:105-109 | appends a deletion and counts it |
| `WriteBatches.WriteBatch.Append` | ios/Pods/leveldb-library/db/write_batch.cc:144-148 | the operations of both batches, one after the other |
| `WriteBatches.WriteBatch.Iterate` | ios/Pods/leveldb-library/db/write_batch.cc:42-80 | hands over the operations of any bytes in order up to the first error, and checks the count |
| `WriteBatches.WriteBatch.InsertInto` | ios/Pods/leveldb-library/db/write_batch.cc:132-137 | operations get consecutive numbers from the batch's own on |
| `GroupCommit.BuildBatchGroup` | ios/Pods/leveldb-library/db/db_impl.cc:1260-1306 | the group is the longest prefix whose followers ask for no more safety than the leader and whose batches fit the size limit, and its batch the operations of its writers in order |
| `GroupCommit.ExtentKeepsSync` | ios/Pods/leveldb-library/db/db_impl.cc:1284-1288 | a writer that wants its data synced never joins the group of a leader that does not |
| `GroupCommit.LaterWritersOnlyExtend` | ios/Pods/leveldb-library/db/db_impl.cc:1260-1306 | writers that arrive later take nobody out of a group, and extend it only if it had room for the whole queue |
| `GroupCommit.LoggedAtMostOnce` | ios/Pods/leveldb-library/db/db_impl.cc:1185-1257 | over any interleaving of writers a batch is in at most one record, and in one if its writer was told it succeeded |
| `GroupCommit.NumbersNeverRepeat` | ios/Pods/leveldb-library/db/db_impl.cc:1206-1237 | no number is given twice, whatever failed in between, and later records have larger ones |
| `GroupCommit.RecordHoldsItsWriters` | ios/Pods/leveldb-library/db/db_impl.cc:1260-1306 | iterating the record of a group yields its writers' operations in queue order under consecutive numbers |
| `GroupCommit.OpsLieTogether` | ios/Pods/leveldb-library/db/db_impl.cc:1260-1306 | a writer's operations lie together in its group in their own order |
| `SnapshotLists.SnapshotList.New` | ios/Pods/leveldb-library/db/snapshot.h:57-69 | appends a snapshot at the newest end of the ring |
| `SnapshotLists.SnapshotList.Delete` | ios/Pods/leveldb-library/db/snapshot.h:79-86 | unlinks one snapshot, the others keep their order |
| `SnapshotLists.SnapshotList.Oldest` | ios/Pods/leveldb-library/db/snapshot.h:46-50 | no live snapshot has a smaller number |
| `SnapshotLists.SnapshotList.Newest` | ios/Pods/leveldb-library/db/snapshot.h:51-54 | no live snapshot has a larger number |
| `PbFields.MembersAreDisjoint` | ios/Pods/nanopb/pb_common.c:41-73 | the addresses the walk computes never overlap: what follows a member lies behind the field last walked in it |
| `PbLayout.WalkFindsMembers` | ios/Pods/nanopb/pb_common.c:20-76 | for every struct layout and the descriptor the macros make of it, the iterator stands at each member's own data and at its own flag, count or union tag |
| `PbFields.LocateFinds` | ios/Pods/nanopb/pb_common.c:78-95 | the circular search finds a tag from any start exactly when some field has it, and with distinct tags always the same field |
| `PbFields.FieldIter.Next` | ios/Pods/nanopb/pb_common.c:20-76 | the iterator stands at the next field with its address, size address and required index, or back at the first |
| `PbFields.FieldIter.Find` | ios/Pods/nanopb/pb_common.c:78-95 | stands at the first match from the current field on, wrapping round, or where it began; an empty message answers to tag 0 |
| `PbWire.Varint32Exact` | ios/Pods/nanopb/pb_decode.c:182-242 | the 32-bit decoder reads back every encoded number below 2^32 and rejects every encoded one from 2^32 to 2^63 |
| `PbWire.VarintCarries` | ios/Pods/nanopb/pb_decode.c:1289-1372 | signed, unsigned and zigzag members of 1, 2, 4 or 8 bytes survive their varint, negative ones through the 32-bit cast |
| `PbWire.NumRoundTrip` | ios/Pods/nanopb/pb_encode.c:732-808 | every packable member value decodes to itself, whatever follows it |
| `PbWire.DelimitedExact` | ios/Pods/nanopb/pb_decode.c:364-380 | a record behind its length is cut out again exactly when its length fits 32 bits |
| `PbWire.TagRoundTrip` | ios/Pods/nanopb/pb_decode.c:293-314 | every legal tag and wire type is read back |
| `PbEncoder.VarintBytes` | ios/Pods/nanopb/pb_encode.c:574-594 | the buffer loop, with the last mark cleared, writes the groups of the number |
| `PbEncoder.EncodeItems` | ios/Pods/nanopb/pb_encode.c:173-181 | the items of a packed array are written one after another |
| `PbEncoder.EncodeArrayTo` | ios/Pods/nanopb/pb_encode.c:126-211 | an array is packed behind its exact length or written item by item, and fails when over its maximum |
| `PbEncoder.CheckDefault` | ios/Pods/nanopb/pb_encode.c:215-303 | whether a field counts as unset, recursively through nested messages |
| `PbEncoder.EncodeFieldTo` | ios/Pods/nanopb/pb_encode.c:307-392 | a field is written as specified or the encoder fails as specified; what the rule for presence amounts to is PbFidelity.NothingIsLost |
| `PbFidelity.EncodedIff` | ios/Pods/nanopb/pb_encode.c:126-392 | the encoder succeeds exactly when numbers in use have a machine width, bytes in use fit their member and arrays have no more items than room, at every depth |
| `PbFidelity.NothingIsLost` | ios/Pods/nanopb/pb_decode.c:1051-1063 | whatever decodes again says what the struct said: the same flags, counts and union members in use, every value they say is there, and unflagged values whole unless zero or empty with a declared default; flagged fields not set hold their default |
| `PbFidelity.ZeroComesBack` | ios/Pods/nanopb/pb_encode.c:215-303 | what a field counts as unset with is what the decoder starts from: a zero, nothing, or a message all of whose fields count as unset |
| `PbEncoder.EncodeMessage` | ios/Pods/nanopb/pb_encode.c:494-516 | on any stream, sizing or writing: succeeds exactly when the encoding exists and fits, and then wrote exactly it |
| `PbEncoder.EncodeSubmessage` | ios/Pods/nanopb/pb_encode.c:682-730 | sizing pass, length, writing pass: the same contract at every nesting depth |
| `PbEncoder.WriteWithin` | ios/Pods/nanopb/pb_encode.c:705-729 | the writing pass always succeeds and fills its substream exactly, so the size-changed error cannot occur |
| `PbEncoder.GetEncodedSize` | ios/Pods/nanopb/pb_encode.c:533-542 | the size of the encoding, exactly when there is one |
| `PbEncoder.SizeThenEncode` | ios/Pods/nanopb/pb_encode.c:533-542 | the encoder on both streams: into a buffer it succeeds exactly when the sizing run does and its count fits, writes that many bytes, the encoding, and leaves those behind alone |
| `PbStream.PutCat` | ios/Pods/nanopb/pb_encode.c:101-119 | two writes succeed and do the same exactly when one write of both does |
| `PbStream.OStream.Write` | ios/Pods/nanopb/pb_encode.c:101-119 | writes all or fails exactly when it would pass the limit |
| `PbDecode.Decode` | ios/Pods/nanopb/pb_decode.c:1051-1063 | on any bytes whatsoever, what is decoded fits the struct: counts within arrays, strings terminated, lengths within storage, numbers within width |
| `PbDecode.DefaultsShape` | ios/Pods/nanopb/pb_decode.c:812-895 | the defaults of a well-formed descriptor fit its struct |
| `PbDecode.PutKeepsShape` | ios/Pods/nanopb/pb_decode.c:401-475 | storing a decoded field, also into a union, leaves every other field's slot well-formed |
| `PbDecoder.IStream.DecodeVarint32` | ios/Pods/nanopb/pb_decode.c:182-242 | the loop over bit positions computes the specified value, error or end |
| `PbDecoder.IStream.DecodeVarint` | ios/Pods/nanopb/pb_decode.c:250-270 | the loop computes the 64-bit value of at most ten groups, bits beyond 64 lost |
| `PbDecoder.DecodeTag` | ios/Pods/nanopb/pb_decode.c:293-314 | tag and wire type, end of message on a zero or at the end, or an error |
| `PbDecoder.SkipFieldBytes` | ios/Pods/nanopb/pb_decode.c:316-326 | passes over an unknown field of any wire type |
| `PbDecoder.MakeSubstream` | ios/Pods/nanopb/pb_decode.c:367-380 | a stream over the next record whose budget leaves the parent's |
| `PbDecoder.DecodeValueFrom` | ios/Pods/nanopb/pb_decode.c:1289-1508 | each field decoder, nested messages through a substream, does what the specification says |
| `PbDecoder.DecodePackedItems` | ios/Pods/nanopb/pb_decode.c:431-442 | a packed array is read to the end of its record, or fails when it has no room |
| `PbDecoder.DecodeSlot` | ios/Pods/nanopb/pb_decode.c:401-475 | one field by its rule, packed or not, as specified; what the rule does to the struct are PbMerge.ValueOverwrites, PbMerge.MessageArrives and PbRoundTrip.ItemsRoundTrip |
| `PbDecoder.SetToDefaults` | ios/Pods/nanopb/pb_decode.c:884-895 | every member is set to its default whatever it held |
| `PbDecoder.CheckRequired` | ios/Pods/nanopb/pb_decode.c:1006-1046 | exactly whether all required fields, or the first 64, were seen |
| `PbDecoder.DecodeMessage` | ios/Pods/nanopb/pb_decode.c:901-1049 | merges any bytes into any well-formed struct as specified, or fails as specified |
| `PbDecoder.DecodeInto` | ios/Pods/nanopb/pb_decode.c:1051-1063 | the same from defaults |
| `PbRoundTrip.ValueRoundTrip` | ios/Pods/nanopb/pb_decode.c:1289-1508 | a value of any kind, nested to any depth, decodes to its canonical form exactly when it is terminated and its lengths fit |
| `PbRoundTrip.ItemsRoundTrip` | ios/Pods/nanopb/pb_decode.c:450-459 | the items of an array, packable or not, sent with their own tags, are appended in order to those the array holds; more than it has room for are an error |
| `PbRoundTrip.PackedFieldRoundTrip` | ios/Pods/nanopb/pb_decode.c:420-448 | the items of a packed record are appended likewise, with the same bound |
| `PbRoundTrip.PackedRoundTrip` | ios/Pods/nanopb/pb_decode.c:420-448 | packed items |
| `PbRoundTrip.FieldsRoundTrip` | ios/Pods/nanopb/pb_decode.c:919-997 | from field i on the decoder lays the remaining fields over the first i |
| `PbRoundTrip.UnknownFieldIsSkipped` | ios/Pods/nanopb/pb_decode.c:958-961 | a reader without the field passes over any value of it, wherever it stands |
| `PbSettled.SettledIff` | ios/Pods/nanopb/pb_decode.c:812-895 | resetting absent fields leaves a struct as it is exactly when its absent fields, at every depth, hold their defaults |
| `PbSettled.RoundTrip` | ios/Pods/nanopb/pb_decode.c:1051-1063 | decoding an encoding succeeds and consumes every byte if and only if strings are terminated and lengths fit 32 bits, and gives back the struct itself if and only if, moreover, absent fields hold their defaults |
| `PbSettled.UnterminatedStringFails` | ios/Pods/nanopb/pb_encode.c:831-855 | a string that fills its member is encoded and cannot be decoded |
| `PbMerge.ValueOverwrites` | ios/Pods/nanopb/pb_decode.c:401-475 | from any well-formed struct, one value of a plain field or union member is what the struct holds afterwards |
| `PbMerge.LastValueWins` | ios/Pods/nanopb/pb_decode.c:401-419 | of two values of one field the first might as well not have been sent |
| `PbMerge.MessageArrives` | ios/Pods/nanopb/pb_decode.c:1463-1485 | a nested message, whatever its bytes, is merged into the one the struct holds; an array item or union member starts from the defaults; a full array fails |
| `PbMerge.TwoMessagesAreOne` | ios/Pods/nanopb/pb_decode.c:1463-1485 | two occurrences of a nested message are one with both byte strings put together |
| `PbMerge.UnionForgets` | ios/Pods/nanopb/pb_decode.c:461-471 | what a union held leaves no trace in the message it comes to hold |
| `PbConcat.LoopGoesOn` | ios/Pods/nanopb/pb_decode.c:919-997 | given more bytes, decoding goes through the first part as if alone, and then either through the second or stops where a zero tag stopped it |
| `PbConcat.ConcatenationMerges` | ios/Pods/nanopb/pb_decode.c:901-1049 | a message in two parts is the first decoded and the second merged into it, required fields seen in the first counting for both |
| `PbReads.RecordRead` | ios/Pods/nanopb/pb_decode.c:1391-1508 | which records bytes, strings and fixed-length bytes take, with what value, and which they refuse: strings end at their first zero, an empty fixed-length record is zeros |
| `PbReads.ShortRecordFails` | ios/Pods/nanopb/pb_decode.c:364-380 | a record that promises more bytes than there are is refused |
| `PbReads.UnsignedRead` | ios/Pods/nanopb/pb_decode.c:1326-1348 | an unsigned number is taken exactly when the member can hold it |
| `PbReads.SignedRead` | ios/Pods/nanopb/pb_decode.c:1289-1324 | a signed number is the two's complement of 64 or of the low 32 bits and taken exactly when the member can hold it |
| `PbReads.ZigZagRead` | ios/Pods/nanopb/pb_decode.c:1350-1372 | a zigzag number is taken exactly when the member can hold what it stands for |
| `PbReads.UnknownWireFails` | ios/Pods/nanopb/pb_decode.c:316-326 | an unknown field with none of the four wire types is an error |
| `PbReads.RequiredTagOccurs` | ios/Pods/nanopb/pb_decode.c:1006-1046 | whatever decodes has the tag of each of the first 64 required fields in its bytes |
| `PbReads.RefusedOnlyForThose` | ios/Pods/nanopb/pb_decode.c:1028-1046 | nothing else makes a message that could be read be refused |
| `Formats.Numbers` | ios/Pods/leveldb-library/util/coding.cc:9-60 | little-endian fixed numbers, variable-length numbers and the checksum mask, byte by byte |
| `Formats.LogRecord` | ios/Pods/leveldb-library/db/log_writer.cc:82-108 | the bytes of a short log record |
| `Formats.Batch` | ios/Pods/leveldb-library/db/write_batch.cc:5-14 | the bytes of a batch with a put and a deletion |
| `Formats.Edits` | ios/Pods/leveldb-library/db/version_edit.cc:12-24 | the bytes of every kind of item of a version edit |
| `Formats.MemtableEntry` | ios/Pods/leveldb-library/db/memtable.cc:75-98 | the bytes of a value, a deletion and a lookup key |
| `Formats.Block` | ios/Pods/leveldb-library/table/block_builder.cc:5-27 | the bytes of a block of two entries that share a prefix |
| `Formats.Filters` | ios/Pods/leveldb-library/table/filter_block.cc:35-49 | the bytes of a filter block with one filter |
| `Formats.WireNumbers` | ios/Pods/nanopb/pb_encode.c:574-640 | the bytes of small numbers of every packable kind |
| `Formats.PackedArray` | ios/Pods/nanopb/pb_encode.c:126-211 | the bytes of a packed array |

## Left out

- Steps.CompactionPreservesReads: does not model compactions that split a user key at the next level, because there the code does change reads; see Findings.
- CompactionLoop.DoCompactionWork: does not model an oldest snapshot of the maximal sequence number, which only an exhausted store reaches, nor a flush nested inside a running compaction, because the level picker does not see the running compaction's key range.
- DbImpl.DBImpl.BackgroundCompaction: does not model the choice of the level by the floating-point scores of Finalize, seek statistics and read sampling (the level or the file charged with seeks is a parameter), the compaction pointers in its edit, nor the range a manual compaction goes on with.
- ReadPath.FindFile: does not model the wrap-around of a 32-bit index, because no level holds 2^31 files.
- DbFormat.SeekFindsNewest: does not model user keys as bytes but by their rank under the user comparator; `MemTable` connects the two.
- DbIterator.DBIter.FindNextUserEntry: does not model internal keys that cannot be parsed, because every entry of the model is well-formed.
- SkipLists.SkipList.Insert: does not model node allocation and the random height, which is a parameter; links are a map from level and node to the next key.
- SkipListReaders.SearchSkipsNothing: does not model weak memory ordering; every atomic store or load is one step.
- LogReader.Reader.ReadRecord: does not model a non-zero initial offset, LastRecordOffset and failing reads of the file.
- LogRecovery.DamagedLogReads: does not say which records come back when a block is damaged behind its first header, only for cut files and blocks whose first header is refused; `BytesConserved` holds for any bytes.
- CrashSafety.EveryRunIsDurable: models recovery as one step that may find the tables and empty logs of recoveries cut short before it, and a recovered store takes writes only after its manifest edit; does not model failed appends that leave partial bytes behind, sync errors, crashes of the operating system that lose unsynced bytes of older logs (a log switch closes the old log without syncing it), and reuse of logs or manifests.
- CrashBytes.EveryCrashRecovers: does not model log records whose keys or values reach 2^32 bytes.
- CrashSafety.RecoveryAlwaysSucceeds: does not model unreadable tables or paranoid checks.
- VersionSets.VersionSet.LogAndApply: does not model failing writes to the manifest, CURRENT and the release of the mutex, nor the assertions on the log number of the edit; the file CURRENT names is a parameter of Recover.
- StoreEdits.EveryRunReplays: leaves out edits that touch no file and the reuse of a log number whose file could not be made, because no table gets that number.
- VersionSets.VersionSet.ManifestIsCurrent: the counters that come back are those of the last record, which are the fields as they stand only until a number is used; `NoNumberIsLost` covers the moment after LogAndApply.
- GroupCommit.LoggedAtMostOnce: does not model the waiting of MakeRoomForWrite, which is an outcome of the step, nor the condition variables.
- GroupCommit.NumbersNeverRepeat: does not model sequence numbers running out.
- MemTables.MemTable.Add: does not model the arena; the ranks of encoded keys stand for their comparator.
- FilterBlocks.NoKeyMissed: does not model the bloom filter; any policy without false negatives will do.
- BlockIterators.OpenFinished: does not model blocks of 2^32 bytes or more.
- PbEncoder.EncodeMessage: does not model nested messages of 2^64 bytes or more, which no size holds, nor callbacks, extensions, pointer fields and fixed-count arrays.
- PbWire.Varint32Exact: does not model the wrap-around of the 8-bit bit position after 36 groups, nor claim which over-long encodings are rejected.
- PbSettled.RoundTrip: does not model lengths of 2^63 bytes or more, because no object in memory has them.
- PbDecoder.DecodeMessage: does not model what a failed decode leaves in the struct, nor the packing of the required-field flags into words; it asks for descriptors with distinct tags below 2^29, as the Protocol Buffers language does.
- PbDecode.Decode: does not model bytes behind a string's first NUL in its member, which no reader of the string sees, nor the storage of a union member that is not in use.
- Table files, the table cache, the merging and two-level iterators, checksums and the bloom filter are used through their contracts: a sorted run of entries, a merged sorted run, any checksum function, no false negatives.
- Environment, files, threads, logging, statistics, property queries, approximate sizes, repair, destruction and reference counts.
- The application, its plugins and generated headers, which hold no logic of their own.
