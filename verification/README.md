# Verified model of the vendored storage engine and message codec

The application in this repository is Firebase calls and views. The algorithms
it depends on are vendored: the LevelDB storage core
(`BucketList/Pods/leveldb-library/db`) and the nanopb Protocol Buffers codec
(`BucketList/Pods/nanopb`). This project models both in Dafny and proves what
they promise, for every input, run or reachable state.

`dafny verify dfyconfig.toml` checks the whole project.

## Storage core

A user key has many versions. An internal key is the user key followed by a
packed sequence number and type byte; internal keys are ordered by user key and
then newest first (`DbFormat`). `MultiVersion` says what it means to read a key
at a snapshot, and everything below is proved against that one definition:
the answer is the value of the newest version at or below the snapshot, or
nothing when that version is a deletion or there is none.

- `MemTable`: adding entries to the sorted list of length-prefixed entries, and
  looking a key up in it.
- `DbIter`: the iterator that shows the visible map. Any mix of moves, with
  changes of direction, shows what an abstract cursor over the live entries shows.
- `Compaction`: the drop rule, the loop that applies it and splits its output.
  Reads at every snapshot that is live or can still be taken are unchanged, with
  the exact condition under which that holds.
- `Snapshots`: the circular list of live snapshots, and why its oldest one bounds
  every snapshot that is live or taken while a compaction runs.
- `Log` and `LogProofs`: the write-ahead log, its writer and its reader. A log
  cut off at any byte reads back as exactly the records wholly inside it.
- `LogDamage`: logs that appends have failed on. Whatever bytes a file holds and
  whatever is appended to it, the records read from it stay the first that are read
  (`ReadingIsMonotone`). Records added behind a failed append are read back, or not,
  depending on what it left.
- `LogChecksum`: nothing is read from any file without its checksum, and a damaged
  fragment takes the rest of its block with it and no more (`OneFragmentDamaged`).
- `Coding` and `WriteBatch`: batches as bytes, how they are built, merged and read.
- `WriteQueue`: group commit over every interleaving of writers and failures. While
  all keys and values are shorter than 2^32 bytes every group is inserted whole or
  not at all.
- `LogContents`, `Durability` and `DbImpl`: memtable rotation, flush, version
  commits, deletion of obsolete files, failed writes, crashes and recovery as one
  state machine whose logs are the bytes written. Two things are proved of it.
  Wherever failed appends are cut, and with any bytes behind the synced part of a
  log after a crash, no write that was acknowledged with sync while nothing had
  failed on its log is lost (`NoSyncedWriteLost`), and what survives every crash is
  stated exactly (`SurvivesEveryCrashIff`). If, besides, a crash only cuts the logs
  and a reader finds no record in them that was not written, reads of the recovered
  database answer as reads of everything it holds (`RecoveredReads`). The second
  condition is met by every write on a log on which nothing has failed
  (`UndamagedHasNoStrays`); on others it excludes that a reader which starts a block
  inside a payload finds a whole fragment there. The drop loop is a step of the
  machine (`LoopIsAllowed`).

## Codec

A message type is a table of field descriptors (`PbField`), a message a slot of
storage per field; descriptors nest.

- `Varint`: base 128 varints and zigzag integers, and exactly which 64-bit values
  the 32-bit decoder accepts.
- `FieldIter`: the iterator over a descriptor table, which wraps around.
- `PbEncode`: what a struct encodes to, and the stream code that writes it into a
  buffer or only counts it. The two passes over a submessage always agree.
- `PbDecode` and `PbStream`: what a stream of bytes does to a struct, and the
  stream code that does it.
- `PbWire`: what the encoder sends is whole records of the four wire types, which any
  other decoder passes over (`TableWithFewerFields`).
- `PbRecords`, `PbFits`, `PbAbsent` and `PbOddStreams`: what holds of any stream. It
  decodes only if it brings every required field (`MissingRequiredFails`), the struct
  fits its table (`DecodedFits`), what does not come keeps its content or default, the
  later of two values counts, and cut, overflowing or malformed records are errors.
- `PbRoundTrip`: what decoding makes of an encoded struct. It fails exactly when a
  string that was sent has no room for its terminating NUL, or a packed array or
  nested message is too long for its 32-bit length.
- `PbContent`: the decoded struct has the content of the encoded one if and only if
  every zero stored in a field without a has-flag is that field's default.
- `PbUnknown` and `PbNested`: fields that are not in the table make no difference,
  wherever they are, also inside nested messages.

## Where the code differs from what one would expect

- Compaction: a key that does not parse, lying between an obsolete deletion marker
  and an older value of the same key, makes the drop loop forget the marker's
  sequence number. It drops the marker and keeps the value, so a deleted value
  comes back (`ResurfacingExample`). Reads are preserved if and only if the input
  has no such place (`PreservesReadsIff`); an input whose keys all parse never has
  (`WellFormedNeverResurfaces`). With the largest sequence number as the smallest
  snapshot the sentinel would count as an old version and everything would be
  dropped (`SentinelSnapshotDropsAll`).
- Group commit: LastSequence moves past a group whatever its status. The length of
  a key or value is cut to 32 bits when it is put in a batch. A batch with a longer
  one is not inserted as it was built (`IteratesAsBuiltIff`), and inserting it can
  fail behind operations that then stay visible (`PartialGroupExample`,
  `SeenInPart`). Without such a key or value no insertion fails, and a
  group is visible as a whole or not at all (`InsertFailsDisabled`, `AllOrNothing`).
- Failed log appends: only a failed sync stops later writes. After a failed append
  the same log is used on, with the block offset moved past the fragment. If the
  append left a header without its payload, a later write that is synced and
  acknowledged is found by no reader, and no crash keeps it (`LosesNextRecord`,
  `HeaderLeftLosesBatch`, `NothingFoundBehindHeader`). If it left nothing or whole
  fragments, later writes are found as far as they end in the reader's block
  (`KeepsNextRecord`, `NothingLeftKeepsBatch`, `FoundBehindWholeFragments`). A write
  that no reader finds is there after a crash that cuts the logs if and only if it
  has been flushed (`HiddenSurvivesIff`).
- The 32-bit varint decoder accepts more than sign-extended negative values
  (`NotSignExtendedExample`). It does not look at three of the bits above the low
  32, and it lets each later group of seven bits be all zeros as well as all ones.
- An optional field without a has-flag is not sent when it is zero, and decodes to
  its default. If the table gives it another default the zero is lost
  (`StoredZeroExample`); `SameContentIff` is the exact condition.
- A text that fills its character buffer has no NUL; the encoder sends it and the
  decoder refuses it (`UnterminatedExample`).
- Fragment types 5 and 6, which no writer produces, have the values the log reader
  uses inside for end of file and bad record, and it takes them for those: every
  other type is reported, but for empty fragments of type zero, and these two are not
  (`UnwrittenTypeReportedIff`, `EofTypeExample`).

## Model

| member | source | states |
|---|---|---|
| `DbFormat.ParseAfterAppend` | BucketList/Pods/leveldb-library/db/dbformat.cc:14-23 | packing the sequence and type of any key and parsing the bytes gives the key back |
| `DbFormat.AppendAfterParse` | BucketList/Pods/leveldb-library/db/dbformat.h:165-175 | bytes parse to a key if and only if they are that key's serialization, so parsing rejects short keys and unknown types and is injective |
| `DbFormat.CompareIsThreeWayOrder` | BucketList/Pods/leveldb-library/db/dbformat.cc:51-67 | for any user order, internal key comparison is reflexive, antisymmetric and transitive |
| `DbFormat.NewestFirst` | BucketList/Pods/leveldb-library/db/dbformat.cc:51-67 | of two versions of a user key the one with the larger sequence number comes first, whatever their types |
| `DbFormat.SeekKeySeparates` | BucketList/Pods/leveldb-library/db/dbformat.cc:121-138 | the lookup key for (key, s) comes after exactly the parseable keys that are smaller or are versions of the key newer than s |
| `DbFormat.SeparatorSeparates` | BucketList/Pods/leveldb-library/db/dbformat.cc:69-86 | given the user comparator's promise, the shortened separator lies at or after start and before limit and is no longer than start |
| `DbFormat.SuccessorNotBefore` | BucketList/Pods/leveldb-library/db/dbformat.cc:88-101 | the short successor is not before the key and not longer |
| `MultiVersion.BeforeIsCompare` | BucketList/Pods/leveldb-library/db/dbformat.cc:51-67 | the order on entries used throughout is comparison of their serialized internal keys |
| `Coding.Varint32ReadsBack` | BucketList/Pods/leveldb-library/util/coding.cc:112-140 | every 32-bit length reads back, whatever follows it, with exactly its bytes consumed |
| `Coding.AnyVarint32` | BucketList/Pods/leveldb-library/util/coding.cc:112-128 | for any bytes: a length takes at most five of them, of which all but the last announce another, and is their number modulo 2^32 |
| `Coding.SliceReadsBack` | BucketList/Pods/leveldb-library/util/coding.cc:98-101 | a length-prefixed slice shorter than 2^32 bytes reads back exactly, whatever follows it |
| `MemTable.EntryReadsBack` | BucketList/Pods/leveldb-library/db/memtable.cc:75-98 | both parts of an encoded entry, and the user key and tag inside, read back exactly |
| `MemTable.CompareEncodedIsBefore` | BucketList/Pods/leveldb-library/db/memtable.cc:28-34 | the comparator on encoded entries is the internal key order |
| `MemTable.CompareWithLookupKey` | BucketList/Pods/leveldb-library/db/memtable.cc:28-34 | an encoded entry is below a lookup key exactly when its key is smaller or it is a newer version |
| `MemTable.MemTable.Add` | BucketList/Pods/leveldb-library/db/memtable.cc:75-98 | inserts the one entry at its place; the table stays the encodings of a sorted list of entries |
| `MemTable.MemTable.Get` | BucketList/Pods/leveldb-library/db/memtable.cc:100-134 | found with the value, found as deleted, or not found, as the newest version at or below the sequence number says |
| `MemTable.InsertKeepsSorted` | BucketList/Pods/leveldb-library/db/memtable.cc:75-98 | inserting where the first entry is not before the new one keeps strict order if its sequence number is new for the key |
| `MemTable.SeekFindsNewest` | BucketList/Pods/leveldb-library/db/memtable.cc:100-134 | the entry a seek lands on is the newest visible version of the key, or the key has none |
| `Compaction.KeptMembers` | BucketList/Pods/leveldb-library/db/db_impl.cc:929-996 | the loop keeps exactly the entries at positions its rule does not drop |
| `Compaction.HiddenHasNewer` | BucketList/Pods/leveldb-library/db/db_impl.cc:946-948 | an entry dropped as hidden is visible to no live snapshot, because the entry before it is a newer visible version of the key |
| `Compaction.NewestSurvives` | BucketList/Pods/leveldb-library/db/db_impl.cc:929-963 | the newest version at a live snapshot is dropped only as an obsolete deletion, and then nothing older of the key survives unless a value resurfaces |
| `Compaction.CompactionPreservesReads` | BucketList/Pods/leveldb-library/db/db_impl.cc:929-963 | for every key and every snapshot from the smallest on, reading the layers above, the kept entries and the deeper levels answers as before |
| `Compaction.ReadPreserved` | BucketList/Pods/leveldb-library/db/db_impl.cc:929-963 | the same for one read |
| `Compaction.ResurfacingChangesARead` | BucketList/Pods/leveldb-library/db/db_impl.cc:931-963 | where a value resurfaces, a read that found the key deleted does not any more |
| `Compaction.PreservesReadsIff` | BucketList/Pods/leveldb-library/db/db_impl.cc:929-963 | no read changes under any newer layers if and only if no unparseable key lets a deleted value resurface |
| `Compaction.WellFormedNeverResurfaces` | BucketList/Pods/leveldb-library/db/db_impl.cc:931-943 | an input all of whose keys parse meets that condition |
| `Compaction.ResurfacingExample` | BucketList/Pods/leveldb-library/db/db_impl.cc:931-963 | a three-entry input on which the deleted value is kept and its marker dropped |
| `Compaction.SentinelSnapshotDropsAll` | BucketList/Pods/leveldb-library/db/db_impl.cc:935-948 | with the largest sequence number as smallest snapshot every parseable entry is dropped |
| `Compaction.NewVersionsKept` | BucketList/Pods/leveldb-library/db/db_impl.cc:929-963 | every entry newer than the smallest snapshot is kept |
| `Compaction.AtMostOneOldVersion` | BucketList/Pods/leveldb-library/db/db_impl.cc:946-962 | if all keys of the input parse: of the versions of a key at or below the smallest snapshot, all after the first are dropped |
| `Compaction.KeptSorted` | BucketList/Pods/leveldb-library/db/db_impl.cc:974-996 | the kept entries are in order, as the table builder needs |
| `Compaction.CompactionState.AddToNewOutput` | BucketList/Pods/leveldb-library/db/db_impl.cc:975-986 | opens a table, behind the others, that starts with the entry and records it as smallest and largest |
| `Compaction.CompactionState.AddToCurrentOutput` | BucketList/Pods/leveldb-library/db/db_impl.cc:982-986 | appends the entry to the open table, leaves the others alone, and records it as largest |
| `Compaction.CompactionState.Emit` | BucketList/Pods/leveldb-library/db/db_impl.cc:974-996 | on success exactly this entry has been added, to the open table or to a new one, and the table is closed exactly if it is full |
| `Compaction.CompactionState.DoCompactionWork` | BucketList/Pods/leveldb-library/db/db_impl.cc:905-1013 | on success the output tables in order hold exactly what the drop rule keeps, and two entries kept one after the other are in different tables exactly if the first one's table was full or an input entry behind it up to the second asked for a new table; without failures or shutdown it succeeds |
| `Compaction.OutputRangesDisjoint` | BucketList/Pods/leveldb-library/db/db_impl.cc:982-995 | the key ranges recorded for the output tables are disjoint and ascending |
| `DbIter.DBIter.ParseVisible` | BucketList/Pods/leveldb-library/db/db_iter.cc:122-139 | an entry is considered exactly if it parses and is not newer than the snapshot; a key that does not parse is remembered as corruption |
| `DbIter.DBIter.FindNextUserEntry` | BucketList/Pods/leveldb-library/db/db_iter.cc:168-198 | finds the first live entry from the position on, over deletions and older versions |
| `DbIter.DBIter.Next` | BucketList/Pods/leveldb-library/db/db_iter.cc:141-166 | moves to the first live entry after the current one, also when the last move was backward |
| `DbIter.DBIter.FindPrevUserEntry` | BucketList/Pods/leveldb-library/db/db_iter.cc:227-267 | finds the last live entry before the limit and leaves the internal iterator on the last visible entry before it |
| `DbIter.DBIter.Prev` | BucketList/Pods/leveldb-library/db/db_iter.cc:200-225 | moves to the last live entry before the current one, also when the last move was forward |
| `DbIter.DBIter.Seek` | BucketList/Pods/leveldb-library/db/db_iter.cc:269-281 | moves to the first live entry whose user key is not below the target |
| `DbIter.DBIter.SeekToFirst` | BucketList/Pods/leveldb-library/db/db_iter.cc:283-292 | moves to the first live entry |
| `DbIter.DBIter.SeekToLast` | BucketList/Pods/leveldb-library/db/db_iter.cc:294-299 | moves to the last live entry |
| `DbIter.DBIter.Key` | BucketList/Pods/leveldb-library/db/db_iter.cc:64-67 | the user key of the current entry in either direction |
| `DbIter.DBIter.Value` | BucketList/Pods/leveldb-library/db/db_iter.cc:68-71 | the value of the current entry in either direction |
| `DbIter.YieldIsLive` | BucketList/Pods/leveldb-library/db/db_iter.cc:168-198 | the value the forward scan stops at is the newest visible version of its key |
| `DbIter.ForwardStep` | BucketList/Pods/leveldb-library/db/db_iter.cc:172-194 | each turn of the forward scan keeps what it relies on, or has found the next live entry |
| `DbIter.ScanStops` | BucketList/Pods/leveldb-library/db/db_iter.cc:231-256 | when the backward scan meets a smaller user key, the entry it has saved is live and is the last before the limit |
| `DbIter.SeekLands` | BucketList/Pods/leveldb-library/db/db_iter.cc:269-281 | seeking the internal key of (target, snapshot) skips no live entry with a user key at or after the target |
| `DbIter.Run` | BucketList/Pods/leveldb-library/db/db_iter.cc:141-299 | any sequence of moves shows, move by move, the key and value of the abstract cursor's entries |
| `DbIter.CursorStepUnique` | BucketList/Pods/leveldb-library/db/db_iter.cc:141-299 | the abstract cursor is deterministic |
| `DbIter.LiveEntriesAreReads` | BucketList/Pods/leveldb-library/db/db_iter.cc:39-60 | a live entry with a user key and value exists if and only if a read of the key finds that value |
| `DbIter.LiveKeysAscend` | BucketList/Pods/leveldb-library/db/db_iter.cc:39-60 | each user key is shown once, in ascending order |
| `Log.FragmentsShape` | BucketList/Pods/leveldb-library/db/log_writer.cc:34-80 | a record becomes Full, or First Middle* Last, with payloads that concatenate to it and no fragment across a block end |
| `Log.Writer.constructor` | BucketList/Pods/leveldb-library/db/log_writer.cc:23-30 | a reopened writer continues at the block offset of the file's length |
| `Log.Writer.EmitPhysicalRecord` | BucketList/Pods/leveldb-library/db/log_writer.cc:82-108 | appends checksum, length, type and payload up to the first append that fails, says whether all of them and the flush succeeded, and moves the block offset past the fragment in any case |
| `Log.Writer.AddRecord` | BucketList/Pods/leveldb-library/db/log_writer.cc:34-80 | for every record, block offset and failure: what the unchecked append of a block trailer leaves of it, and behind it exactly the record's fragments with the block offset moved past them if everything else succeeds, and up to the first error if not, which is reported; a record of one fragment is cut exactly where that append was |
| `Log.Reader.ReadPhysicalRecord` | BucketList/Pods/leveldb-library/db/log_reader.cc:189-271 | returns the next fragment, end of file or bad record and moves the buffer, as the file's bytes determine |
| `Log.Reader.ReadRecord` | BucketList/Pods/leveldb-library/db/log_reader.cc:56-174 | returns the next whole record and the position of its first header, with the drops it reports, or the end; the last record offset moves only with a record |
| `LogProofs.ReadFragment` | BucketList/Pods/leveldb-library/db/log_reader.cc:189-271 | a fragment wholly in the file is read back, over a block trailer if there is one |
| `LogProofs.ReadCutFragment` | BucketList/Pods/leveldb-library/db/log_reader.cc:189-271 | a fragment cut off at any byte reads as end of file |
| `LogProofs.UnwrittenTypeReportedIff` | BucketList/Pods/leveldb-library/db/log_reader.cc:160-170 | a whole, well-checksummed fragment of a type no writer makes is reported with its length and what had been collected of a record if and only if its type is neither 5 nor 6 and it is not an empty fragment of type zero, which drop only what had been collected; type 5 ends the reading |
| `LogProofs.EofTypeExample` | BucketList/Pods/leveldb-library/db/log_reader.h:62-74 | a file that begins with a whole fragment of type 5 reads as empty without a report, whatever records follow |
| `LogProofs.ReadWholeRecord` | BucketList/Pods/leveldb-library/db/log_reader.cc:56-174 | a record wholly in the file is put together again without any report, and the reader is where the writer was |
| `LogProofs.ReadCutRecord` | BucketList/Pods/leveldb-library/db/log_reader.cc:56-174 | a record cut off anywhere reads as the end, without any report |
| `LogProofs.CrashPrefix` | BucketList/Pods/leveldb-library/db/log_reader.cc:56-174 | a log of any records cut at any byte reads back as exactly the records wholly inside, in order, each with its first header's position, and reports no corruption |
| `LogProofs.RoundTrip` | BucketList/Pods/leveldb-library/db/log_reader.cc:56-174 | an uncut log of any records, empty ones and ones over many blocks included, reads back completely without any report |
| `LogDamage.ReadingIsMonotone` | BucketList/Pods/leveldb-library/db/log_reader.cc:56-271 | for any bytes and any bytes appended to them: the records read from the file are the first that are read from the longer one, each with the same position |
| `LogDamage.DamagedLogKeepsPrefix` | BucketList/Pods/leveldb-library/db/log_reader.cc:56-174 | the records added before an append failed are read back first, whatever bytes come behind them |
| `LogDamage.FailedRecordHidesNothing` | BucketList/Pods/leveldb-library/db/log_writer.cc:82-108 | if nothing is added after a record whose appending failed, all other records are read back, and it is too only if all its bytes are there |
| `LogDamage.LostBehindHeader` | BucketList/Pods/leveldb-library/db/log_reader.cc:220-232 | whatever is written behind a header without its payload, up to the length it announces, is not read and not reported |
| `LogDamage.LosesNextRecord` | BucketList/Pods/leveldb-library/db/log_writer.cc:96-107 | the payload of a record cannot be appended, AddRecord says so, and the next AddRecord reports success: reading the file finds neither record, and no corruption |
| `LogDamage.KeepsNextRecord` | BucketList/Pods/leveldb-library/db/log_writer.cc:96-107 | nothing of a record can be appended, and the block offset moves all the same: the next record is read back, alone and without a report |
| `LogDamage.WholeFragmentsHideNothing` | BucketList/Pods/leveldb-library/db/log_writer.cc:82-108 | behind an append that failed between two fragments, or before the first, every record added later is read back as far as it ends in the block the reader is in, whatever block offset the writer has and whatever follows |
| `LogDamage.ReadShiftedRecord` | BucketList/Pods/leveldb-library/db/log_reader.cc:77-170 | a record is read from any place in the reader's block if it ends in that block, and what had been collected of another is dropped and reported |
| `LogDamage.ReopenedBehindWholeFragments` | BucketList/Pods/leveldb-library/db/db_impl.cc:447-458 | a log that a crash cut between two fragments and that is reopened and written on reads back as exactly the records before the torn one and all records added behind it, over any number of blocks |
| `LogChecksum.FragmentIsChecked` | BucketList/Pods/leveldb-library/db/log_reader.cc:189-271 | for any file and state: every fragment that is handed over lies in the file behind four bytes that are the checksum of its type byte and payload, its length and its type |
| `LogChecksum.AllRecordsAreChecked` | BucketList/Pods/leveldb-library/db/log_reader.cc:56-174 | for any file: every record that is read is put together from such fragments in the order they lie in the file, one of type 1, or one of type 2, some of type 3 and one of type 4 |
| `LogChecksum.DamageIsContained` | BucketList/Pods/leveldb-library/db/log_reader.cc:220-252 | behind any records, and any first fragments of another, bytes with a wrong checksum or too long a length take the rest of their block with them and no more: what lies before is read, and what starts in later blocks, and every drop is reported |
| `LogChecksum.DamageAtEnd` | BucketList/Pods/leveldb-library/db/log_reader.cc:237-252 | the same in the last block of the file |
| `LogChecksum.OneFragmentDamaged` | BucketList/Pods/leveldb-library/db/log_reader.cc:237-252 | in a log of any records the bytes of any one fragment are replaced so that its checksum does not fit: exactly the records before that one and the ones that start behind its block are read, and the rest of the block is reported first |
| `LogProofs.ReopenedWriterContinues` | BucketList/Pods/leveldb-library/db/log_writer.cc:27-30 | a writer reopened at the file's length writes the bytes the first writer would have written |
| `LogProofs.WriteLog` | BucketList/Pods/leveldb-library/db/log_writer.cc:23-80 | closing and reopening between records at will leaves the same log |
| `LogProofs.ReadLog` | BucketList/Pods/leveldb-library/db/log_reader.cc:56-174 | reading until the end returns the records and reports that the previous theorems speak about |
| `Snapshots.SnapshotList.New` | BucketList/Pods/leveldb-library/db/snapshot.h:57-70 | appends the snapshot; the ring stays a well-formed doubly linked circle over the live snapshots in creation order |
| `Snapshots.SnapshotList.Delete` | BucketList/Pods/leveldb-library/db/snapshot.h:79-86 | takes out exactly that snapshot and keeps the ring |
| `Snapshots.SnapshotList.Oldest` | BucketList/Pods/leveldb-library/db/snapshot.h:47-50 | the first live snapshot, which has the smallest sequence number |
| `Snapshots.SnapshotList.Newest` | BucketList/Pods/leveldb-library/db/snapshot.h:51-54 | the last live snapshot, which has the largest sequence number |
| `Snapshots.SnapshotList.Empty` | BucketList/Pods/leveldb-library/db/snapshot.h:46 | whether there is no live snapshot |
| `Snapshots.SnapshotList.SmallestSnapshot` | BucketList/Pods/leveldb-library/db/db_impl.cc:890-894 | the oldest live snapshot's number, or LastSequence when there is none |
| `Snapshots.StepBounded` | BucketList/Pods/leveldb-library/db/db_impl.cc:1166-1174 | writes, new snapshots and releases keep the numbers ordered and never lower the bound |
| `Snapshots.SmallestBoundsTheFuture` | BucketList/Pods/leveldb-library/db/db_impl.cc:890-894 | the number a compaction chooses is at most every snapshot live at any later moment and every one that can be taken then |
| `Snapshots.CompactionInvisible` | BucketList/Pods/leveldb-library/db/db_impl.cc:878-1036 | so no read at a snapshot that is live, or is taken, from the start of a compaction on changes |
| `WriteBatch.IteratesAsBuiltIff` | BucketList/Pods/leveldb-library/db/write_batch.cc:42-80 | iterating a batch hands over exactly the operations it was built from and returns OK, if and only if all their keys and values are shorter than 2^32 bytes |
| `WriteBatch.OpsReadBack` | BucketList/Pods/leveldb-library/db/write_batch.cc:51-74 | the records of any such operations are read back in order to the end |
| `WriteBatch.IterateRep` | BucketList/Pods/leveldb-library/db/write_batch.cc:42-80 | for any bytes: the operations before the first bad record, and OK exactly if there is none and the count is right |
| `WriteBatch.RejectedHalfWayExample` | BucketList/Pods/leveldb-library/db/write_batch.cc:98-103 | a put of any short pair and one with a key of 2^32 bytes, whose length is cut to zero: the first is handed over, then the batch is rejected |
| `WriteBatch.WrongCountRejected` | BucketList/Pods/leveldb-library/db/write_batch.cc:75-77 | with any other count than that of its operations a batch is rejected, after all of them were handed over |
| `WriteBatch.BadRecordRejected` | BucketList/Pods/leveldb-library/db/write_batch.cc:55-73 | where a record should begin with 0 or 1 and does not, or is cut off behind that byte, iterating stops and the batch is rejected |
| `WriteBatch.HandedBeforeUnfit` | BucketList/Pods/leveldb-library/db/write_batch.cc:51-74 | of any batch with an operation that does not fit, those before it are handed over and it never is |
| `WriteBatch.WriteBatch.Put` | BucketList/Pods/leveldb-library/db/write_batch.cc:98-103 | the batch stays a header, a right count and the encodings of its operations, with this put at the end |
| `WriteBatch.WriteBatch.Delete` | BucketList/Pods/leveldb-library/db/write_batch.cc:105-109 | the same with this deletion at the end |
| `WriteBatch.WriteBatch.Append` | BucketList/Pods/leveldb-library/db/write_batch.cc:144-148 | the same with the other batch's operations at the end |
| `WriteQueue.BuildBatchGroup` | BucketList/Pods/leveldb-library/db/db_impl.cc:1260-1306 | the group is the longest run from the front that may join, and its contents are those of a batch of all their operations in order, with the right count |
| `WriteQueue.GroupIsUnique` | BucketList/Pods/leveldb-library/db/db_impl.cc:1260-1306 | that run is determined by the queue |
| `WriteQueue.GroupIsBounded` | BucketList/Pods/leveldb-library/db/db_impl.cc:1269-1297 | a group is at most a megabyte unless its first batch alone is more, and at most 128 kilobytes more than a first batch that is as small |
| `WriteQueue.WriterDeque.ReleaseGroup` | BucketList/Pods/leveldb-library/db/db_impl.cc:1239-1248 | pops exactly the group, once each, with the group's status |
| `WriteQueue.StepKeepsInv` | BucketList/Pods/leveldb-library/db/db_impl.cc:1185-1256 | every step of every interleaving keeps: the log records, of the appends that succeeded, and the memtable are the groups in queue order, sequence numbers contiguous, every arrival queued or released once |
| `WriteQueue.BeginKeepsInv` | BucketList/Pods/leveldb-library/db/db_impl.cc:1202-1207 | a group that starts takes the sequence numbers after LastSequence |
| `WriteQueue.FinishKeepsInv` | BucketList/Pods/leveldb-library/db/db_impl.cc:1234-1248 | publishing the last sequence number and releasing the group keeps the invariant, whatever the status |
| `WriteQueue.RunOnlyAppends` | BucketList/Pods/leveldb-library/db/db_impl.cc:1185-1256 | over any run nothing logged, inserted or released changes, and what a reader at an old LastSequence sees stays the same |
| `WriteQueue.RangesDisjoint` | BucketList/Pods/leveldb-library/db/db_impl.cc:1202-1236 | groups have disjoint sequence ranges in queue order, all up to LastSequence |
| `WriteQueue.InMemIff` | BucketList/Pods/leveldb-library/db/db_impl.cc:1206-1236 | the memtable holds under a group's numbers exactly the operations it inserted |
| `WriteQueue.GroupAsBuiltIff` | BucketList/Pods/leveldb-library/db/db_impl.cc:1223-1225 | what is inserted for a group is its writers' operations, accepted as a whole, if and only if all their keys and values are shorter than 2^32 bytes |
| `WriteQueue.InsertFailsDisabled` | BucketList/Pods/leveldb-library/db/db_impl.cc:1223-1225 | while every waiting writer's keys and values are that short, no insertion can fail |
| `WriteQueue.AllOrNothing` | BucketList/Pods/leveldb-library/db/db_impl.cc:1215-1236 | then a reader sees all of every finished group whose status is OK and nothing of every one that failed |
| `WriteQueue.SuccessfulGroupIsAtomic` | BucketList/Pods/leveldb-library/db/db_impl.cc:1215-1236 | with such keys and values, a group that succeeded is wholly visible from its commit on and wholly invisible at every earlier LastSequence |
| `WriteQueue.ReleasedWithGroupStatus` | BucketList/Pods/leveldb-library/db/db_impl.cc:1239-1248 | each writer of a group was released once, in arrival order, with the group's status |
| `WriteQueue.BatchInGroup` | BucketList/Pods/leveldb-library/db/db_impl.cc:1277-1305 | each writer's operations sit together in the group's batch, in order |
| `WriteQueue.OkMeansSynced` | BucketList/Pods/leveldb-library/db/db_impl.cc:1215-1225 | a writer that asked for sync is told OK only after its group was synced |
| `WriteQueue.ToldOk` | BucketList/Pods/leveldb-library/db/db_impl.cc:1202-1248 | over every run: a writer with a batch that was told OK was in a group that was logged, synced if the writer asked for it, and inserted as a whole |
| `WriteQueue.NothingAfterFailedSync` | BucketList/Pods/leveldb-library/db/db_impl.cc:1227-1232 | in no run does a group begin, or a writer without a batch return OK, after a group whose sync failed |
| `WriteQueue.PartialGroupExample` | BucketList/Pods/leveldb-library/db/db_impl.cc:1223-1236 | a batch with a key of 2^32 bytes behind a good put: the run in which its insertion fails leaves the first operation alone visible |
| `WriteQueue.SeenInPart` | BucketList/Pods/leveldb-library/db/db_impl.cc:1223-1236 | every finished group that was inserted, and of which the first operation fits and another does not, is seen in part |
| `WriteQueue.BadBatchExists` | BucketList/Pods/leveldb-library/db/write_batch.cc:98-103 | such a batch can be built |
| `LogContents.BuiltBatch` | BucketList/Pods/leveldb-library/db/write_batch.cc:132-137 | a record built from operations that fit and given the next sequence number is replayed as those operations with the next numbers |
| `LogContents.ContentsGrow` | BucketList/Pods/leveldb-library/db/db_impl.cc:410-445 | for any bytes: what recovery finds in a file it finds first in every longer file |
| `LogContents.ContentsOfLonger` | BucketList/Pods/leveldb-library/db/db_impl.cc:410-445 | one record more on a log on which nothing failed is one batch more at the end of what is found |
| `LogContents.ContentsOfCut` | BucketList/Pods/leveldb-library/db/db_impl.cc:410-445 | a record cut off anywhere at the end of such a log is found as a whole or not at all |
| `Durability.StepIsSafe` | BucketList/Pods/leveldb-library/db/db_impl.cc:535-566 | writing, failing to append or to sync, rotating, flushing, compacting, committing, deleting files, crashing and recovering, wherever failed appends are cut and with any bytes behind the synced part of a log after a crash: the version and the logs it needs hold every acknowledged write that a reader finds, on stable storage if it was synced |
| `Durability.RunIsSafe` | BucketList/Pods/leveldb-library/db/db_impl.cc:535-566 | so they do in every reachable state, and what was synced stays so |
| `Durability.WriteIsSafe` | BucketList/Pods/leveldb-library/db/db_impl.cc:1202-1236 | a write, whole or failed at any byte, loses nothing that was held |
| `Durability.RotateIsSafe` | BucketList/Pods/leveldb-library/db/db_impl.cc:1345-1367 | switching memtables keeps the old log among those still needed |
| `Durability.FlushedVersionLosesNothing` | BucketList/Pods/leveldb-library/db/db_impl.cc:550-555 | advancing the log number to the current log loses no acknowledged write, since no second switch can have happened |
| `Durability.CompactionCommitIsSafe` | BucketList/Pods/leveldb-library/db/db_impl.cc:860-876 | installing compaction results loses nothing, also when the manifest write fails and may or may not be durable |
| `Durability.DeleteIsSafe` | BucketList/Pods/leveldb-library/db/db_impl.cc:223-278 | deleting files that neither a live version, a pending output nor the log number needs loses nothing |
| `Durability.RecoveryIsSafe` | BucketList/Pods/leveldb-library/db/db_impl.cc:280-369 | recovery after a crash that keeps the synced part of each log, with anything behind it, gives such a state again |
| `Durability.UndamagedHasNoStrays` | BucketList/Pods/leveldb-library/db/db_impl.cc:1214-1215 | a write on a log on which nothing failed adds just its batch to what a reader finds, or nothing if it fails |
| `Durability.StepKeepsInv` | BucketList/Pods/leveldb-library/db/db_impl.cc:535-566 | if a reader of the logs finds no record that was not written and a crash only cuts them, every step also keeps the order of memtable, immutable memtable, tables and logs |
| `Durability.RunKeepsInv` | BucketList/Pods/leveldb-library/db/db_impl.cc:535-566 | so it holds in every state reached by such steps |
| `Durability.RotateKeepsOrder` | BucketList/Pods/leveldb-library/db/db_impl.cc:1345-1367 | the new memtable and its log are newer than the old memtable |
| `Durability.WriteKeepsOrder` | BucketList/Pods/leveldb-library/db/db_impl.cc:1202-1236 | a logged batch is newer than everything flushed and everything in the other logs |
| `Durability.WriteEndsKeepsOrder` | BucketList/Pods/leveldb-library/db/db_impl.cc:1226-1236 | the sequence numbers of a write may be published after any number of other steps that do not need the front of the queue |
| `Durability.FlushedVersionOk` | BucketList/Pods/leveldb-library/db/db_impl.cc:535-566 | the version a flush commits covers the immutable memtable, and the log it needs has only newer entries |
| `Durability.CompactionReplaces` | BucketList/Pods/leveldb-library/db/db_impl.cc:878-1036 | replacing table entries by what the drop loop keeps changes no read under any newer entries |
| `Durability.LoopIsAllowed` | BucketList/Pods/leveldb-library/db/db_impl.cc:878-1036 | replacing any input tables, merged in order, by outputs that hold what the drop loop keeps is a compaction the state machine allows, so the loop keeps the invariant; installed, the version holds just that and the inputs are gone from it |
| `Durability.RecoveryKeepsOrder` | BucketList/Pods/leveldb-library/db/db_impl.cc:280-369 | replayed entries are newer than the version recovery starts from, so the recovered layers are in order |
| `Durability.SyncedWritesSurvive` | BucketList/Pods/leveldb-library/db/db_impl.cc:280-369 | after any crash in any reachable state the recovered version holds every write acknowledged with sync that a reader of its log finds, whatever is appended to the log later |
| `Durability.AckedWritesSurviveRestart` | BucketList/Pods/leveldb-library/db/db_impl.cc:280-369 | if the files are intact it holds every acknowledged write that a reader finds |
| `Durability.ReplayNewer` | BucketList/Pods/leveldb-library/db/db_impl.cc:316-362 | the entries recovery replays are newer than those of the version it starts from |
| `Durability.LiveReads` | BucketList/Pods/leveldb-library/db/db_impl.cc:1100-1145 | in every reachable state memtable, immutable memtable and tables are ordered newest first, and reading them is reading everything flushed and buffered |
| `Durability.WrittenIsVisible` | BucketList/Pods/leveldb-library/db/db_impl.cc:1223-1236 | once a write has ended its batch is in the memtable and readers see it |
| `Durability.FlushFreesLogs` | BucketList/Pods/leveldb-library/db/db_impl.cc:535-566 | switching memtables, flushing and deleting files can follow each other, and then all that was in the memtable is in tables of the version and only the new, empty log is left |
| `Durability.NoSyncedWriteLost` | BucketList/Pods/leveldb-library/db/db_impl.cc:535-566 | over every run from a new database, with any failures before and after, and any crash at its end: a write acknowledged with sync while nothing had failed on its log is in the recovered version |
| `Durability.CleanWriteIsFound` | BucketList/Pods/leveldb-library/db/db_impl.cc:1214-1225 | a write on a log on which nothing has failed is found by a reader, so it counts as acknowledged, and as synced if asked |
| `Durability.RecoveredIff` | BucketList/Pods/leveldb-library/db/db_impl.cc:280-369 | after any crash the recovered version covers exactly what was flushed and what is found in the logs still needed, all of it in tables, and the log and memtable are empty |
| `Durability.RecoveredReads` | BucketList/Pods/leveldb-library/db/db_impl.cc:280-369 | over every run in which no stray record is found in a log, ending in a crash that cuts the logs, reads of the recovered tables answer as reads of all they cover |
| `Durability.SurvivesEveryCrashIff` | BucketList/Pods/leveldb-library/db/db_impl.cc:280-369 | in any reachable state, whatever bytes the logs hold: an entry is in the recovered version after every crash if and only if it has been flushed or a reader finds it in the synced part of a needed log |
| `Durability.HiddenSurvivesIff` | BucketList/Pods/leveldb-library/db/db_impl.cc:1215-1236 | a write that was acknowledged, with sync or not, and that no reader of its log finds is there after a crash that cuts the logs, however little it cuts, if and only if it has been flushed |
| `Durability.FoundBehindWholeFragments` | BucketList/Pods/leveldb-library/db/db_impl.cc:1214-1225 | a write on a log damaged between two fragments, or before the first of a record, is found if no trailer was written since and it ends in the block the reader is in |
| `Durability.NothingFoundBehindHeader` | BucketList/Pods/leveldb-library/db/db_impl.cc:1214-1225 | no write is found behind a header whose payload is missing while less has been written than it announces |
| `Durability.HeaderLeftLosesBatch` | BucketList/Pods/leveldb-library/db/db_impl.cc:1215-1229 | for any two such batches in one block: the append of the first fails behind its header, the second is shorter, synced and acknowledged, and no crash keeps it |
| `Durability.NothingLeftKeepsBatch` | BucketList/Pods/leveldb-library/db/db_impl.cc:1215-1229 | for any two batches in one block: the append of the first leaves nothing, and every crash keeps the second |
| `Durability.SuchBatches` | BucketList/Pods/leveldb-library/db/write_batch.cc:98-103 | a put of a hundred bytes and a short put are two such batches |
| `DbImpl.Get` | BucketList/Pods/leveldb-library/db/db_impl.cc:1100-1145 | asking the memtable, then the immutable one, then the version gives the newest visible version of their union |
| `DbImpl.UpperLayerDecides` | BucketList/Pods/leveldb-library/db/db_impl.cc:1125-1134 | a layer with newer versions answers for a layer below unless it has none |
| `DbImpl.GetReadsEverything` | BucketList/Pods/leveldb-library/db/db_impl.cc:1100-1145 | every reachable state meets what Get relies on, and its answer is a read of everything held |
| `DbImpl.MakeRoomForWrite` | BucketList/Pods/leveldb-library/db/db_impl.cc:1310-1370 | on any observations: a turn delays exactly if it is the first unforced one that finds 8 tables or more at level 0; it switches exactly if it does not delay, the memtable is full or a forced switch is due, nothing is flushing, level 0 has fewer than 12 tables and the file opens; it waits only for a flush or for level 0; it returns ready only with room and after a forced switch, and refuses only for an error |
| `DbImpl.RoomIsUnique` | BucketList/Pods/leveldb-library/db/db_impl.cc:1310-1370 | this determines every action and the answer |
| `DbImpl.NothingOutstandingIsQuick` | BucketList/Pods/leveldb-library/db/db_impl.cc:1342-1367 | while nothing is outstanding no turn waits, and if a switch makes room then one delay and one switch at most come before the write goes on |
| `DbImpl.DeleteObsoleteFiles` | BucketList/Pods/leveldb-library/db/db_impl.cc:223-278 | exactly these go: manifests older than the one in use, logs below the log number that are not the previous one, tables and temporary files that are neither pending nor in a version; after a background error nothing goes |
| `DbImpl.RestartFilesStay` | BucketList/Pods/leveldb-library/db/db_impl.cc:243-264 | CURRENT, the manifest in use and newer ones, the version's tables and the logs it needs stay, so the database can be opened again, and so do the lock, info logs, pending temporary files and names that do not parse |
| `DbImpl.DeletionIsTheStep` | BucketList/Pods/leveldb-library/db/db_impl.cc:223-278 | what the loop leaves of the logs and tables is what the deletion step of the state machine leaves, so nothing acknowledged is lost, and the version a restart would find can be opened from what is left |
| `DbImpl.RecoverLogFile` | BucketList/Pods/leveldb-library/db/db_impl.cc:371-489 | the tables written hold the log's records in order, however often the memtable filled up, and the largest sequence number is found |
| `DbImpl.Recover` | BucketList/Pods/leveldb-library/db/db_impl.cc:323-366 | all needed logs are replayed in order of number and the last sequence is the largest seen |
| `DbImpl.RaisedIsMaximum` | BucketList/Pods/leveldb-library/db/db_impl.cc:435-439 | the number computed from the sequence number and the count of a batch is the largest of all its entries' numbers and the one so far |
| `Varint.EncodeVarintBuffer` | BucketList/Pods/nanopb/pb_encode.c:608-628 | the loop writes the base 128 form of any 64-bit value and never needs more than its ten bytes |
| `Varint.DecodeAfterEncode` | BucketList/Pods/nanopb/pb_decode.c:255-275 | decoding an encoded 64-bit value, whatever follows, returns it and consumes exactly its bytes |
| `Varint.AnyVarint64` | BucketList/Pods/nanopb/pb_decode.c:255-275 | for any stream: the decoder takes at most ten bytes, of which all but the last announce another, and gives their number modulo 2^64 |
| `Varint.Decode32AfterEncode` | BucketList/Pods/nanopb/pb_decode.c:187-247 | on the encoding of any 64-bit value the 32-bit decoder returns its low 32 bits or an overflow, as Accepts32 says |
| `Varint.Accepted32` | BucketList/Pods/nanopb/pb_decode.c:221-242 | values below 2^32 and sign-extended negative 32-bit values are accepted, everything else below 2^63 is rejected |
| `Varint.NotSignExtendedExample` | BucketList/Pods/nanopb/pb_decode.c:221-230 | one accepted value that is not a sign extension |
| `Varint.ZigZagBijection` | BucketList/Pods/nanopb/pb_encode.c:630-639 | the shifts and complements are a bijection with small magnitudes first |
| `Varint.SvarintRoundTrip` | BucketList/Pods/nanopb/pb_decode.c:1279-1291 | signed values survive encoding, in at most ten bytes |
| `FieldIter.OffsetIsMember` | BucketList/Pods/nanopb/pb_common.c:40-74 | for a table made from member offsets, the sum the iterator keeps is the member's offset |
| `FieldIter.UnionSharesStorage` | BucketList/Pods/nanopb/pb_common.c:44-50 | all members of a union have the data and the tag address of the first |
| `FieldIter.FieldIterator.Begin` | BucketList/Pods/nanopb/pb_common.c:8-18 | the iterator is at the start of the table in a valid state; false for an empty table |
| `FieldIter.FieldIterator.Next` | BucketList/Pods/nanopb/pb_common.c:20-76 | one position on or back to the start, with data pointer, size pointer and required index equal to their closed forms however many laps there were |
| `FieldIter.FieldIterator.Find` | BucketList/Pods/nanopb/pb_common.c:78-95 | at most one lap; succeeds exactly if a non-extension field has the tag, at the first one from here on; otherwise the position is unchanged |
| `FieldIter.FieldIterator.FindExtension` | BucketList/Pods/nanopb/pb_decode.c:825-836 | stops at an extension placeholder, or leaves the position unchanged |
| `FieldIter.LapIsComplete` | BucketList/Pods/nanopb/pb_common.c:82-94 | a lap that comes back to its start has looked at every field |
| `PbEncode.OStream.Write` | BucketList/Pods/nanopb/pb_encode.c:103-124 | puts the bytes at the stream's place or fails for lack of room without writing; a sizing stream counts them |
| `PbEncode.OStream.PutString` | BucketList/Pods/nanopb/pb_encode.c:709-715 | the length and then the content |
| `PbEncode.TextLength` | BucketList/Pods/nanopb/pb_encode.c:888-896 | the length of the text before the first NUL |
| `PbEncode.PutValue` | BucketList/Pods/nanopb/pb_encode.c:769-912 | each datum goes out in the encoding of its type, or the call fails for a bad size or descriptor |
| `PbEncode.PutSubmessage` | BucketList/Pods/nanopb/pb_encode.c:717-765 | writes the length and the content, the second pass takes exactly the counted bytes and "submsg size changed" cannot happen |
| `PbEncode.SubstreamTakesAll` | BucketList/Pods/nanopb/pb_encode.c:740-764 | a substream limited to the counted size takes the whole payload, and its parent's state is then right |
| `PbEncode.PackedSize` | BucketList/Pods/nanopb/pb_encode.c:169-189 | the size computed for a packed array is that of its payload |
| `PbEncode.PutPackedField` | BucketList/Pods/nanopb/pb_encode.c:164-205 | a packed array is its tag, its size and its entries, on a writing and on a sizing stream |
| `PbEncode.PutUnpacked` | BucketList/Pods/nanopb/pb_encode.c:208-233 | other arrays are entries with a tag each |
| `PbEncode.PutArray` | BucketList/Pods/nanopb/pb_encode.c:147-236 | nothing for no entries, an error for too many, packed where the type allows |
| `PbEncode.PutField` | BucketList/Pods/nanopb/pb_encode.c:341-426 | which fields are sent: required, optional with the flag or a non-zero value, repeated by count, the active member of a union |
| `PbEncode.PutMessage` | BucketList/Pods/nanopb/pb_encode.c:528-550 | the fields in table order; succeeds exactly if the encoding exists and there is room |
| `PbEncode.EncodedSize` | BucketList/Pods/nanopb/pb_encode.c:567-576 | the sizing stream counts exactly the bytes of the encoding |
| `PbEncode.EncodeToBuffer` | BucketList/Pods/nanopb/pb_encode.c:86-101 | a buffer stream receives exactly those bytes, succeeds exactly if they fit, and leaves the rest of the buffer alone |
| `PbWire.VarintOnWire` | BucketList/Pods/nanopb/pb_encode.c:608-628 | a varint is the number in groups of seven bits, the lowest first, with the high bit on all bytes but the last |
| `PbWire.TagOnWire` | BucketList/Pods/nanopb/pb_encode.c:669-673 | a tag is a varint of the field number times eight and the wire type |
| `PbWire.FieldOnWire` | BucketList/Pods/nanopb/pb_encode.c:675-706 | whatever a field sends is whole records with its number, in wire type 0 with a varint, 1 with eight bytes, 2 with a length and as many bytes or 5 with four bytes, as its type demands; packed arrays are of type 2 |
| `PbWire.SentFieldIsUnknown` | BucketList/Pods/nanopb/pb_decode.c:321-331 | so a decoder whose table lacks the field passes over all it sends |
| `PbWire.TableWithFewerFields` | BucketList/Pods/nanopb/pb_decode.c:960-989 | a decoder whose table lacks some of a struct's fields makes of its encoding, success or failure, what it makes of the encoding without those fields |
| `PbStream.IStream.Read` | BucketList/Pods/nanopb/pb_decode.c:102-137 | takes that many bytes or fails and takes none |
| `PbStream.IStream.ReadVarint32` | BucketList/Pods/nanopb/pb_decode.c:187-247 | the loop computes the 32-bit decoding of what the stream holds and consumes exactly it |
| `PbStream.IStream.ReadVarint` | BucketList/Pods/nanopb/pb_decode.c:255-275 | the loop computes the 64-bit decoding and consumes exactly it |
| `PbStream.IStream.ReadTag` | BucketList/Pods/nanopb/pb_decode.c:298-319 | a tag and wire type, the end of a zero-terminated message, or an error |
| `PbStream.IStream.Skip` | BucketList/Pods/nanopb/pb_decode.c:321-331 | passes over exactly one payload of the wire type |
| `PbStream.IStream.MakeSubstream` | BucketList/Pods/nanopb/pb_decode.c:372-385 | the substream holds exactly the announced bytes, which the parent must have |
| `PbStream.IStream.CloseSubstream` | BucketList/Pods/nanopb/pb_decode.c:387-400 | the parent continues right behind the content, also if not all of it was read |
| `PbStream.SetToDefaults` | BucketList/Pods/nanopb/pb_decode.c:839-922 | every field gets its default, nested structs recursively, arrays and unions empty |
| `PbStream.DecodeValue` | BucketList/Pods/nanopb/pb_decode.c:1328-1439 | each datum is read in the encoding of its type; a number that does not fit its field is an error |
| `PbStream.DecodeBytes` | BucketList/Pods/nanopb/pb_decode.c:1441-1564 | byte strings, texts and fixed-length bytes, with their size checks |
| `PbStream.DecodeSubmessage` | BucketList/Pods/nanopb/pb_decode.c:1519-1541 | decodes the content into defaults or into what is there and leaves the stream behind it |
| `PbStream.DecodePacked` | BucketList/Pods/nanopb/pb_decode.c:425-453 | stores entries until the content ends; more than the array takes is an error |
| `PbStream.DecodeStatic` | BucketList/Pods/nanopb/pb_decode.c:406-483 | what one occurrence of a field does to the struct and the stream |
| `PbStream.DecodeField` | BucketList/Pods/nanopb/pb_decode.c:991-1024 | notes a required field as seen and starts or continues a fixed-count array before decoding |
| `PbStream.CheckComplete` | BucketList/Pods/nanopb/pb_decode.c:1026-1073 | accepts exactly if the last fixed-count array is full and the first 64 required fields were all seen |
| `PbStream.DecodeNoinit` | BucketList/Pods/nanopb/pb_decode.c:928-1076 | the loop over fields computes the struct that the bytes determine, or fails exactly if they determine none |
| `PbStream.DecodeMessage` | BucketList/Pods/nanopb/pb_decode.c:1078-1090 | the same from defaults |
| `PbRecords.RecordTakes` | BucketList/Pods/nanopb/pb_decode.c:946-1024 | decoding or skipping a record takes the bytes that its field's type, or else its wire type, says |
| `PbRecords.MissingRequiredFails` | BucketList/Pods/nanopb/pb_decode.c:1034-1073 | a stream in which the number of a required field with fewer than 64 before it does not come never decodes, into whatever struct |
| `PbRecords.DecodesIffRequired` | BucketList/Pods/nanopb/pb_decode.c:1026-1073 | a stream whose fields can be decoded is accepted exactly if the last fixed-count array is full and the number of each such field comes |
| `PbWire.RequiredLeftOutFails` | BucketList/Pods/nanopb/pb_decode.c:1034-1073 | an encoding from which a required field's records are left out does not decode |
| `PbFits.DecodedFits` | BucketList/Pods/nanopb/pb_decode.c:1328-1564 | whatever the stream, the struct that is decoded fits its table: arrays in their size, numbers in their type, byte strings and texts with their NUL in their buffers, nested structs too |
| `PbFits.StructFits` | BucketList/Pods/nanopb/pb_decode.c:928-1076 | the same when decoding into a struct that fits |
| `PbFits.FixedArraysAreFull` | BucketList/Pods/nanopb/pb_decode.c:1026-1032 | a fixed-count array of which an entry comes has every entry stored, or decoding fails |
| `PbAbsent.AbsentFieldsAreKept` | BucketList/Pods/nanopb/pb_decode.c:928-1076 | a slot is left alone if none of its fields comes |
| `PbAbsent.AbsentFieldsAreDefault` | BucketList/Pods/nanopb/pb_decode.c:839-922 | in a newly decoded struct what did not come has its flag not set, no entries and no active member, and the table's default in it, nested structs too |
| `PbOddStreams.LastWins` | BucketList/Pods/nanopb/pb_decode.c:406-483 | of two values of a singular field, or of two members of a union, that are no messages the later one counts |
| `PbOddStreams.NestedMessagesMerge` | BucketList/Pods/nanopb/pb_decode.c:1519-1541 | a nested message that comes again is merged: nested slots are kept of whose fields none comes |
| `PbOddStreams.MergedInto` | BucketList/Pods/nanopb/pb_decode.c:466-483 | array entries, and messages that replace another member of their union, are decoded from defaults; other messages into what the field holds |
| `PbOddStreams.TooManyFail` | BucketList/Pods/nanopb/pb_decode.c:454-464 | more tagged entries than an array takes are an error |
| `PbOddStreams.TooManyPackedFail` | BucketList/Pods/nanopb/pb_decode.c:425-453 | so are more packed entries |
| `PbOddStreams.UnsignedIff` | BucketList/Pods/nanopb/pb_decode.c:1376-1398 | an unsigned number is taken exactly if the field's type can hold it |
| `PbOddStreams.SignedIff` | BucketList/Pods/nanopb/pb_decode.c:1339-1374 | a signed number is the low 64 bits, or 32 in a smaller field, taken as signed, and is taken exactly if that fits |
| `PbOddStreams.ZigZagIff` | BucketList/Pods/nanopb/pb_decode.c:1400-1422 | a zigzag number is taken exactly if it fits |
| `PbOddStreams.BoolIs` | BucketList/Pods/nanopb/pb_decode.c:1328-1337 | a bool is set by any number but zero |
| `PbOddStreams.ZeroEndsMessage` | BucketList/Pods/nanopb/pb_decode.c:298-319 | a zero byte where a tag is expected ends the message |
| `PbOddStreams.BytesIff` | BucketList/Pods/nanopb/pb_decode.c:1441-1564 | byte strings, texts and fixed-length bytes of any content are taken as they are or, if they do not fit, not at all |
| `PbOddStreams.BadWireTypeFails` | BucketList/Pods/nanopb/pb_decode.c:321-331 | an unknown tag with a wire type that is none of 0, 1, 2 and 5 is an error |
| `PbOddStreams.CutRecordFails` | BucketList/Pods/nanopb/pb_decode.c:946-1024 | a stream that ends inside a record, known or not, does not decode, whatever came before |
| `PbRoundTrip.TagReads` | BucketList/Pods/nanopb/pb_encode.c:669-673 | every tag below 2^29 with every wire type reads back |
| `PbRoundTrip.DelimitedReads` | BucketList/Pods/nanopb/pb_encode.c:709-715 | every length prefix equals its payload's length and the substream it makes is the payload; a payload of 2^32 bytes or more cannot be read |
| `PbRoundTrip.NumberReads` | BucketList/Pods/nanopb/pb_decode.c:1328-1439 | every number of the field's C type survives in each of the six numeric encodings |
| `PbRoundTrip.CastBack` | BucketList/Pods/nanopb/pb_decode.c:1347-1371 | casting to 32 bits first loses nothing of a number that fits its field |
| `PbRoundTrip.BytesRead` | BucketList/Pods/nanopb/pb_decode.c:1441-1564 | byte strings survive; a text does exactly if it has room for its NUL |
| `PbRoundTrip.ValueReads` | BucketList/Pods/nanopb/pb_decode.c:1519-1541 | one datum survives, nested messages included, exactly if it can be read back |
| `PbRoundTrip.PackedReads` | BucketList/Pods/nanopb/pb_decode.c:425-453 | a packed array is restored entry by entry |
| `PbRoundTrip.UnpackedReads` | BucketList/Pods/nanopb/pb_decode.c:454-464 | an array of tagged entries is restored, counted or of fixed count, numbers included |
| `PbRoundTrip.FieldStep` | BucketList/Pods/nanopb/pb_decode.c:946-1024 | decoding one sent field sets its slot to what was sent and leaves the others, or fails exactly if something it sent cannot be read back |
| `PbRoundTrip.RoundTrip` | BucketList/Pods/nanopb/pb_decode.c:928-1090 | for every table and every struct that encodes, decoding the encoding fails exactly if a text that was sent has no room for its NUL or a packed array or nested message that was sent is too long for a 32-bit length, and otherwise gives the defaults with every sent field over them |
| `PbRoundTrip.RestoredFields` | BucketList/Pods/nanopb/pb_decode.c:928-1090 | every field that is sent has its own content back, and a slot of which nothing is sent has its default, which is not always the content it had (`PbContent.SameContentIff`) |
| `PbRoundTrip.UnterminatedExample` | BucketList/Pods/nanopb/pb_decode.c:1508-1512 | a required text that fills its buffer encodes and does not decode |
| `PbContent.DecodeKeepsContentIff` | BucketList/Pods/nanopb/pb_decode.c:1078-1090 | decoding an encoded struct succeeds with a struct of the same content if and only if what was sent can be read back and every zero stored in a field without a has-flag, nested messages included, is that field's default |
| `PbContent.SameContentIff` | BucketList/Pods/nanopb/pb_encode.c:355-359 | the restored struct has the content of the original (same flags, entries, active members and values, recursively) if and only if every zero stored in a field without a has-flag is its default |
| `PbContent.UnsentContent` | BucketList/Pods/nanopb/pb_encode.c:240-337 | a field the encoder takes for unset has the content of its default, except a zero in a field without a has-flag whose default is not zero |
| `PbContent.ZeroContent` | BucketList/Pods/nanopb/pb_encode.c:271-336 | such a zero, of any type and any depth of nesting, has the content of the default exactly if the table gives no other default |
| `PbContent.TableRestoresZeros` | BucketList/Pods/nanopb/pb_decode.c:874-892 | with no default other than zero for such fields in a table and the tables nested in it, every struct has its zeros back |
| `PbContent.StoredZeroExample` | BucketList/Pods/nanopb/pb_decode.c:881-885 | an integer without a has-flag and with default 5: a stored 0 is not sent and decodes to 5 |
| `PbUnknown.RecordLocal` | BucketList/Pods/nanopb/pb_decode.c:946-1024 | decoding or skipping one field depends only on the bytes it takes |
| `PbUnknown.StripKeepsResult` | BucketList/Pods/nanopb/pb_decode.c:960-989 | taking all unknown fields out of any stream, well-formed or not, leaves what the loop does unchanged |
| `PbUnknown.UnknownFieldsDoNotMatter` | BucketList/Pods/nanopb/pb_decode.c:928-1076 | and so the result of decoding any struct |
| `PbUnknown.BoundarySplits` | BucketList/Pods/nanopb/pb_decode.c:946-1024 | behind bytes that end at a field boundary decoding goes on the same whatever comes next |
| `PbUnknown.InsertingUnknownFields` | BucketList/Pods/nanopb/pb_decode.c:960-989 | putting unknown fields in at any field boundary leaves the result of decoding unchanged, success or failure |
| `PbNested.InsertingAtAnyDepth` | BucketList/Pods/nanopb/pb_decode.c:1519-1541 | the same for unknown fields put in at any field boundary of a message nested at any depth, with its length prefixes adjusted |
| `PbUnknown.WellFormedUnknown` | BucketList/Pods/nanopb/pb_decode.c:278-331 | any tag not in the table with any well-formed payload of wire type 0, 1, 2 or 5 is such a field |
| `PbUnknown.RoundTripWithUnknownFields` | BucketList/Pods/nanopb/pb_decode.c:928-1090 | an encoded message that can be read back is still restored with unknown fields between any two of its fields |

## Left out

- The application's own Swift code and its user interface libraries: Firebase calls, views and plain data, with nothing hard to state.
- Skip list, version set, table builder and reader, merging iterator, block cache and arena of LevelDB are not part of this model. They appear as sorted collections with stated contracts; the checksum is an uninterpreted function.
- Files, clocks, statistics, logging, sleeping on slow writes, read sampling, memory reference counts and paranoid checks.
- The log reader's non-zero initial offset and its resynchronisation, and reading with checksums switched off.
- A retry of a flush after a failed manifest write: no version commits again until the database is reopened.
- Recovery that reuses the last log file (`reuse_logs`) is not a step of `Durability`. What is read back from such a log is proved where the crash cut it between fragments (`LogDamage.ReopenedBehindWholeFragments`); where it cut one, that depends on checksums of bytes from two records.
- Log.Reader.ReadPhysicalRecord: a read of the file that fails, and its report.
- WriteQueue.StepKeepsInv: the log is the list of records whose appending succeeded. What a failed append leaves in the file, and what it does to later records, is part of `Log`, `LogDamage` and `Durability`.
- Durability.WriteIsSafe: inserting a logged batch cannot fail, since its operations fit (`WriteQueue.InsertFailsDisabled`), and it counts as written from the moment it is logged, which is before its writers are told.
- Durability.RecoveryIsSafe: recovery always commits a new version, also where the code finds no reason to write the manifest.
- Durability.StepKeepsInv: says nothing of runs in which a reader finds a record in a damaged log that was not written. Of these `Durability.StepIsSafe` holds.
- DbImpl.RecoverLogFile: a log that cannot be opened or read, reuse of the log, and the largest sequence number where a batch is malformed or empty or its numbers exceed 56 bits; `LogContents.BatchEntries` takes such numbers modulo 2^56.
- DbImpl.Recover: the previous log number of old databases, and the check for missing files.
- DbImpl.DeleteObsoleteFiles: eviction of deleted tables from the table cache.
- Batches of more than 2^31 - 1 operations, whose count overflows an int.
- The mutex and condition variables as such: `WriteQueue` and `Durability` are state machines, not methods that block. `WriteQueue` has a step for everything a writer does while others may run. In `Durability` logging and inserting are one step, which is made with the mutex released, and publishing the sequence numbers is another.
- WriteQueue.BuildBatchGroup: a writer without a batch that is absorbed into another writer's group is released with it, as in the code, and so does not force a new memtable; that effect on its caller is not stated.
- MemTable.MemTable.Add: the skip list is a sorted sequence of encoded entries, and the seek walks it from the front; the arena buffer the entry is built in is a value. Internal keys and values are shorter than 2^32 bytes, which the code takes for granted.
- Compaction.CompactionState.DoCompactionWork: flushing an immutable memtable in the middle of a compaction is a step of `Durability` and not of this loop; stopping before a grandparent overlap is an arbitrary answer of the environment. The results are installed by the commit steps of `Durability`.
- nanopb fields that are callbacks or pointers, and extensions with registered handlers; an extension placeholder has none. Custom streams, `PB_WITHOUT_64BIT`, `PB_BUFFER_ONLY` and `PB_ENABLE_MALLOC` builds.
- Which error message a failed nanopb call leaves behind, and what a failed call leaves in the struct or behind the stream.
- Wrap-around of `size_t` counters in streams; the cast of a size to 64 bits is modelled.
- Memory layout of messages: a struct is a slot per field, and members of a union share one. The offsets themselves are proved in `FieldIter` only. A fixed-count array that has not been decoded holds unset values instead of what memory held.
- PbStream.SetToDefaults: a fixed-count array is left unset; the code clears the first bytes of it, taking them for a count.
- PbStream.CheckComplete: the required fields seen are a set of indices below 64, not two 32-bit words.
- PbEncode.PutValue: a value the field's C type cannot hold makes the call fail; in C there is no such value.
- PbStream.DecodeField: an empty table's terminator answers to field number 0 as a bool, as in the code; the byte it stores has no slot.
- Bit operations of the varint code are written with remainders, powers of two and a recursive bitwise or on numbers.
- PbRoundTrip.RoundTrip: stated for encodings shorter than 2^63 bytes, more than any memory holds.
