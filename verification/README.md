# A verified model of the broker's log engine

This project models the durable core of a single-node message broker and proves what it promises: the segmented
partition log with its sparse index and crash recovery, the batch format, the consumer offset log, the handlers that
tie the two together, topic creation as a transaction, and the claim protocols of the load generator.

How it is built:

- **Formats** (`Format`, `FormatProofs`, `RoundTrip`, `Codec`, `OffsetFormat`, `Layout`, `Corruption`, `Utf8`). A grammar
  says which bytes a value is spelled with. The parsers are proved to accept exactly the grammar. The array and loop code of the encoder and the
  decoder is proved to compute the grammar and the parser. Running past the end of a slice is an outcome of its own
  (`Panicked`), so nothing is assumed about reads being in bounds. `Layout` gives the position and the number in every
  field, most significant byte first. `Corruption` says which changes of the bytes are detected.
- **State** (`SegmentFile`, `StoreState`, `StoreSteps`, `Appending`, `Retention`, `OffsetLog`). The state of a segment, a
  store and an offset store as values, each with a validity predicate, functions that say what an operation makes of it
  for every outcome of its I/O, and lemmas that validity is kept.
- **Classes** (`SegmentClass.Segment`, `PartitionStore.Store`, `OffsetStore.OffsetStore`, `Broker.BrokerServer`,
  `TopicManager.Manager`). The methods with their loops and branches. Each method says what it does to the value.
- **Specification** (`LogSpec`, `OffsetSpec`). A partition is one growing list of batches. A beginning of it may have been
  retained away, a beginning is on stable storage, and the rest may be lost in a crash. `Store.Model` maps the store to
  it, and every method is a step of it (`LogRuns.LiveStep`, `LogRuns.AnyStep`, `OffsetRuns.Step`), which the contracts say.
- **Crashes and restarts** (`Crash`, `Opening`, `Losses`, `Restart`, `Decisions`, `Interrupted`, `Midway`). What a crash
  leaves, what recovery makes of it, when a restart gives the same store back, and crashes during recovery and between
  any two file operations of a call.
- **Runs** (`Lifecycle`, `LogRuns`, `OffsetRuns`, `Broker`, `Consuming`, `ConsumerClaims`, `ProducerClaims`, `Continuity`).
  Properties of every run, with crashes at any point and any interleaving.
- **What a client gets** (`Delivery`, `Reading`, `DiskUse`, `Packing`). The records read back are those sent, the budget of
  a read in bytes on the wire, the disk space retention measures, and how full segments are.
- **Failing runs** (`CommitLoss`, `RestartLoss`, `PackingLoss`). The calls that break what one might expect, one by one.

Crashes: a file is a byte sequence with the length known to be synced. A crash leaves any beginning of each file that
has at least the synced part. After a power loss what is found is durable. After a process kill everything written is
found, synced or not. I/O outcomes and the clock are parameters, so every failure path is covered. Each store method is
one atomic step, because the store's lock makes it one. A crash inside a method is a crash after some outcome of it:
whatever part of the file operations of an append or of retention has been done, there is an outcome with exactly these
files (`Midway.AppendMoment`, `Midway.RetainMoment`). The validity predicates are met: `Opening.EmptyStore` makes a valid
store.

Four statements one might expect turn out to hold only under a condition. Each is proved as an if-and-only-if, and each
has an input on which it fails.

- An accepted commit stays within the log if and only if its offset was at most the *durable* end of the log when it was
  checked (`Broker.CommitSafeExactly`, `LogRuns.SafeExactly`). The handler compares with the log end, which a failed
  flush has already moved, and it does not look at the poison flag. `CommitLoss.CommitPastEnd` is the run that breaks it,
  call by call, through the poisoned store or through a store that read the batch back after a process kill without
  syncing it. In sync mode, with power losses only and no commit checked against a poisoned store, the check is enough
  (`Broker.FetchedInRange`).
- With all index writes complete, closing and reopening gives the same store if and only if every index can be reread:
  its file is at most 64 MiB, the largest that is read back, or it is the one a rebuild makes (`Restart.CleanReopen`,
  `Lifecycle.CloseAndReopen`). Indexes that were never read back from a file are always of that kind
  (`Decisions.ExactReread`), so a store that was not restarted before comes back the same. `RestartLoss.RestartForgets` is
  a store that does not: a crash takes an index entry, recovery keeps the index without it, and 5,592,405 appends later
  the file is over the limit and one entry short of a rebuilt one.
- Decoding undoes encoding if and only if the batch is encodable: the offset distance from the first record fits 32 bits,
  the age below `max(0, largest timestamp)` fits 63 bits, keys and values are shorter than 2^31 bytes, and the batch
  length fits 32 bits (`RoundTrip.DecodeEncode`). Two records whose offsets are 2^32 apart are not read back
  (`RoundTrip.FarApart`).
- A closed segment had no room for the first batch of the next one, in every run of appends and retentions, whatever
  fails (`Packing.RunPacked`), and recovery keeps it so (`Packing.ReopenedPacked`). If recovery comes back with an empty
  segment behind a closed one, it stays so if and only if there was no room for the next batch appended
  (`Packing.UnsettledExactly`). `PackingLoss.PackingLost` is the run in which there was: the rollover for a wide batch
  fails, and after the restart a small one takes its place.

Where the code and its documentation differ, the model follows the code: an offset entry's length field is 32 plus the
two name lengths (internal/offsets/store.go:254), while docs/storage_format.md:91 says 28.

## Model

| member | source | states |
|---|---|---|
| FormatProofs.DecodeSound | internal/storage/format.go:146-314 | whatever the decoder accepts begins with the encoding of what it returns, under the header's own base offset and timestamp, and the encoding ends where the length field says |
| FormatProofs.DecodeComplete | internal/storage/format.go:146-314 | every input that begins with an encoding that fits is accepted, and gives back the records, base offset and timestamp it was made from |
| FormatProofs.RecordSound | internal/storage/format.go:201-306 | a record that parses is spelled by the bytes consumed, deltas and ages included |
| FormatProofs.RecordComplete | internal/storage/format.go:201-306 | the spelling of a record that fits parses to it and ends where the spelling ends |
| FormatProofs.HeaderListExact | internal/storage/format.go:253-296 | a header list parses to `hs` up to `end` exactly when those bytes spell `hs` |
| FormatProofs.LengthExact | internal/storage/format.go:158-191 | for a batch that fits, the length field and the record count are exact and pass the plausibility bounds |
| Layout.Put32Order | internal/storage/format.go:76-82 | a 32-bit field is big-endian: its bytes denote the number to the base 256, and two fields are ordered as the first byte in which they differ |
| Layout.Put64Order | internal/storage/format.go:79-82 | the same for 64-bit fields |
| Layout.BatchLayout | internal/storage/format.go:75-82 | magic, version, length, checksum, first offset, record count and largest timestamp of every encoded batch, each at its position with its number, and the records from byte 33 on |
| Layout.SmallBatch | internal/storage/format.go:77 | the length field of a batch with less than 256 bytes behind it is three zero bytes and that number |
| Layout.RecordLayout | internal/storage/format.go:84-121 | offset delta, age, key, value and headers of every record, each at its position; a nil field has the length 2^32 - 1 |
| Layout.HeaderLayout | internal/storage/format.go:122-134 | key and value of a header with their lengths, in this order |
| Layout.RecordsFollow | internal/storage/format.go:84-135 | every record begins where the one before it ends |
| RoundTrip.DecodeEncode | internal/storage/format.go:40-142 | decoding an encoded batch gives it back in normal form if and only if the batch is encodable |
| RoundTrip.FarApart | internal/storage/format.go:84-98 | the bare records at offsets 0 and 2^32 do not come back from their encoding |
| RoundTrip.EncodeDecode | internal/storage/format.go:183-313 | an accepted batch re-encodes to exactly its own bytes if and only if its header has the first record's offset and the maximum of 0 and the largest timestamp |
| RoundTrip.CanonicalUnique | internal/storage/format.go:45-51 | two batches with such headers that decode alike are the same bytes |
| RoundTrip.FitsExact | internal/storage/format.go:45-95 | what the format can carry, wrap-arounds and 32-bit fields included, is exactly what meets the bounds a caller can see: offset distance, age, field lengths and total size |
| Codec.EncodeBatch | internal/storage/format.go:40-142 | the nested loops write the grammar's spelling into a buffer of the precomputed size, filling it exactly; no records is an error |
| Codec.PayloadSize | internal/storage/format.go:53-73 | the size computed in advance is the number of bytes the records are spelled with |
| Codec.LargestTimestamp | internal/storage/format.go:45-51 | the loop computes the maximum of 0 and all timestamps |
| Codec.PutRecords | internal/storage/format.go:84-138 | writing the records in place puts their spelling at the offset, leaves everything before it alone, and returns the offset behind it |
| Codec.ReadHeaders | internal/storage/format.go:264-296 | the header loop refines the recursive parser, rejections and out-of-range slices included |
| Codec.DecodeBatch | internal/storage/format.go:146-314 | the decoder's loop refines the recursive parser on every input, with the same error or panic |
| Corruption.CheckValue | internal/storage/format.go:137-139 | the checksum of the digits 1 to 9 is CBF43926, the check value of the IEEE polynomial |
| Corruption.CrcDiffers | internal/storage/format.go:176-181 | byte strings of the same length that differ in one byte have different checksums |
| Corruption.ByteChanged | internal/storage/format.go:146-181 | a written batch with one byte changed is refused, whichever byte outside the length field it is, and with the error for that byte |
| Corruption.LogChanged | internal/storage/store.go:447-538 | and so recovery refuses a log with such a batch in it, in the active segment too |
| Corruption.EntryChanged | internal/offsets/store.go:103-215 | and an offset entry with one byte changed outside its length field is corrupt, wherever it stands |
| Utf8.ValidExactly | internal/offsets/store.go:175-196 | the names that pass are exactly the UTF-8 encodings of Unicode scalar values |
| Batches.RecordAt | internal/storage/store.go:197-209 | the records of a batch lie in the flat list of the log at the offsets the batch has |
| Batches.BatchAtCut | internal/storage/store.go:447-538 | in a log cut anywhere, a batch is found whole at its position, or its beginning is all that follows |
| Recovery.ScanCut | internal/storage/store.go:447-538 | scanning any cut of a written log finds exactly the batches that are whole, and ends behind the last of them |
| Recovery.ScanSound | internal/storage/store.go:447-538 | any file that passes, whoever wrote it, is its batches one after another: each decodes, none is too large, the offsets are consecutive from the base, and only in the active segment is anything left over |
| Recovery.ClosedTorn | internal/storage/store.go:459-506 | a closed segment that ends inside a batch is refused |
| Recovery.LatestNewest | internal/storage/store.go:530-532 | the newest timestamp kept for some batches is at least 0 and at least that of every record, and one of these |
| Recovery.ScanLog | internal/storage/store.go:447-538 | the recovery loop computes the scan, and the largest timestamp of the records found |
| Index.ReadIndexEntries | internal/storage/segment.go:110-169 | returns the entries of the file if it is empty, or has whole entries, is at most 64 MiB and they are in order from zero; refuses everything else |
| Layout.IndexEntryLayout | internal/storage/segment.go:178-180 | an index entry is the relative offset in four bytes and the position in eight |
| Index.SoundAppend | internal/storage/store.go:262-274 | appending a batch keeps a sound index sound, with an entry for it or, if there is one already, without |
| Index.GreedySound | internal/storage/store.go:631-690 | the greedy index starts at zero, increases strictly, and has every entry on a batch start |
| Index.GreedySparse | internal/storage/store.go:263-264 | its entries are an interval apart: all but the first fit into the log at one per interval |
| Index.GreedyNear | internal/storage/store.go:341-349 | from the last entry at or before a batch the scan to the batch is shorter than an interval |
| IndexRecovery.ValidateIndexEntries | internal/storage/store.go:562-622 | accepts exactly the entries that are in order from zero, within the log, and on a batch magic with the matching base offset; no entries only for an empty log |
| IndexRecovery.MatchesSound | internal/storage/store.go:562-622 | entries the store wrote that pass the validation against a cut log are a sound index of what is left |
| IndexRecovery.SoundMatches | internal/storage/store.go:562-622 | a sound index passes the validation against its log |
| IndexRecovery.MatchedMarks | internal/storage/store.go:562-622 | whoever wrote the index, an entry at the start of a batch passes if and only if it has the offset of that batch |
| IndexRecovery.RebuildIndex | internal/storage/store.go:624-690 | from the bytes of a written log, rebuilds the greedy index of its batches, and the newest timestamp; on any log, succeeds if and only if the length fields lead from header to header up to the end, each of them all there and with a base offset within 32 bits of the segment's, and then the first header has an entry, later entries are at least an interval apart, and each says what the header at its position says |
| SegmentFile.GreedyPush | internal/storage/store.go:262-274 | the index kept up batch by batch while appending is the index rebuilt from the whole log |
| SegmentFile.AppendValid | internal/storage/store.go:254-274 | appending keeps a segment valid, and its index equal to the rebuilt one, with the index entry written, partly written, or not due |
| SegmentFile.NewestRecord | internal/storage/store.go:254-256 | in every valid segment, no record is newer than the newest timestamp kept, and one is that new unless it is 0 |
| SegmentFile.RecoveredSound | internal/storage/store.go:540-557 | the index kept or rebuilt after a cut, from any cut of an index file the store wrote, is sound for what is left of the log |
| SegmentFile.CutValid | internal/storage/store.go:447-560 | a recovered segment is valid: sizes, next offset, newest timestamp, index and file agree |
| SegmentFile.IndexWrite | internal/storage/segment.go:173-191 | a complete or partial write of an entry leaves only entries on batch starts in the index file, over junk left by an earlier failure too |
| SegmentClass.Segment.Append | internal/storage/segment.go:93-106 | a complete write puts the data at the end and returns where; a failed one leaves part of it and does not move the size |
| SegmentClass.Segment.AppendIndexEntry | internal/storage/segment.go:173-191 | the entry is in memory whatever happens; the file gets all of it or part, and only a whole one moves the index size; bytes it overwrites no longer count as synced |
| SegmentClass.Segment.AppendBatch | internal/storage/store.go:247-274 | the segment after a write: batch, counters, newest timestamp, and an index entry exactly when one is due; after a failed write, part of the batch behind the log and nothing else |
| SegmentClass.Segment.IndexIfDue | internal/storage/store.go:262-274 | adds an entry, in memory always and on disk as far as the write goes, exactly when one is due |
| SegmentClass.Segment.Flush | internal/storage/segment.go:194-213 | what is synced after each outcome: the log first, the index only if it changed |
| SegmentClass.Segment.RecoverIndex | internal/storage/store.go:540-557 | on any log: keeps the index file exactly if it is usable and matches the log, and otherwise rebuilds it from the headers, in memory and on disk; succeeds if and only if one of the two is possible |
| SegmentClass.Segment.ScanAndCut | internal/storage/store.go:447-538 | succeeds exactly if the scan does, and leaves the batches found, their newest timestamp and the log cut behind them |
| SegmentClass.Segment.Recover | internal/storage/store.go:447-560 | succeeds on every cut of a written segment, with the whole batches of it and a valid state; on any other log, success means the scan found it intact; a closed segment that ends inside a batch fails |
| StoreState.ChainRun | internal/storage/store.go:128-152 | closed segments tile: their batches have consecutive offsets from the first base to the active segment |
| StoreState.HistoryRun | internal/storage/store.go:197-260 | in every valid store all batches ever kept have consecutive offsets from 0, retained or not, and the log end and earliest offset are where the list says |
| StoreSteps.Grown | internal/storage/store.go:254-260 | a completed write leaves a valid store whose log has the batch and nothing else changed |
| StoreSteps.AfterRoll | internal/storage/store.go:223-238 | a rollover leaves the log as it is |
| StoreSteps.AfterTorn | internal/storage/store.go:247-252 | a failed write leaves the log with at most part of the batch behind it |
| StoreSteps.ModelWellFormed | internal/storage/store.go:174-290 | a valid store stands for a well-formed log |
| Appending.RollKeeps | internal/storage/store.go:223-238 | a rollover leaves a valid store in every outcome, poisoned exactly if a step fails, and changes the log only by what its flush makes durable |
| Appending.PutKeeps | internal/storage/store.go:247-274 | a complete write adds exactly the batch; a failed one leaves it torn and poisons the store |
| Appending.SyncKeeps | internal/storage/store.go:276-285 | in sync mode the whole log is durable unless the sync of the log fails, and the store is poisoned exactly if the flush fails |
| Appending.AppendKeeps | internal/storage/store.go:223-289 | every append leaves a valid store, poisoned exactly if it did not finish, with the log of the stage it reached: roll failed, out of reach, torn, flush failed, finished |
| Appending.StageStep | internal/storage/store.go:223-289 | each of these outcomes is an append step of the log |
| Appending.AppendMirrors | internal/storage/store.go:262-274 | an append whose index write is complete keeps every index file the image of the index in memory, however it ends |
| Appending.CloseKeeps | internal/storage/store.go:404-431 | closing flushes and changes nothing else of the log, and keeps the index files in sync |
| Stamping.Stamp | internal/storage/store.go:196-209 | records get consecutive offsets from the log end and one timestamp, and keep key, value and headers, in order |
| Stamping.StampedValid | internal/storage/store.go:196-221 | a stamped batch of accepted size is a batch that recovery and reading get back |
| Stamping.StampedCarries | internal/storage/store.go:196-221 | record `i` of the batch has the key, the value and the headers of the client's record `i`, in order, under the broker's timestamp |
| PartitionStore.Store.FlushActive | internal/storage/segment.go:194-213 | a flush changes only what is durable, and a successful one makes the whole log durable |
| PartitionStore.Store.LogOf | internal/storage/store.go:434-445 | a valid store stands for a well-formed log with exactly the ends it reports |
| PartitionStore.Store.Roll | internal/storage/store.go:223-238 | the state after a rollover, for every outcome of its flush and of creating the files |
| PartitionStore.Store.WriteEncoded | internal/storage/store.go:240-289 | the state and the result of writing to a segment with room, for every outcome of the I/O |
| PartitionStore.Store.AppendEncoded | internal/storage/store.go:223-289 | the state and the result of an append, rollover included: acknowledged if and only if every step it takes succeeds, index changes to sync included |
| PartitionStore.Store.Append | internal/storage/store.go:174-290 | refuses in the source's order without any change; otherwise the state, the log and the result of the stage reached, in terms of the I/O outcomes; acknowledged, the log has exactly the stamped batch more, durable in sync mode, at the offsets returned, and the log as a list of records is what it was followed by the key, value and headers of each record sent; a step of the log in any case; complete index writes keep the index files in sync |
| Delivery.AppendThenRead | internal/storage/store.go:174-401 | reading from the first offset of an acknowledged append gives the records sent, from the first on: all of them if and only if they fit the budget or there is only one, so always with a budget of maxBatchBytes |
| PartitionStore.Store.FindSegment | internal/storage/store.go:326-332 | the binary search finds the segment that holds the offset |
| Reading.FindFirst | internal/storage/store.go:326-349 | binary search: everything before the index is at most the key, everything from it on greater |
| Reading.StartOf | internal/storage/store.go:341-349 | the scan starts at a batch start not past the offset: the last indexed one |
| Reading.ShortScan | internal/storage/store.go:341-349 | with a fresh or rebuilt index, the scan starts less than an interval before the batch that holds the offset |
| Reading.CollectBatch | internal/storage/store.go:379-394 | takes the records of a batch from the current offset on until the next no longer fits |
| Reading.ReadSegment | internal/storage/store.go:341-397 | never fails on a written segment, and collects from it to its end or to the end of the budget |
| Reading.LongestRunUnique | internal/storage/store.go:318-400 | the result asked for is unique, so the specification of Read leaves no choice |
| Reading.RecordOnWire | internal/storage/store.go:761-768 | what a record counts against the budget is its size on the wire less 8, and 8 for every header |
| Reading.PageOnWire | internal/storage/store.go:318-400 | the size of an encoded page from what its records count |
| Reading.PageBound | internal/storage/store.go:379-394 | an encoded page of several records has at most the budget and half of it again, 33 bytes, and 8 for every header |
| PartitionStore.Store.Read | internal/storage/store.go:293-401 | for every sound index equals the simple specification on the flat list: the longest run of records from the offset that fits the budget, but at least one; the bound on its encoded size; and the errors in the source's order |
| Retention.DroppedValid | internal/storage/store.go:854-888 | removing oldest segments changes nothing of the log but where it begins, and takes only durable batches |
| Retention.ExpiredCount | internal/storage/store.go:785-802 | the longest row of oldest closed segments whose newest record is at or before the cutoff |
| Retention.ExpiredMeans | internal/storage/store.go:794 | a segment is expired if and only if the cutoff is at least 0 and no record of it is from after the cutoff |
| Retention.PlannedMeans | internal/storage/store.go:782-828 | the plan in terms of the records: the longest row of oldest closed segments all of whose records are at or before the cutoff, and then the least number more |
| Retention.RetainedJustified | internal/storage/store.go:782-828 | whatever fails, a segment is removed only if all its records are old, or while the files are too large |
| Retention.RetainedFaultless | internal/storage/store.go:772-836 | if no removal and no stat fails, the age loop and the size loop together remove the expired segments and then the least number more, and report no error |
| Retention.PlannedExactly | internal/storage/store.go:772-836 | there is exactly one such plan |
| PartitionStore.Store.DeleteOldest | internal/storage/store.go:854-888 | the segment is gone exactly if its log file is, whatever fails after that, and the earliest offset is the next base |
| PartitionStore.Store.CalculateTotalBytes | internal/storage/store.go:838-852 | the sum of all log and index file sizes |
| DiskUse.DirectoryBytes | internal/storage/store.go:838-852 | that sum is the number of bytes of all files in the directory, logs and indexes |
| DiskUse.OverLimitExactly | internal/storage/store.go:804-828 | without the `k` oldest segments the store is over the limit if and only if the files left after removing theirs have more bytes than the limit |
| DiskUse.SizeOnDisk | internal/storage/store.go:838-852 | computing both, the sum and the files |
| PartitionStore.Store.RetainByAge | internal/storage/store.go:782-802 | removes oldest closed segments while they are expired, up to the first removal that fails; for every outcome of the removals, how many are gone and whether there was an error |
| PartitionStore.Store.SizeRound | internal/storage/store.go:805-828 | one round of the size loop: a failed stat or a total within the limit ends it without a change; otherwise the oldest segment is gone exactly if its log file is |
| PartitionStore.Store.RetainBySize | internal/storage/store.go:804-828 | removes oldest closed segments while the files are over the limit, up to the first stat or removal that fails; for every outcome of these, how many are gone and whether there was an error |
| PartitionStore.Store.ApplyRetention | internal/storage/store.go:772-836 | does nothing on a closed or poisoned store; otherwise a retention step that keeps the log end and all surviving records; the segments gone and the result are those of the outcomes of the removals and stats, and without errors exactly the planned number, also in terms of the timestamps of the records; nothing newer than the cutoff is removed unless the files are too large; keeps the index files in sync |
| PartitionStore.Store.Close | internal/storage/store.go:404-431 | closes once: flushes the active segment, then closes the file handles; the result tells whether both went well; the log is unchanged, and all durable unless the sync of the log fails |
| Crash.ImageCut | internal/storage/store.go:121-166 | of all files a crash may leave, only the last log can be cut, and every index file has only entries the store wrote |
| Crash.ImagesTile | internal/storage/store.go:128-152 | segment files tile the log, an empty one from a failed rollover included |
| Crash.ListingIsImages | internal/storage/store.go:85-106 | the sorted listing of the directory is the list of segments in log order |
| Crash.DurableKept | internal/storage/store.go:447-538 | recovery keeps every durable batch of the active segment, and all its batches if nothing was lost |
| Crash.ReopenedValid | internal/storage/store.go:121-166 | the store made of the recovered segments is valid |
| Crash.ReopenedModel | internal/storage/store.go:121-166 | recovery is a restart step: a batch-aligned beginning of what was attempted, with all that was durable; a power-loss step or a kill step if the files say so |
| Crash.ReopenedMirrors | internal/storage/store.go:540-557 | recovery leaves every index file in sync with the index in memory |
| Restart.IndexKept | internal/storage/store.go:540-557 | an index file in sync comes back the same if and only if it is at most 64 MiB or is the one a rebuild makes |
| Restart.CleanRestart | internal/storage/store.go:525-551 | after a restart that lost nothing, a segment has its base, next offset, size, newest timestamp, index entries and last indexed position back, under exactly that condition |
| Restart.CleanReopen | internal/storage/store.go:121-166 | if all index writes were complete, a clean restart gives back the whole state, log end, earliest offset and every segment, if and only if every index can be reread |
| Restart.SecondReopen | internal/storage/store.go:121-166 | whatever the first recovery found, a second one changes nothing |
| Decisions.AppendAlike | internal/storage/store.go:174-290 | a store and its reopened self take the same append alike: the same roll decision, stage and result, and states alike afterwards |
| Decisions.PlanAlike | internal/storage/store.go:772-836 | retention removes the same segments with or without the restart |
| Decisions.RetainedAlike | internal/storage/store.go:772-836 | and the same number for the same failures of removals and stats |
| Decisions.RunAlike | internal/storage/store.go:174-290 | stores alike stay alike through every sequence of appends and retentions, failing ones included |
| Decisions.ExactReread | internal/storage/store.go:540-557 | an index that was never read back from a file can always be reread |
| Lifecycle.Reopen | internal/storage/store.go:56-171 | OpenStore on the files of a store whose index writes were complete |
| Lifecycle.FilesOf | internal/storage/store.go:85-106 | the files of a store as they are, with the empty log of a failed rollover, and their listing |
| Lifecycle.CloseAndReopen | internal/storage/store.go:404-431 | Close and OpenStore: with all index writes complete, the store is the same if and only if every index can be reread; nothing of the log is lost |
| Lifecycle.WholeLife | internal/storage/store.go:56-171 | on a new store, any operations with complete index writes, then closing, reopening and going on, end as going on without the restart |
| Lifecycle.Do | internal/storage/store.go:174-290 | one call does to the state what the operation does, and is a step of the log |
| Lifecycle.DoAll | internal/storage/store.go:174-290 | every sequence of calls, failing ones included, is a run of the log |
| Lifecycle.Kill | internal/storage/store.go:447-538 | a process kill of any store, one with the empty log of a failed rollover included, and recovery: everything written is back, synced or not; without a torn batch only the flags differ |
| Lifecycle.PowerLoss | internal/storage/store.go:447-538 | a power loss that takes all it can, a store with such an empty log included, and recovery: exactly the durable beginning of the log is left |
| Packing.AppendPacked | internal/storage/store.go:223-238 | an append, however it ends, keeps every closed segment without room for the first batch behind it |
| Packing.RunPacked | internal/storage/store.go:223-238 | and so does every run of appends and retentions, with any failures |
| Packing.ReopenedPacked | internal/storage/store.go:121-166 | and recovery from any crash |
| Packing.UnsettledExactly | internal/storage/store.go:223-238 | after a recovery with an empty segment behind a closed one, the next append keeps it if and only if there was no room for its batch |
| PackingLoss.PackingLost | internal/storage/store.go:223-238 | the run in which it does not: append, failed rollover, restart, append |
| RestartLoss.AppendBare | internal/storage/store.go:174-290 | with a small interval, an append of one bare record adds 57 bytes and an index entry |
| RestartLoss.IndexCut | internal/storage/store.go:540-557 | from the whole log and the first entry of the index, recovery keeps that entry and does not rebuild |
| RestartLoss.NotReread | internal/storage/segment.go:110-120 | an index over 64 MiB that has fewer entries than batches, all of them due for one, cannot be reread |
| RestartLoss.RestartForgets | internal/storage/store.go:121-166 | the run in which a clean restart, with every index write complete, gives another store back |
| Midway.OnActive | internal/storage/segment.go:93-213 | a file operation on the active segment changes exactly its file in the directory |
| Midway.FlushMoment | internal/storage/segment.go:194-213 | after any number of its syncs, a flush has left the files of one of its outcomes |
| Midway.RollMoment | internal/storage/store.go:223-238 | after any number of its operations, a rollover has left the files of one of its outcomes: log synced, index synced, log made, index made |
| Midway.PutMoment | internal/storage/store.go:247-274 | after any number of bytes of the batch or of its index entry, the files are those of a torn write, or of a complete one with that much of the entry |
| Midway.AppendMoment | internal/storage/store.go:223-289 | at every moment of an append, rollover, both writes and the flush included, the files are exactly those of some outcome of an append, and in the end those of the one without failures |
| Midway.RetainMoment | internal/storage/store.go:854-888 | at every moment of retention, logs and indexes removed one by one, the files are exactly those of the store with some of its oldest segments dropped |
| Midway.CrashInAppend | internal/storage/store.go:223-289 | so a crash at any moment of an append leaves what a crash of some valid store may leave, whose log is the old one with or without the batch |
| Midway.CrashInRetention | internal/storage/store.go:772-836 | and a crash at any moment of retention what a crash of a valid store with the same log may leave, cut no further than is durable |
| Opening.OpenSegment | internal/storage/store.go:134-148 | opens and recovers one segment; always succeeds on what a crash left |
| Opening.OpenSegments | internal/storage/store.go:121-150 | opens all segments in order; success means they tile, and what a crash left always succeeds |
| Opening.OpenStore | internal/storage/store.go:56-171 | for every directory a crash of a valid store may leave: succeeds with a new valid store whose log is a restart of the old one, index files in sync; an empty directory gives an empty log; otherwise the opened segments tile |
| Opening.ListBases | internal/storage/store.go:85-106 | the base offsets of the directory, each once, in ascending order |
| Opening.OpenLog | internal/storage/store.go:56-171 | listing and opening: succeeds on every directory that a crash left or that was just made |
| Interrupted.InterruptedOpen | internal/storage/store.go:128-150 | a crash at any point of an opening, with some files recovered and others not, leaves what a crash of some valid store may leave, whose log is the old one or a restart of it |
| Interrupted.TriesKeep | internal/storage/store.go:128-150 | and so does every sequence of interrupted openings |
| Interrupted.OpenedInTheEnd | internal/storage/store.go:56-171 | after any number of interrupted openings, one that finishes makes a restart of the log of the first crash |
| LogRuns.StepKeeps | internal/storage/store.go:174-290 | every step of a run, crashes included, keeps offsets consecutive from 0 and the durable part untouched |
| LogRuns.DurableStays | internal/storage/store.go:447-560 | no run, whatever the crashes, loses or changes anything durable |
| LogRuns.AcknowledgedStays | internal/storage/store.go:276-290 | a batch acknowledged in sync mode is in every later state of every run, at its offsets, behind the same batches |
| LogRuns.SafeExactly | internal/grpcserver/broker_handler.go:186-195 | an offset stays within the log in every continuation if and only if it is at most the durable end now |
| LogRuns.SyncDurable | internal/storage/store.go:276-285 | in sync mode with power losses only, an unpoisoned log is durable to its end in every reachable state |
| LogRuns.SyncCommitSafe | internal/grpcserver/broker_handler.go:186-195 | there an offset up to the log end of an unpoisoned store stays within the log |
| CommitLoss.FailedAppend | internal/storage/store.go:276-285 | the first append in sync mode with a failed log sync: it fails, moves the log end, and nothing is durable |
| CommitLoss.CommitPastEnd | internal/grpcserver/broker_handler.go:162-207 | the breaking run through the store, the handler and the offset store: the flush fails, a commit of the log end is acknowledged, with the poisoned store or after a process kill, and after a power loss the commit is fetched back while the log is empty |
| Losses.WorstReached | internal/storage/store.go:447-538 | there are files a power loss may leave from which recovery gets the durable beginning of the log and no more, for every store that has something undurable to lose or no torn batch |
| OffsetFormat.EntrySize | internal/offsets/store.go:252-283 | an entry's length field is 32 plus its name lengths, at most 542, within the bounds recovery checks |
| OffsetFormat.EntrySound | internal/offsets/store.go:103-215 | what the recovery loop accepts as an entry is exactly the encoding of a valid entry |
| OffsetFormat.EntryComplete | internal/offsets/store.go:103-215 | every entry Commit writes is accepted wherever it stands |
| OffsetFormat.EntryTorn | internal/offsets/store.go:103-142 | a file that ends inside an entry is recognised as torn there, never as corrupt |
| Layout.OffsetEntryLayout | internal/offsets/store.go:252-283 | magic, version, length, checksum, group, topic, partition, next offset and timestamp of an entry, each at its position with its number |
| OffsetLog.FoldIsLastWrite | internal/offsets/store.go:207-214 | the map has the last entry of a key in file order, regardless of timestamps |
| OffsetLog.FoldOnlyWritten | internal/offsets/store.go:207-214 | the map has no key that was not written |
| OffsetLog.ScanSound | internal/offsets/store.go:91-219 | any file recovery accepts is, up to the recovered size, exactly the encodings of the entries it found |
| OffsetLog.ScanCut | internal/offsets/store.go:91-219 | scanning any cut of a written log finds exactly the entries that are whole |
| OffsetStore.EncodeEntry | internal/offsets/store.go:252-283 | filling the buffers writes the grammar's spelling of the entry |
| OffsetStore.OffsetStore.Commit | internal/offsets/store.go:232-307 | errors in the source's order without a change; acknowledged, the entry is durable and in the map, which stays the fold of the file; failed, the store is disabled and the entry may or may not survive |
| OffsetStore.OffsetStore.Get | internal/offsets/store.go:310-324 | returns the last committed offset of the key in the fold of all acknowledged entries |
| OffsetStore.OffsetStore.Close | internal/offsets/store.go:327-344 | closes once, syncing unless a commit has failed, then closes the file; the result tells whether both went well |
| OffsetStore.Recover | internal/offsets/store.go:91-219 | the loop reads in bounds on every file, and fills the map with the fold of the entries found |
| OffsetStore.OpenOffsets | internal/offsets/store.go:61-89 | fails exactly on a complete but bad entry, or when a torn tail cannot be cut off and synced; from any cut of a store's file, recovers a beginning of the commits tried that has all synced ones |
| OffsetRuns.StepKeeps | internal/offsets/store.go:232-307 | every step, crashes included, keeps the synced entries |
| OffsetRuns.AcknowledgedStays | internal/offsets/store.go:286-304 | an acknowledged commit is in every later state of every run, at its place, behind the same entries |
| OffsetRuns.RestartAdds | internal/offsets/store.go:91-219 | a restart adds at most the one commit that had failed, behind all others |
| OffsetRuns.OffsetStays | internal/offsets/store.go:310-324 | in the map, an acknowledged offset stays the offset of its key in every later state, until another commit for the key is tried |
| Broker.BrokerServer.Fetch | internal/grpcserver/broker_handler.go:105-160 | the longest run that fits from the log as it was read, and each end as it is when it is read, one after the other, after whatever others did in between; the end covers the records; errors by cause |
| Broker.BrokerServer.CommitIn | internal/grpcserver/broker_handler.go:186-205 | the range check and the write of a commit, with appends and retentions of others between the reads of the two ends and before the write |
| Broker.BrokerServer.CommitOffset | internal/grpcserver/broker_handler.go:162-207 | commits exactly if the partition exists, the offset is between its ends as each is read, the names are valid and the offset store is usable; a refusal changes no commit; with what others do meanwhile it is a run of the system in which the check is one step and the write a later one |
| Broker.WrittenRun | internal/grpcserver/broker_handler.go:186-205 | runs of the log before and after the check, and the commit at the end, make one run of the system |
| Broker.FoundInRange | internal/grpcserver/broker_handler.go:209-239 | in a state that keeps the invariant, every offset that can be fetched is at most the log end |
| Broker.BrokerServer.FetchCommittedOffset | internal/grpcserver/broker_handler.go:209-239 | the last commit for the key, if the partition exists and the offset store is usable; at most the log end if the invariant of the runs holds |
| Delivery.CommitThenFetch | internal/grpcserver/broker_handler.go:162-239 | after an acknowledged commit the group fetches the offset committed, whatever others do to the partition meanwhile |
| Broker.CommitsInRange | internal/grpcserver/broker_handler.go:186-195 | in any mode, with any crashes and any interleaving of produce, check, commit and retention: if only durable offsets pass the check, no commit is ever past the log end |
| Broker.CommitSafeExactly | internal/grpcserver/broker_handler.go:186-195 | accepting an offset leaves every commit in range in every continuation if and only if the offset is at most the durable end at the check |
| Broker.FetchedInRange | internal/grpcserver/broker_handler.go:209-239 | in sync mode with power losses only and no check against a poisoned store, every offset a consumer can fetch is at most the log end in every reachable state |
| Consuming.FetchPage | internal/bench/consumer.go:221-294 | one page, checked for continuity, goes on exactly where the last one ended |
| Consuming.FetchRound | internal/bench/consumer.go:221-294 | one round: others go first, and between the reads of a page; the pages so far stay the log from the offset on |
| Consuming.Consume | internal/bench/consumer.go:199-303 | whatever others append and retain meanwhile, paging returns the log from the offset on, each record once and in order, with all that was there at the start; it fails only if the store is poisoned or retention overtakes it; undisturbed it ends with the whole log, for every positive budget |
| TopicManager.Manager.CreateTopic | internal/topic/manager.go:191-279 | the result for every request and every I/O outcome; a new topic has the retention of the request field by field, and the default of the same field where that is 0; after every outcome the registry in memory is the registry on disk; at every crash point the disk is consistent and has the old or the new registry; directories of other topics are never touched; a failed creation leaves no new directory unless removal fails |
| TopicManager.CreateUnderDefaults | internal/topic/manager.go:93-99 | a topic created under some defaults is without a limit in a field if and only if the request and the default have none there, in memory and in the metadata file |
| TopicManager.NameIsComponent | internal/topic/manager.go:31 | an accepted name is one path component, and not a hidden one |
| TopicManager.Manager.MakeDirs | internal/topic/manager.go:223-243 | makes all directories or stops at the one that fails, changing nothing else on disk |
| TopicManager.Manager.RemoveDirs | internal/topic/manager.go:236-240 | removes the directories the rollback may remove, and changes nothing else on disk |
| TopicManager.LoadTopic | internal/topic/manager.go:137-184 | accepts only entries with a matching valid name, 1 to 1024 partitions and all directories there, and every such entry whose directories were left by crashes or just made; each log is then a restart of the one that was there |
| TopicManager.NewManager | internal/topic/manager.go:102-188 | startup opens every partition: it succeeds only on a consistent disk, and on every consistent disk whose partition directories were left by crashes or just made, with the registry of the metadata file |
| ConsumerClaims.StepBalanced | internal/bench/consumer.go:107-121 | every atomic operation of any worker keeps the books balanced: claimed, counted, observed and overshoot records |
| ConsumerClaims.CountsExact | internal/bench/consumer.go:280-284 | in every interleaving the count never exceeds the target, and whenever no claim is under way it is what was observed up to the target, the overshoot being the rest |
| ProducerClaims.RunTiles | internal/bench/producer.go:176-183 | in every interleaving the ranges handed out follow one another from zero without gap or overlap |
| ProducerClaims.EachRecordOnce | internal/bench/producer.go:176-183 | once a worker has stopped, every record number below the total is in exactly one range, and no other number ever is in any |
| Continuity.SortRanges | internal/bench/producer.go:396-405 | the insertion sort sorts by base offset and keeps the ranges |
| Continuity.Verify | internal/bench/producer.go:291-329 | passes exactly if the ranges add up to the growth of the log and follow one another when sorted |
| Continuity.CheckExact | internal/bench/producer.go:308-329 | in every interleaving, once all workers have recorded their ranges, the check passes if and only if nothing else was added to the log |
| Producing.Produce | internal/bench/producer.go:241-254 | an acknowledged Append is a step of that run with the offsets it returns; a failed one leaves the log end alone or moves it as others do |

## Left out

- PartitionStore.Store.Append: requires that offsets stay below 2^64 and the clock above -2^63, where the source wraps around, and that a failed index write leaves less than a whole entry.
- PartitionStore.Store.Read: I/O errors while reading are not modelled, so on a valid store it does not fail for them.
- Opening.OpenStore: for directories that no crash of the store left, states only that the opened segments tile, because payload bytes in a foreign index file can imitate a batch start.
- IndexRecovery.RebuildIndex: the index file is written in one piece; I/O errors during recovery are not modelled.
- SegmentClass.Segment.RecoverIndex: likewise, fails only for what the log and the index file say.
- SegmentClass.Segment.Recover: the cut log counts as truncated but not as synced further, as the source does not sync it.
- Broker.BrokerServer.CommitOffset: other commits do not come between its check and its write; the runs in `Broker` allow them.
- Consuming.Consume: the log grows and is retained while it is read, but the broker does not restart meanwhile; the idle timeout, the target count and the duration mode are not modelled.
- RestartLoss.RestartForgets: needs an index interval of at most 57 bytes and segments of 319 MB or more.
- Losses.WorstReached: excludes the store whose whole log is durable and whose torn batch may be synced too, where there is nothing to lose.
- TopicManager.Manager.CreateTopic: crashes of the process; the temporary metadata file and the loss of a rename in a power failure are not modelled; how opening the logs of the new partitions goes is a parameter.
- TopicManager.NewManager: for partition directories that no crash left, whether a log opens is left open.
- Decisions.AppendAlike: for a failed index sync, both stores must agree on whether the index has changed since it was synced; a reopened store has nothing to sync.
- ProducerClaims.EachRecordOnce: count mode without cancellation, and the counter does not wrap around.
- ConsumerClaims.CountsExact: the counters do not wrap around.
- Continuity.Verify: one partition at a time, in unbounded integers.
- File creation, deletion, truncation and renaming are taken to be durable and in order; the code does not sync the directory on every path.
- The configuration is the same on reopening, with maxBatchBytes at most segmentMaxBytes and at most 2 GiB, and a positive index interval (internal/config/config.go:225-232).
- A slice passed to the decoder has no spare capacity behind its end, as at both call sites.
- Corruption.ByteChanged: one byte changed; of longer errors, and of a changed length field, nothing is proved.
- PackingLoss.PackingLost: needs an index interval of at most 57 bytes, and segments at most 56 bytes larger than the largest batch.
- File names, JSON and open file handles: the directory is a map from base offsets to files; a missing index file counts as empty.
- Wall-clock time: the retention cutoff is an integer parameter.
- The Produce handler, partition/log.go and the periodic retention loop: forwarding with simple checks, only easy members.
- Latency sampling and reports of the load generator: only easy members.
- gRPC and HTTP plumbing, metrics, observers, logging and configuration loading: no hard property.
