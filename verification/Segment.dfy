/** The Segment type and its methods (internal/storage/segment.go), and the recovery of one segment
    (internal/storage/store.go:447-560). I/O outcomes are parameters. */
module SegmentClass {
  import opened Bytes
  import opened Files
  import opened Format
  import opened Batches
  import opened Recovery
  import opened Index
  import opened IndexRecovery
  import opened SegmentFile

  class Segment {
    const baseOffset: nat
    var nextOffset: nat
    var size: nat
    var log: File
    var indexFile: File
    var indexEntries: seq<IndexEntry>
    var lastIndexedPosition: int
    var indexSize: nat
    var indexDirty: bool
    var active: bool
    var maxTimestamp: int64
    ghost var batches: seq<Batch>
    ghost var exact: bool

    ghost function State(): SegState
      reads this
    {
      SegState(baseOffset, nextOffset, size, log, indexFile, indexEntries, lastIndexedPosition, indexSize,
               indexDirty, maxTimestamp, batches, exact)
    }

    /** NewSegment: opens the two files, creating them empty if they do not exist. */
    constructor (base: nat, log: File, index: File, active: bool)
      ensures State() == SegState(base, base, |log.bytes|, log, index, [], -1, |index.bytes|, false, 0, [], true)
      ensures this.active == active
    {
      baseOffset, nextOffset := base, base;
      size, this.log := |log.bytes|, log;
      indexFile, indexSize := index, |index.bytes|;
      indexEntries, lastIndexedPosition, indexDirty := [], -1, false;
      this.active, maxTimestamp := active, 0;
      batches, exact := [], true;
    }

    /** Writes at the end of the part in use; only a complete write moves the end. */
    method Append(data: seq<byte>, io: WriteOutcome) returns (position: Option<nat>)
      requires size <= |log.bytes|
      modifies this`log, this`size
      ensures io.Complete? ==> position == Some(old(size)) && size == old(size) + |data|
      ensures io.Short? ==> position == None && size == old(size)
      ensures log == File(WriteAt(old(log.bytes), old(size), Part(data, io)), old(log.synced))
    {
      log := log.(bytes := WriteAt(log.bytes, size, Part(data, io)));
      if io.Short? {
        return None;
      }
      position := Some(size);
      size := size + |data|;
    }

    /** The entry is kept in memory whether or not it reaches the file. */
    method AppendIndexEntry(entry: IndexEntry, io: WriteOutcome) returns (ok: bool)
      requires indexSize <= |indexFile.bytes|
      requires io.Short? ==> io.count < 12
      modifies this`indexEntries, this`lastIndexedPosition, this`indexDirty, this`indexFile, this`indexSize
      ensures ok == io.Complete?
      ensures indexEntries == old(indexEntries) + [entry] && lastIndexedPosition == entry.position && indexDirty
      ensures indexSize == old(indexSize) + if ok then 12 else 0
      ensures var data := EntryBytes(entry)[..if ok then 12 else io.count];
              indexFile == File(WriteAt(old(indexFile.bytes), old(indexSize), data),
                                SyncedAfter(old(indexFile.synced), old(indexSize), data))
    {
      indexEntries := indexEntries + [entry];
      lastIndexedPosition := entry.position;
      indexDirty := true;
      var buf := EntryBytes(entry);
      var n := if io.Complete? then 12 else io.count;
      indexFile := File(WriteAt(indexFile.bytes, indexSize, buf[..n]),
                        SyncedAfter(indexFile.synced, indexSize, buf[..n]));
      ok := io.Complete?;
      if ok {
        indexSize := indexSize + 12;
      }
    }

    /** Adds an index entry for the batch at `position` if one is due. */
    method IndexIfDue(relative: uint32, position: nat, interval: nat, io: WriteOutcome)
      requires indexSize <= |indexFile.bytes| && position <= MAX_INT64
               && lastIndexedPosition == LastPosition(indexEntries)
      requires io.Short? ==> io.count < 12
      modifies this`indexEntries, this`lastIndexedPosition, this`indexDirty, this`indexFile, this`indexSize
      ensures var n := if io.Complete? then 12 else io.count;
              State() == if Due(old(indexEntries), position, interval)
                         then WithEntry(old(State()), IndexEntry(relative, position), n) else old(State())
    {
      hide EntryBytes, WriteAt;
      if |indexEntries| == 0 || position - lastIndexedPosition >= interval {
        var written := AppendIndexEntry(IndexEntry(relative, position), io);
      }
    }

    /** The part of Store.Append that concerns the active segment: write the batch, move the counters,
        and add an index entry if one is due. `b` is the batch that `data` encodes. */
    method AppendBatch(data: seq<byte>, count: nat, timestamp: int64, interval: nat,
                       write: WriteOutcome, indexWrite: WriteOutcome, ghost b: Batch)
      returns (ok: bool)
      requires size == |log.bytes| && indexSize <= |indexFile.bytes| && baseOffset <= nextOffset
      requires nextOffset - baseOffset <= MAX_UINT32 && size <= MAX_INT64
      requires lastIndexedPosition == LastPosition(indexEntries) && maxTimestamp >= 0
      requires b.bytes == data && |b.records| == count && MaxTimestamp(b.records) == Later(0, timestamp)
      requires indexWrite.Short? ==> indexWrite.count < 12
      modifies this
      ensures ok == write.Complete?
      ensures !ok ==> State() == old(State()).(log := File(old(log.bytes) + Part(data, write), old(log.synced)))
      ensures ok ==>
              State() == GrownSeg(old(State()), b, if indexWrite.Complete? then 12 else indexWrite.count, interval)
    {
      hide MaxTimestamp, EntryBytes, WriteAt, WithEntry, LastPosition, Due;
      WriteAtEnd(log.bytes, Part(data, write));
      var relative := nextOffset - baseOffset;
      var position := Append(data, write);
      if position.None? {
        return false;
      }
      if timestamp > maxTimestamp {
        maxTimestamp := timestamp;
      }
      nextOffset := nextOffset + count;
      batches := batches + [b];
      IndexIfDue(relative, position.value, interval, indexWrite);
      ok := true;
    }

    /** Syncs the log, then the index if it has changed. */
    method Flush(io: FlushOutcome) returns (ok: bool)
      modifies this`log, this`indexFile, this`indexDirty
      ensures ok == FlushOk(old(State()), io) && State() == FlushedSeg(old(State()), io)
    {
      if io.LogSyncFailed? {
        return false;
      }
      log := log.(synced := |log.bytes|);
      if indexDirty {
        if io.IndexSyncFailed? {
          return false;
        }
        indexFile := indexFile.(synced := |indexFile.bytes|);
        indexDirty := false;
      }
      return true;
    }

    /** Keeps the index file if it is usable and matches the log, and rebuilds it otherwise. */
    method RecoverIndex(interval: nat) returns (ok: bool)
      requires indexEntries == [] && lastIndexedPosition == -1 && indexSize == |indexFile.bytes|
      requires size == |log.bytes| <= MAX_INT64 && maxTimestamp >= 0 && indexFile.synced <= |indexFile.bytes|
      modifies this`indexEntries, this`lastIndexedPosition, this`indexFile, this`indexSize, this`indexDirty,
               this`maxTimestamp
      ensures indexDirty ==> old(indexDirty)
      ensures ok <==> (Readable(old(indexFile.bytes)) &&
                       IndexMatches(log.bytes, Entries(old(indexFile.bytes)), size, baseOffset))
                      || Walkable(log.bytes, size, baseOffset, 0)
      ensures ok ==>
                && lastIndexedPosition == LastPosition(indexEntries)
                && indexFile.bytes == IndexBytes(indexEntries) && indexSize == |indexFile.bytes|
                && if Readable(old(indexFile.bytes)) &&
                      IndexMatches(log.bytes, Entries(old(indexFile.bytes)), size, baseOffset)
                   then indexEntries == Entries(old(indexFile.bytes))
                   else Rebuilt(log.bytes, indexEntries, size, baseOffset, interval)
      ensures Written(batches, baseOffset, log.bytes) && size == Size(batches)
              && old(maxTimestamp) == Latest(batches) ==>
                && ok && maxTimestamp == old(maxTimestamp)
                && RecoveredIndex(indexEntries, old(indexFile.bytes), log.bytes, batches, baseOffset, interval)
                && lastIndexedPosition == LastPosition(indexEntries)
                && indexFile.bytes == IndexBytes(indexEntries) && indexSize == |indexFile.bytes|
                && indexFile.synced <= |indexFile.bytes|
    {
      hide Written, Latest, Entries, IndexMatches, IndexBytes, Greedy, Pos, Rebuilt, Walkable;
      var es := ReadIndexEntries(indexFile.bytes);
      var valid := false;
      if es.Some? {
        valid := ValidateIndexEntries(log.bytes, es.value, size, baseOffset);
      }
      if valid {
        indexEntries := es.value;
        if |indexEntries| > 0 {
          lastIndexedPosition := indexEntries[|indexEntries| - 1].position;
        }
        forall i | 0 <= i < |indexEntries|
          ensures EntryOf(indexFile.bytes, i) == indexEntries[i]
        {
          EntriesAt(indexFile.bytes, i);
        }
        IndexOfEntries(indexFile.bytes, indexEntries);
        ok := true;
      } else {
        var rebuilt, latest := RebuildIndex(log.bytes, size, baseOffset, interval, maxTimestamp, batches);
        maxTimestamp := latest;
        if rebuilt.None? {
          return false;
        }
        indexEntries := rebuilt.value;
        lastIndexedPosition := if |indexEntries| > 0 then indexEntries[|indexEntries| - 1].position else -1;
        indexFile := File(IndexBytes(indexEntries), 12 * |indexEntries|);
        indexSize, indexDirty := 12 * |indexEntries|, false;
        ok := true;
      }
    }

    /** Scans the log, and cuts off a torn tail. */
    method ScanAndCut(active: bool, lim: Limits) returns (ok: bool, next: nat)
      requires log.synced <= |log.bytes| && maxTimestamp == 0
      modifies this`log, this`size, this`maxTimestamp, this`batches
      ensures var s := Scan(old(log.bytes), 0, baseOffset, active, lim.maxBatch);
              && ok == s.Intact?
              && (!ok ==> State() == old(State()))
              && (ok ==> && size == s.size <= |old(log.bytes)| && log.bytes == old(log.bytes)[..size]
                         && batches == s.batches && maxTimestamp == Latest(batches)
                         && next == baseOffset + Count(batches))
      ensures log.synced == if old(log.synced) < |log.bytes| then old(log.synced) else |log.bytes|
    {
      hide Scan, Latest, Off;
      var s, latest := ScanLog(log.bytes, baseOffset, active, lim.maxBatch);
      if s.Broken? {
        return false, baseOffset;
      }
      log := log.(bytes := log.bytes[..s.size], synced := if log.synced < s.size then log.synced else s.size);
      size, maxTimestamp, batches := s.size, latest, s.batches;
      ok, next := true, baseOffset + Count(s.batches);
    }

    /** recoverSegment: scan the log, cut off a torn tail, keep or rebuild the index.
        `all` is what the store had written to the segment, if it was the store that wrote it. */
    method Recover(active: bool, lim: Limits, ghost all: seq<Batch>) returns (ok: bool)
      requires State() == SegState(baseOffset, baseOffset, |log.bytes|, log, indexFile, [], -1, |indexFile.bytes|,
                                   false, 0, [], true)
      requires log.synced <= |log.bytes| <= MAX_INT64 && indexFile.synced <= |indexFile.bytes|
      modifies this
      ensures Scan(old(log.bytes), 0, baseOffset, active, lim.maxBatch).Broken? ==> !ok
      ensures !active && EndsInside(old(log.bytes), all, baseOffset, lim) ==> !ok
      ensures ok ==>
                var s := Scan(old(log.bytes), 0, baseOffset, active, lim.maxBatch);
                && s.Intact? && size == s.size <= |old(log.bytes)| && log.bytes == old(log.bytes)[..size]
                && batches == s.batches && nextOffset == baseOffset + Count(batches)
      ensures CutFiles(old(log.bytes), old(indexFile.bytes), all, baseOffset, lim, active) ==>
                && ok && ValidSeg(State(), lim) && size == |log.bytes|
                && batches == all[..WholeBatches(all, |all|, |old(log.bytes)|)]
                && RecoveredIndex(indexEntries, old(indexFile.bytes), log.bytes, batches, baseOffset, lim.interval)
                && indexFile.bytes == IndexBytes(indexEntries)
      ensures log.synced == if old(log.synced) < |log.bytes| then old(log.synced) else |log.bytes|
      ensures !indexDirty
    {
      hide Scan, ValidSeg, CutFiles, RecoveredIndex, WholeBatches, Latest, IndexBytes, Written, Pos, Off, Sound,
           GreedyEntries, Rebuilt, Walkable, Readable, IndexMatches, Entries, LastPosition, EndsInside;
      ghost var (bytes, index, n) := (log.bytes, indexFile.bytes, WholeBatches(all, |all|, |log.bytes|));
      ghost var written := CutFiles(bytes, index, all, baseOffset, lim, active);
      if written {
        CutScan(bytes, index, all, baseOffset, lim, active, n);
      }
      var next;
      ok, next := ScanAndCut(active, lim);
      assert !active && EndsInside(bytes, all, baseOffset, lim) ==> !ok by {
        InsideRefused(bytes, all, baseOffset, lim);
      }
      if !ok {
        return;
      }
      ok := RecoverIndex(lim.interval);
      exact := GreedyEntries(indexEntries, batches, lim.interval);
      nextOffset := next;
      if written {
        WrittenIndexable(batches, baseOffset, log.bytes);
        RecoveryValid(bytes, index, all, baseOffset, lim, active, n, State());
      }
    }
  }
}
