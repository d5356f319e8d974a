/** A commit that ends up past the end of the log, step by step through the stores and the handler. */
module CommitLoss {
  import opened Bytes
  import opened Files
  import opened Format
  import opened Batches
  import opened SegmentFile
  import opened Stamping
  import opened StoreSteps
  import opened Appending
  import opened PartitionStore
  import opened Opening
  import opened Decisions
  import opened Lifecycle
  import opened OffsetFormat
  import opened OffsetLog
  import opened OffsetStore
  import opened Broker
  import S = StoreState
  import LogSpec
  import LogRuns
  import OffsetSpec

  /** All is well but the sync of the log at the end. */
  const FAILED_FLUSH := NO_FAILURE.(flush := LogSyncFailed)

  /** A log of one batch, none of it durable. */
  ghost predicate OneUnsynced(l: LogSpec.Log) {
    |l.history| == 1 && |l.history[0].records| == 1 && l.durable == 0 && l.cut == 0 && l.torn == None
  }

  /** The first append of a sync-mode store, with a failed flush: it fails, but moves the log end. */
  method FailedAppend(lim: Limits) returns (store: Store)
    requires lim.maxBatch >= 57
    ensures fresh(store) && fresh(store.activeSegment) && store.Valid() && store.lim == lim && store.sync
    ensures OneUnsynced(store.Model()) && store.writeFailed && store.logEndOffset == 1
  {
    hide S.ValidStore, S.Model, Snap, StampedBatch, GrownSeg, FlushedSeg, LogRuns.LiveStep, LogSpec.AppendStep,
         Mirrored;
    BareSize(0);
    StampedValid([BARE], 0, 0);
    store := EmptyStore(lim, true);
    var r := store.Append([BARE], 0, FAILED_FLUSH);
    AppendEnd(EMPTY_STATE, StampedBatch([BARE], 0, 0), FAILED_FLUSH, true, lim);
    assert r == AppendFailed(IOFailure);
  }

  lemma WorstEmpty(l: LogSpec.Log)
    requires OneUnsynced(l)
    ensures l.durable <= |l.history| && LogRuns.Worst(l) == LogSpec.EMPTY
  {
    assert l.history[..0] == [];
  }

  lemma NoEntries()
    ensures ScanFrom([], 0) == Recovered([], 0)
  {
  }

  /** An empty offset store. */
  method NewOffsets() returns (offsets: OffsetStore)
    ensures fresh(offsets) && offsets.Valid() && offsets.Model() == OffsetSpec.NONE && !offsets.closed
            && !offsets.writeFailed
  {
    hide ScanFrom, Fold, WireAll, WholeEntries;
    NoEntries();
    var r := OpenOffsets(File([], 0), true, OffsetState(File([], 0), map[], 0, false, false, [], None));
    offsets := r.store;
  }

  /** Restarting the offset store after any crash brings an acknowledged commit back. */
  method ReadBack(offsets: OffsetStore, e: Entry) returns (got: GetResult)
    requires offsets.Valid() && offsets.Model() == OffsetSpec.Offsets([e], 1, None, false, false)
    ensures got == Got(e.next)
  {
    hide ScanFrom, WireAll, WholeEntries, ValidState;
    FileProper(offsets.State());
    var r := OpenOffsets(offsets.file, true, offsets.State());
    assert [e] + [] == [e] && r.store.entries == [e];
    FoldIsLastWrite([e], 0);
    got := r.store.Get(e.group, e.topic, e.partition);
  }

  lemma FileProper(s: OffsetState)
    requires ValidState(s)
    ensures s.file.synced <= |s.file.bytes| && CutFile(s.file, s.file)
  {
  }

  /** A store whose only batch is not synced: poisoned, or healthy after a process kill and recovery. */
  method Unsynced(lim: Limits, killed: bool) returns (store: Store)
    requires lim.maxBatch >= 57
    ensures fresh(store) && fresh(store.activeSegment) && store.Valid() && OneUnsynced(store.Model())
    ensures store.writeFailed == !killed && store.earliestOffset == 0 && store.logEndOffset == 1
  {
    hide S.ValidStore, S.Model, Snap, LogSpec.KillStep, LogSpec.WellFormed, LogSpec.End, LogSpec.Earliest;
    store := FailedAppend(lim);
    EndOfOne(store.Model());
    if killed {
      ModelFlags(store.State());
      KilledOne(store.Model());
      store := Kill(store);
    }
    EndOfOne(store.Model());
    store.LogOf();
  }

  lemma KilledOne(l: LogSpec.Log)
    requires OneUnsynced(l)
    ensures OneUnsynced(l.(poisoned := false, closed := false))
  {
  }

  /** The handler accepts a commit of the log end, poisoned store or not. */
  method CommitEnd(store: Store, group: seq<byte>, topic: seq<byte>) returns (status: Status, offsets: OffsetStore)
    requires store.Valid() && store.earliestOffset <= 1 <= store.logEndOffset <= MAX_UINT64
    requires ValidName(group) && ValidName(topic)
    modifies store, store.activeSegment
    ensures status.Ok? && fresh(offsets) && offsets.Valid()
    ensures offsets.Model() == OffsetSpec.Offsets([Entry(group, topic, 0, 1, 0)], 1, None, false, false)
    ensures store.Valid() && store.State() == old(store.State())
  {
    hide ValidState, ModelOf, Fold, ValidName, S.ValidStore, S.Model, Snap, ApplyAll;
    offsets := NewOffsets();
    var broker := new BrokerServer(map[PartitionId(topic, 0) := store], offsets);
    NameProper(group);
    NoOps(store.State(), store.sync, store.lim);
    ghost var trail;
    status, trail := broker.CommitOffset(group, topic, 0, 1, 0, CommitIO(Complete, true), [], [], {});
  }

  lemma NoOps(s: S.Store, sync: bool, lim: Limits)
    ensures ApplyAll(s, [], sync, lim) == s && ApplyBoth(s, [], [], sync, lim) == s
  {
  }

  lemma NameProper(group: seq<byte>)
    requires ValidName(group)
    ensures group != []
  {
  }

  /** The flush of an append fails; a consumer commits up to the log end all the same, either with the poisoned
      store or after a process kill and recovery; then the power fails. The commit is still there, the batch is not. */
  method CommitPastEnd(lim: Limits, group: seq<byte>, topic: seq<byte>, killed: bool)
    returns (status: Status, got: GetResult, end: nat)
    requires lim.maxBatch >= 57 && ValidName(group) && ValidName(topic)
    ensures status.Ok? && got == Got(1) && end == 0
  {
    hide S.ValidStore, S.Model, Snap, ValidState, ModelOf, ValidName, LogRuns.Worst, LogSpec.WellFormed, LogSpec.End;
    var store := Unsynced(lim, killed);
    var offsets;
    status, offsets := CommitEnd(store, group, topic);
    ModelFlags(store.State());
    WorstEmpty(store.Model());
    EndOfOne(store.Model());
    var again := PowerLoss(store);
    again.LogOf();
    end := again.logEndOffset;
    got := ReadBack(offsets, Entry(group, topic, 0, 1, 0));
  }

  lemma EndOfOne(l: LogSpec.Log)
    requires OneUnsynced(l)
    ensures LogSpec.End(l) == 1 && LogSpec.Earliest(l) == 0 && LogSpec.End(LogSpec.EMPTY) == 0
  {
    assert Off(l.history, 1) == Off(l.history, 0) + 1;
  }
}
