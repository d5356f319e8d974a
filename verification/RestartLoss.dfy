/** A store that a clean restart changes: an index read back from a cut file, which then grows too large to be read
    back again. */
module RestartLoss {
  import opened Bytes
  import opened Files
  import opened Format
  import opened Batches
  import opened Index
  import opened IndexRecovery
  import opened SegmentFile
  import opened Stamping
  import opened StoreSteps
  import opened Appending
  import opened Placement
  import opened Crash
  import opened Restart
  import opened Decisions
  import opened PartitionStore
  import opened Opening
  import opened Lifecycle
  import S = StoreState
  import LogSpec
  import LogRuns

  // ------------------------------------------------------- an entry for every batch

  /** No batch is smaller than the interval, so a rebuild gives every batch an entry. */
  lemma {:induction false} GreedyFull(bs: seq<Batch>, n: nat, interval: nat)
    requires n <= |bs| && Indexable(bs) && interval <= 57
    ensures var g := Greedy(bs, n, interval); |g| == n && (n > 0 ==> g[n - 1].position == Pos(bs, n - 1))
  {
    if n > 0 {
      GreedyFull(bs, n - 1, interval);
      if n > 1 {
        Increasing(bs, n - 2, n - 1);
      }
    }
  }

  lemma NotReread(g: SegState, lim: Limits)
    requires ValidSeg(g, lim) && lim.interval <= 57
    requires |g.entries| < |g.batches| && |g.index.bytes| > MAX_INDEX_SIZE
    ensures !Reread(g, lim)
  {
    hide ValidSeg, Greedy;
    if GreedyEntries(g.entries, g.batches, lim.interval) {
      GreedyFull(g.batches, |g.batches|, lim.interval);
    }
  }

  lemma AlwaysDue(g: SegState, lim: Limits)
    requires ValidSeg(g, lim) && lim.interval <= 57
    ensures Due(g.entries, g.size, lim.interval)
  {
    hide Run, Off, EntriesOn, GreedyEntries, LogBytes, Indexable;
    if g.entries != [] {
      var e := g.entries[|g.entries| - 1];
      assert OnBatch(e, g.batches);
      var k: nat :| Marks(e, g.batches, k);
      Increasing(g.batches, k, |g.batches|);
    }
  }

  // ---------------------------------------------------------------- counting batches

  /** One open segment of `n` bare batches with `e` index entries. */
  ghost predicate Counted(s: S.Store, n: nat, e: nat) {
    && s.front == [] && !s.closed && !s.poisoned && !s.spare && s.logEnd == n
    && s.active.base == 0 && s.active.next == n && s.active.size == 57 * n
    && |s.active.batches| == n && |s.active.entries| == e && s.active.index.synced <= 12
  }

  lemma OneMore(s: S.Store, n: nat, e: nat, lim: Limits)
    requires S.ValidStore(s, lim) && Counted(s, n, e) && lim.interval <= 57 && lim.maxBatch >= 57
    requires n < MAX_UINT32 && 57 * (n + 1) <= lim.segmentMax && Ready(s)
    ensures var b := StampedBatch([BARE], n, 0);
            && |b.bytes| == 57 && StageOf(s, 57, NO_FAILURE, false, lim) == Finished
            && Counted(AppendOutcome(s, b, NO_FAILURE, false, lim), n + 1, e + 1)
  {
    hide S.ValidStore, ValidSeg, StampedBatch, EntryBytes, MaxTimestamp, WriteAt;
    Healthy(s, lim);
    BareSize(n);
    StampedValid([BARE], n, 0);
    AlwaysDue(s.active, lim);
  }

  /** Appends a bare record. */
  method AppendBare(store: Store, ghost n: nat, ghost e: nat)
    requires store.Valid() && Counted(store.State(), n, e) && Mirrored(store.State()) && !store.sync
    requires store.lim.interval <= 57 && store.lim.maxBatch >= 57
    requires n < MAX_UINT32 && 57 * (n + 1) <= store.lim.segmentMax
    modifies store, store.activeSegment
    ensures store.Valid() && Counted(store.State(), n + 1, e + 1) && Mirrored(store.State())
    ensures store.activeSegment == old(store.activeSegment) || fresh(store.activeSegment)
  {
    hide S.ValidStore, S.Model, Snap, StampedBatch, AppendOutcome, Mirrored, LogAfter, LogSpec.AppendStep,
         LogRuns.LiveStep, StageOf;
    HealthyReady(store.State(), store.lim);
    OneMore(store.State(), n, e, store.lim);
    var r := store.Append([BARE], 0, NO_FAILURE);
  }

  // --------------------------------------------------------- the cut index is kept

  /** All that is left of the files: the whole log, and the first entry of the index. */
  ghost predicate OneEntryLeft(s: S.Store, dir: Directory) {
    && |s.active.index.bytes| >= 12 && dir.Keys == {0}
    && dir[0] == SegFiles(s.active.log, File(s.active.index.bytes[..12], s.active.index.synced))
  }

  lemma OneEntryMayBeLeft(s: S.Store, dir: Directory, n: nat, e: nat, lim: Limits)
    requires S.ValidStore(s, lim) && Counted(s, n, e) && OneEntryLeft(s, dir)
    ensures MayLeave(s, dir) && ProperFiles(dir) && Listing(dir, [0])
  {
    hide S.ValidStore, ValidSeg;
    Healthy(s, lim);
    SegFilesProper(s, 0, lim);
    assert Images(s) == [Image(0, Tried(s))];
    assert Images(s)[0].base == 0 && Seg(s, 0) == s.active;
    forall b: nat
      ensures b in dir <==> b == 0
    {
      assert b in dir <==> b in dir.Keys;
    }
  }

  /** A sound index cut to its first entry is one that recovery keeps. */
  lemma FirstEntryKept(g: SegState, lim: Limits)
    requires ValidSeg(g, lim) && IndexWhole(g) && |g.entries| > 0
    ensures |g.index.bytes| >= 12 && Size(g.batches) <= |g.log.bytes|
    ensures var cut := g.index.bytes[..12];
            && Readable(cut) && Entries(cut) == [g.entries[0]]
            && IndexMatches(g.log.bytes, Entries(cut), Size(g.batches), g.base)
  {
    hide Run, EntriesOn, GreedyEntries, IndexMatches, Pos, Off, LogBytes, IndexBytes, EntryOf, OnBatch;
    var (cut, first) := (g.index.bytes[..12], g.entries[0]);
    EntriesOfPrefix(g.entries, cut, 0);
    EntriesAt(cut, 0);
    assert Entries(cut) == [first];
    SoundParts(g.entries, g.batches);
    LogLength(g.batches);
    assert first in g.entries && InPlace(g.entries, 0);
    BeforeEnd(first, g.batches);
    SoundWhole([first], g.batches);
    SoundMatches(g.log.bytes, [first], g.batches, g.base);
  }

  /** What recovery makes of it. */
  lemma OneEntryBack(s: S.Store, dir: Directory, rec: seq<SegState>, n: nat, e: nat, lim: Limits)
    requires S.ValidStore(s, lim) && Counted(s, n, e) && e > 0 && Mirrored(s) && OneEntryLeft(s, dir)
    requires RecoveredSegs(s, dir, rec, lim)
    ensures rec != [] && Counted(Reopened(s, rec), n, 1)
  {
    hide S.ValidStore, ValidSeg, RecoveredSeg, Run, IndexMatches, Readable, Entries, Pos, Off;
    assert Images(s) == [Image(0, Tried(s))];
    assert RecoveredSeg(Image(0, Tried(s)), dir, rec[0], true, lim);
    Healthy(s, lim);
    FirstEntryKept(s.active, lim);
    BatchesBack(s, dir, rec[0], lim);
    EntriesBack(s, dir, rec[0], lim);
  }

  lemma BatchesBack(s: S.Store, dir: Directory, g: SegState, lim: Limits)
    requires S.ValidStore(s, lim) && s.torn.None? && |s.active.log.bytes| == s.active.size && s.active.base == 0
    requires OneEntryLeft(s, dir) && RecoveredSeg(Image(0, Tried(s)), dir, g, true, lim)
    ensures g.base == 0 && g.batches == s.active.batches && g.size == s.active.size && g.next == s.active.next
    ensures g.log.bytes == s.active.log.bytes && ValidSeg(g, lim)
  {
    hide S.ValidStore, ValidSeg, IndexRecovered, WholeBatches, Run, Pos, Off;
    SegValid(s, |s.front|, lim);
    SegSizes(s.active, lim);
    SegSizes(g, lim);
    S.SegRun(s.active, lim);
    S.SegRun(g, lim);
    assert s.active.batches + [] == s.active.batches;
    WholeBatchesExact(s.active.batches, |s.active.log.bytes|, |s.active.batches|);
    assert s.active.batches[..|s.active.batches|] == s.active.batches;
    SameLog(s.active, g, lim);
  }

  lemma EntriesBack(s: S.Store, dir: Directory, g: SegState, lim: Limits)
    requires RecoveredSeg(Image(0, Tried(s)), dir, g, true, lim) && OneEntryLeft(s, dir)
    requires g.batches == s.active.batches && g.log.bytes == s.active.log.bytes && s.active.base == 0
    requires Size(g.batches) <= |g.log.bytes| && |s.active.entries| > 0
    requires var cut := s.active.index.bytes[..12];
             && Readable(cut) && Entries(cut) == [s.active.entries[0]]
             && IndexMatches(g.log.bytes, Entries(cut), Size(g.batches), 0)
    ensures |g.entries| == 1 && g.index.synced <= 12
  {
    hide Fitting, WholeBatches, Run, IndexMatches, Readable, Entries, Pos, Off, Greedy, EntriesOn, Sound, GreedyEntries;
  }

  // ------------------------------------------------------------------- the whole run

  /** Recovery after a crash that has taken all of the index but its first entry keeps just that entry. */
  method IndexCut(was: Store, ghost n: nat, ghost e: nat) returns (store: Store)
    requires was.Valid() && Counted(was.State(), n, e) && e > 0 && Mirrored(was.State())
    ensures store.Valid() && store.lim == was.lim && store.sync == was.sync
    ensures Counted(store.State(), n, 1) && Mirrored(store.State()) && fresh(store) && fresh(store.activeSegment)
  {
    hide S.ValidStore, S.Model, Snap, Mirrored, MayLeave, RecoveredSegs, Listing, ProperFiles, LogSpec.RestartStep,
         LogRuns.LiveStep;
    ghost var s := was.State();
    MirroredLength(s);
    var g := was.activeSegment;
    var dir: Directory := map[0 := SegFiles(g.log, File(g.indexFile.bytes[..12], g.indexFile.synced))];
    assert dir.Keys == {0};
    OneEntryMayBeLeft(s, dir, n, e, was.lim);
    var r := OpenStore(was.lim, was.sync, dir, [0], s);
    store := r.store;
    OneEntryBack(s, dir, Snap(store.segments), n, e, was.lim);
  }

  /** Two appends and such a crash. */
  method OneEntryShort(lim: Limits) returns (store: Store)
    requires lim.interval <= 57 && lim.maxBatch >= 57 && lim.segmentMax >= 114
    ensures store.Valid() && store.lim == lim && !store.sync && Counted(store.State(), 2, 1) && Mirrored(store.State())
    ensures fresh(store) && fresh(store.activeSegment)
  {
    hide S.ValidStore, S.Model, Snap, Mirrored;
    var first := EmptyStore(lim, false);
    AppendBare(first, 0, 0);
    AppendBare(first, 1, 1);
    store := IndexCut(first, 2, 2);
  }

  lemma MirroredLength(s: S.Store)
    requires Mirrored(s)
    ensures |s.active.index.bytes| == 12 * |s.active.entries|
  {
    hide IndexBytes;
  }

  /** The number of batches at which an index one entry short is over the limit. */
  const ENOUGH := 5592407

  /** Appends until the index file is too large to be read back. */
  method IndexTooLarge(lim: Limits) returns (store: Store)
    requires lim.interval <= 57 && lim.maxBatch >= 57 && lim.segmentMax >= 57 * ENOUGH
    ensures store.Valid() && store.lim == lim && !store.closed && !store.writeFailed && Mirrored(store.State())
    ensures !AllReread(store.State(), lim)
    ensures fresh(store) && fresh(store.activeSegment)
  {
    hide S.ValidStore, S.Model, Snap, Mirrored;
    store := OneEntryShort(lim);
    for n := 2 to ENOUGH
      invariant store.Valid() && store.lim == lim && !store.sync && Counted(store.State(), n, n - 1)
      invariant Mirrored(store.State()) && fresh(store) && fresh(store.activeSegment)
    {
      AppendBare(store, n, n - 1);
    }
    ShortIndex(store.State(), lim);
  }

  lemma ShortIndex(s: S.Store, lim: Limits)
    requires S.ValidStore(s, lim) && Counted(s, ENOUGH, ENOUGH - 1) && Mirrored(s) && lim.interval <= 57
    ensures !AllReread(s, lim)
  {
    hide S.ValidStore, ValidSeg, Reread, Mirrored;
    MirroredLength(s);
    SegValid(s, 0, lim);
    assert Seg(s, 0) == s.active;
    NotReread(s.active, lim);
  }

  /** And a clean restart with all index writes complete does not give that store back. */
  method RestartForgets(lim: Limits) returns (store: Store, again: Store, ghost was: S.Store)
    requires lim.interval <= 57 && lim.maxBatch >= 57 && lim.segmentMax >= 57 * ENOUGH
    ensures S.ValidStore(was, lim) && !was.closed && !was.poisoned && Mirrored(was)
    ensures store.Valid() && store.State() == was.(active := FlushedSeg(was.active, Flushed), closed := true)
    ensures again.Valid() && !Alike(was, again.State())
  {
    hide S.ValidStore, S.Model, Snap, Mirrored, AllReread, SameState, FlushedSeg, LogSpec.KillStep;
    store := IndexTooLarge(lim);
    was := store.State();
    again := CloseAndReopen(store, Flushed, true);
  }
}
