/** Stores over their whole life: operations one after another, closing and opening again. */
module Lifecycle {
  import opened Bytes
  import opened Files
  import opened Format
  import opened Batches
  import opened SegmentFile
  import opened SegmentClass
  import opened Stamping
  import opened StoreSteps
  import opened Appending
  import opened Placement
  import opened Retention
  import opened Crash
  import opened Losses
  import opened Restart
  import opened Decisions
  import opened PartitionStore
  import opened Opening
  import S = StoreState
  import LogSpec
  import LogRuns

  /** The first `n` segment files. */
  ghost predicate FilesUpTo(s: S.Store, dir: Directory, bases: seq<nat>, n: nat) {
    && n <= |s.front| + 1 && |bases| == n && dir.Keys == (set i | 0 <= i < n :: Seg(s, i).base)
    && forall i | 0 <= i < n ::
         bases[i] == Seg(s, i).base && bases[i] in dir && dir[bases[i]] == SegFiles(Seg(s, i).log, Seg(s, i).index)
  }

  lemma FilesNext(s: S.Store, dir: Directory, bases: seq<nat>, n: nat, lim: Limits)
    requires S.ValidStore(s, lim) && FilesUpTo(s, dir, bases, n) && n <= |s.front|
    ensures FilesUpTo(s, dir[Seg(s, n).base := SegFiles(Seg(s, n).log, Seg(s, n).index)],
                      bases + [Seg(s, n).base], n + 1)
  {
    hide S.ValidStore;
    forall i | 0 <= i < n
      ensures Seg(s, i).base < Seg(s, n).base
    {
      BasesApart(s, i, n, lim);
    }
  }

  /** The files of a store as they are, the empty one of a failed rollover included. */
  ghost predicate ExactFiles(s: S.Store, dir: Directory) {
    && Bases(s, dir)
    && (forall i | 0 <= i <= |s.front| ::
          Seg(s, i).base in dir && dir[Seg(s, i).base] == SegFiles(Seg(s, i).log, Seg(s, i).index))
    && (s.spare ==> s.logEnd in dir && dir[s.logEnd] == NO_BYTES)
  }

  const NO_BYTES := SegFiles(File([], 0), File([], 0))

  /** The name of the spare file comes after all others. */
  lemma SpareApart(s: S.Store, i: nat, lim: Limits)
    requires S.ValidStore(s, lim) && s.spare && i <= |s.front|
    ensures Seg(s, i).base < s.logEnd
  {
    hide S.ValidStore, Images;
    ImageSeg(s, i);
    SpareImage(s);
    ImagesAscend(s, i, |s.front| + 1, lim);
  }

  lemma ImageNames(s: S.Store, b: nat)
    ensures (exists i | 0 <= i < |Images(s)| :: b == Images(s)[i].base) <==>
            (exists i | 0 <= i <= |s.front| :: b == Seg(s, i).base) || (s.spare && b == s.logEnd)
  {
    forall i | 0 <= i <= |s.front|
      ensures Images(s)[i].base == Seg(s, i).base
    {
      ImageSeg(s, i);
    }
    if s.spare {
      SpareImage(s);
    } else {
      assert |Images(s)| == |s.front| + 1;
    }
  }

  lemma FilesAscend(s: S.Store, dir: Directory, bases: seq<nat>, lim: Limits)
    requires S.ValidStore(s, lim) && FilesUpTo(s, dir, bases, |s.front| + 1)
    ensures Ascending(bases) && (s.spare ==> Ascending(bases + [s.logEnd]))
  {
    hide S.ValidStore;
    forall i, j | 0 <= i < j <= |s.front|
      ensures bases[i] < bases[j]
    {
      BasesApart(s, i, j, lim);
    }
    if s.spare {
      forall i | 0 <= i <= |s.front|
        ensures bases[i] < s.logEnd
      {
        SpareApart(s, i, lim);
      }
    }
  }

  lemma FilesNamed(s: S.Store, dir: Directory, bases: seq<nat>, b: nat)
    requires FilesUpTo(s, dir, bases, |s.front| + 1)
    ensures b in dir <==> exists i | 0 <= i <= |s.front| :: b == Seg(s, i).base
    ensures b in bases <==> b in dir
  {
    if i :| 0 <= i <= |s.front| && b == Seg(s, i).base {
      assert bases[i] == b;
    }
  }

  /** The segment files and the spare one are all there is. */
  lemma FilesWhole(s: S.Store, dir: Directory, bases: seq<nat>, lim: Limits)
    requires S.ValidStore(s, lim) && FilesUpTo(s, dir, bases, |s.front| + 1)
    ensures !s.spare ==> ExactFiles(s, dir) && Listing(dir, bases)
    ensures s.spare ==> ExactFiles(s, dir[s.logEnd := NO_BYTES])
                        && Listing(dir[s.logEnd := NO_BYTES], bases + [s.logEnd])
  {
    hide S.ValidStore, Images, Ascending;
    FilesAscend(s, dir, bases, lim);
    var all := if s.spare then dir[s.logEnd := NO_BYTES] else dir;
    forall b
      ensures b in all <==> exists i | 0 <= i < |Images(s)| :: b == Images(s)[i].base
      ensures b in bases <==> b in dir
    {
      ImageNames(s, b);
      FilesNamed(s, dir, bases, b);
    }
    if s.spare {
      forall i | 0 <= i <= |s.front|
        ensures Seg(s, i).base != s.logEnd
      {
        SpareApart(s, i, lim);
      }
    }
  }

  lemma ExactProper(s: S.Store, dir: Directory, lim: Limits)
    requires S.ValidStore(s, lim) && ExactFiles(s, dir)
    ensures ProperFiles(dir) && Untouched(s, dir)
  {
    hide S.ValidStore, Images;
    forall i | 0 <= i <= |s.front|
      ensures Seg(s, i).log.synced <= |Seg(s, i).log.bytes| <= MAX_INT64
      ensures Seg(s, i).index.synced <= |Seg(s, i).index.bytes|
    {
      SegFilesProper(s, i, lim);
    }
    forall b | b in dir
      ensures dir[b].log.synced <= |dir[b].log.bytes| <= MAX_INT64 && dir[b].index.synced <= |dir[b].index.bytes|
    {
      ImageNames(s, b);
      if i :| 0 <= i <= |s.front| && b == Seg(s, i).base {
        assert dir[b] == SegFiles(Seg(s, i).log, Seg(s, i).index);
      }
    }
  }

  lemma SegFilesProper(s: S.Store, i: nat, lim: Limits)
    requires S.ValidStore(s, lim) && i <= |s.front|
    ensures Seg(s, i).log.synced <= |Seg(s, i).log.bytes| <= MAX_INT64
    ensures Seg(s, i).index.synced <= |Seg(s, i).index.bytes|
  {
    hide S.ValidStore, ValidSeg;
    SegValid(s, i, lim);
    ActiveFields(Seg(s, i), lim);
    IndexSynced(Seg(s, i), lim);
    if i < |s.front| {
      WholeFront(s, i, lim);
    } else {
      TailSmall(s, lim);
    }
  }

  lemma IndexSynced(g: SegState, lim: Limits)
    requires ValidSeg(g, lim)
    ensures g.log.synced <= |g.log.bytes| && g.index.synced <= |g.index.bytes|
  {
    hide Fitting, EntriesOn, GreedyEntries;
  }

  lemma WholeFront(s: S.Store, i: nat, lim: Limits)
    requires S.ValidStore(s, lim) && i < |s.front|
    ensures |s.front[i].log.bytes| == s.front[i].size
  {
    hide ValidSeg, S.ValidTail;
    FrontUpTo(s.front, s.active.base, i, lim);
  }

  lemma TailSmall(s: S.Store, lim: Limits)
    requires S.ValidStore(s, lim)
    ensures |s.active.log.bytes| <= lim.segmentMax
  {
    hide ValidSeg, S.ValidFront, Run, Pos, LogBytes;
    ActiveFields(s.active, lim);
    if s.torn.Some? {
      LogLength(s.active.batches + [s.torn.value]);
    }
  }

  /** The directory of a store as its files are now. */
  method FilesOf(store: Store) returns (dir: Directory, bases: seq<nat>)
    requires store.Valid()
    ensures ExactFiles(store.State(), dir) && Listing(dir, bases) && ProperFiles(dir)
    ensures Untouched(store.State(), dir)
  {
    hide S.ValidStore, S.Model, Snap, FilesUpTo, Untouched, Listing, ProperFiles, ExactFiles;
    ghost var s := store.State();
    dir, bases := map[], [];
    FilesNone(s);
    store.SegAt(0);
    for i := 0 to |store.segments|
      invariant FilesUpTo(s, dir, bases, i)
    {
      var g := store.segments[i];
      store.SegAt(i);
      FilesNext(s, dir, bases, i, store.lim);
      dir, bases := dir[g.baseOffset := SegFiles(g.log, g.indexFile)], bases + [g.baseOffset];
    }
    FilesWhole(s, dir, bases, store.lim);
    if store.spare {
      dir, bases := dir[store.logEndOffset := NO_BYTES], bases + [store.logEndOffset];
    }
    ExactProper(s, dir, store.lim);
  }

  lemma FilesNone(s: S.Store)
    ensures FilesUpTo(s, map[], [], 0)
  {
  }

  /** OpenStore on the files as they are, after all index writes were complete. */
  method Reopen(store: Store) returns (again: Store)
    requires store.Valid() && !store.writeFailed && Mirrored(store.State())
    ensures again.Valid() && Mirrored(again.State()) && !again.closed && !again.writeFailed
    ensures again.lim == store.lim && again.sync == store.sync && !again.activeSegment.indexDirty
    ensures fresh(again) && forall i | 0 <= i < |again.segments| :: fresh(again.segments[i])
    ensures SameState(store.State(), again.State()) <==> AllReread(store.State(), store.lim)
    ensures LogSpec.KillStep(store.Model(), again.Model())
  {
    hide S.ValidStore, S.Model, Snap, Untouched, Listing, ProperFiles, RecoveredSegs, Mirrored, AllReread, SameState,
         LogSpec.KillStep, ValidSeg;
    var dir, bases := FilesOf(store);
    UntouchedLog(store.State(), dir);
    var r := OpenStore(store.lim, store.sync, dir, bases, store.State());
    again := r.store;
    CleanReopen(store.State(), dir, Snap(again.segments), store.lim);
  }

  /** Close, then OpenStore. With all index writes complete, the store is the same if and only if every index is small
      enough to be read back or as a rebuild makes it; whatever the flush at closing does, nothing of the log is
      lost. */
  method CloseAndReopen(store: Store, io: FlushOutcome, handlesClosed: bool) returns (again: Store)
    requires store.Valid() && !store.closed && !store.writeFailed && Mirrored(store.State())
    modifies store`closed, store.activeSegment`log, store.activeSegment`indexFile, store.activeSegment`indexDirty
    ensures again.Valid() && Mirrored(again.State()) && !again.closed && !again.writeFailed
    ensures again.lim == store.lim && again.sync == store.sync && !again.activeSegment.indexDirty
    ensures fresh(again) && forall i | 0 <= i < |again.segments| :: fresh(again.segments[i])
    ensures Alike(old(store.State()), again.State()) <==> AllReread(old(store.State()), store.lim)
    ensures store.State() ==
            old(store.State()).(active := FlushedSeg(old(store.activeSegment.State()), io), closed := true)
    ensures store.Valid() && LogSpec.KillStep(store.Model(), again.Model())
  {
    hide S.ValidStore, S.Model, Snap, Mirrored, FlushedSeg, AllReread, SameState, LogSpec.KillStep, LogSpec.CloseStep,
         LogRuns.LiveStep;
    ghost var s := store.State();
    var closed := store.Close(io, handlesClosed);
    again := Reopen(store);
    FlushedSame(s, io, store.lim);
    SameThrough(s, store.State(), again.State());
  }

  /** Flushing and closing change nothing that counts. */
  lemma FlushedSame(s: S.Store, io: FlushOutcome, lim: Limits)
    ensures var t := s.(active := FlushedSeg(s.active, io), closed := true);
            SameState(s, t) && (AllReread(s, lim) <==> AllReread(t, lim))
  {
    hide Reread;
    var t := s.(active := FlushedSeg(s.active, io), closed := true);
    FlushedReread(s.active, io, lim);
    assert forall i | 0 <= i <= |s.front| :: Reread(Seg(s, i), lim) == Reread(Seg(t, i), lim);
  }

  lemma FlushedReread(g: SegState, io: FlushOutcome, lim: Limits)
    ensures Reread(FlushedSeg(g, io), lim) == Reread(g, lim)
  {
  }

  lemma SameThrough(s: S.Store, t: S.Store, u: S.Store)
    requires SameState(s, t)
    ensures SameState(s, u) <==> SameState(t, u)
  {
    hide Working;
  }

  // ---------------------------------------------------------- kills and power losses

  lemma SyncedCut(bs: seq<Batch>, synced: nat)
    ensures WholeBatches(bs, |bs|, if synced < Size(bs) then synced else Size(bs)) == WholeBatches(bs, |bs|, synced)
  {
    hide Pos, WholeBatches;
    if synced >= Size(bs) {
      WholeBatchesExact(bs, synced, |bs|);
      WholeBatchesExact(bs, Size(bs), |bs|);
    }
  }

  lemma ExactActive(s: S.Store, dir: Directory)
    requires ExactFiles(s, dir)
    ensures s.active.base in dir && dir[s.active.base].log == s.active.log
  {
    hide Bases;
    assert Seg(s, |s.front|) == s.active;
  }

  /** After a process kill that leaves no torn batch, only the flags are different. */
  lemma KillModel(s: S.Store, dir: Directory, rec: seq<SegState>, lim: Limits)
    requires S.ValidStore(s, lim) && s.torn.None? && ExactFiles(s, dir) && RecoveredSegs(s, dir, rec, lim)
    ensures rec != [] && S.Model(Reopened(s, rec)) == S.Model(s).(poisoned := false, closed := false)
  {
    hide S.ValidStore, ValidSeg, ExactFiles, S.Chain, WholeBatches, RecoveredSeg, IndexRecovered, Run;
    ReopenedBefore(s, dir, rec, lim);
    ExactActive(s, dir);
    var g := rec[|rec| - 1];
    assert RecoveredSeg(Images(s)[|rec| - 1], dir, g, true, lim);
    assert s.active.batches + [] == s.active.batches;
    if s.spare {
      SpareRestart(s, dir, g, lim);
      assert s.gone + (S.Chain(s.front) + s.active.batches) + [] == S.Before(s) + s.active.batches;
    } else {
      KilledSeg(s, dir, g, lim);
    }
  }

  lemma KilledSeg(s: S.Store, dir: Directory, g: SegState, lim: Limits)
    requires S.ValidStore(s, lim) && s.torn.None? && RecoveredSeg(Image(s.active.base, Tried(s)), dir, g, true, lim)
    requires dir[s.active.base].log == s.active.log
    ensures g.batches == s.active.batches && Durable(g) == Durable(s.active)
  {
    hide ValidSeg, S.ValidFront, S.Chain, WholeBatches, IndexRecovered, Run, Pos;
    assert s.active.batches + [] == s.active.batches;
    SegSizes(s.active, lim);
    SegSizes(g, lim);
    WholeBatchesExact(s.active.batches, |s.active.log.bytes|, |s.active.batches|);
    assert s.active.batches[..|s.active.batches|] == s.active.batches;
    SyncedCut(s.active.batches, s.active.log.synced);
  }

  /** A process kill, and recovery: everything that was written is back, synced or not. */
  method Kill(store: Store) returns (again: Store)
    requires store.Valid()
    ensures again.Valid() && !again.closed && !again.writeFailed && again.lim == store.lim && again.sync == store.sync
    ensures fresh(again) && forall i | 0 <= i < |again.segments| :: fresh(again.segments[i])
    ensures LogSpec.KillStep(store.Model(), again.Model())
    ensures store.torn.None? ==> again.Model() == store.Model().(poisoned := false, closed := false)
  {
    hide S.ValidStore, S.Model, Snap, Untouched, Listing, ProperFiles, RecoveredSegs, LogSpec.KillStep, ExactFiles;
    var dir, bases := FilesOf(store);
    UntouchedLog(store.State(), dir);
    var r := OpenStore(store.lim, store.sync, dir, bases, store.State());
    again := r.store;
    ReopenedModel(store.State(), dir, Snap(again.segments), store.lim);
    if store.torn.None? {
      KillModel(store.State(), dir, Snap(again.segments), store.lim);
    }
  }

  /** What a power loss leaves of a directory when everything unsynced is lost. */
  function AfterLoss(dir: Directory): Directory
    requires ProperFiles(dir)
  {
    map b | b in dir :: SegFiles(Lost(dir[b].log), Lost(dir[b].index))
  }

  /** It is the worst that may be left of the store's files. */
  lemma LossIsWorst(s: S.Store, dir: Directory, bases: seq<nat>, lim: Limits)
    requires S.ValidStore(s, lim) && ExactFiles(s, dir) && ProperFiles(dir) && Listing(dir, bases)
    ensures AfterLoss(dir) == LostDirectory(s, lim) && Listing(AfterLoss(dir), bases) && ProperFiles(AfterLoss(dir))
  {
    hide S.ValidStore, LostFiles, Images;
    forall b
      ensures b in dir <==> b in ImageBases(s)
      ensures b in dir ==> AfterLoss(dir)[b] == LostFiles(s, b, lim)
    {
      ImageNames(s, b);
      if i :| 0 <= i < |Images(s)| && b == Images(s)[i].base {
        assert ImageBases(s)[i] == b;
      }
      if i :| 0 <= i <= |s.front| && b == Seg(s, i).base {
        LostNamed(s, i, lim);
      } else if s.spare && b == s.logEnd {
        SpareNamed(s, lim);
      }
    }
  }

  /** A power loss that takes everything it can, and recovery: exactly the durable beginning of the log is left. */
  method PowerLoss(store: Store) returns (again: Store)
    requires store.Valid() && TornUnsynced(store.State())
    ensures again.Valid() && !again.closed && !again.writeFailed && again.lim == store.lim && again.sync == store.sync
    ensures fresh(again) && forall i | 0 <= i < |again.segments| :: fresh(again.segments[i])
    ensures store.Model().durable <= |store.Model().history| && again.Model() == LogRuns.Worst(store.Model())
  {
    hide S.ValidStore, S.Model, Snap, Listing, ProperFiles, RecoveredSegs, LostDirectory, MayLeave, TornUnsynced,
         LogRuns.Worst, ExactFiles, Untouched, AfterLoss;
    var dir, bases := FilesOf(store);
    LossIsWorst(store.State(), dir, bases, store.lim);
    LostLeft(store.State(), store.lim);
    var r := OpenStore(store.lim, store.sync, AfterLoss(dir), bases, store.State());
    again := r.store;
    WorstReached(store.State(), Snap(again.segments), store.lim);
  }

  // ------------------------------------------------------- one operation after another

  predicate ProperOp(op: Op) {
    op.AppendOp? ==> Proper(op.io) && op.timestamp > -0x8000_0000_0000_0000
  }

  predicate WholeIndexOp(op: Op) { op.AppendOp? ==> op.io.indexWrite.Complete? }

  function Added(op: Op): nat { if op.AppendOp? then |op.records| else 0 }

  function AddedAll(ops: seq<Op>): nat {
    if |ops| == 0 then 0 else Added(ops[0]) + AddedAll(ops[1..])
  }

  lemma {:induction false} AddedConcat(a: seq<Op>, b: seq<Op>)
    ensures AddedAll(a + b) == AddedAll(a) + AddedAll(b)
  {
    if |a| > 0 {
      assert (a + b)[1..] == a[1..] + b;
      AddedConcat(a[1..], b);
    } else {
      assert a + b == b;
    }
  }

  /** One call does to the state what Decisions.Apply says, and is a step of the log. */
  method Do(store: Store, op: Op)
    requires store.Valid() && ProperOp(op) && store.logEndOffset + Added(op) <= MAX_UINT64
    modifies store, store.activeSegment
    ensures store.Valid() && store.State() == Apply(old(store.State()), op, store.sync, store.lim)
    ensures store.activeSegment == old(store.activeSegment) || fresh(store.activeSegment)
    ensures LogRuns.LiveStep(old(store.Model()), store.Model(), store.sync)
    ensures store.closed == old(store.closed) && old(store.Model()).history <= store.Model().history
    ensures WholeIndexOp(op) && Mirrored(old(store.State())) ==> Mirrored(store.State())
    ensures old(store.logEndOffset) <= store.logEndOffset <= old(store.logEndOffset) + Added(op)
  {
    hide S.ValidStore, S.Model, Snap, AppendOutcome, Dropped, Retained, Planned, Mirrored, LogRuns.LiveStep,
         LogSpec.AppendStep, LogSpec.RetainStep, LogAfter, StampedBatch, StageOf;
    ghost var s := store.State();
    match op {
      case AppendOp(records, timestamp, io) =>
        var r := store.Append(records, timestamp, io);
      case RetainOp(cutoff, limit, faults) =>
        var ok;
        ghost var k;
        ok, k := store.ApplyRetention(cutoff, limit, faults);
    }
    OpenAfter(s, op, store.sync, store.lim);
    LogRuns.LiveGrows(S.Model(s), store.Model(), store.sync);
  }

  /** Every sequence of calls is a run of the log, and does to the state what the calls do in turn. */
  method DoAll(store: Store, ops: seq<Op>) returns (ghost trail: seq<LogSpec.Log>)
    requires store.Valid() && (forall op <- ops :: ProperOp(op)) && store.logEndOffset + AddedAll(ops) <= MAX_UINT64
    modifies store, store.activeSegment
    ensures store.Valid() && store.State() == ApplyAll(old(store.State()), ops, store.sync, store.lim)
    ensures |trail| == |ops| + 1 && trail[0] == old(store.Model()) && trail[|ops|] == store.Model()
    ensures LogRuns.LiveRun(trail, store.sync) && LogSpec.WellFormed(trail[0])
    ensures store.activeSegment == old(store.activeSegment) || fresh(store.activeSegment)
    ensures old(store.logEndOffset) <= store.logEndOffset <= old(store.logEndOffset) + AddedAll(ops)
    ensures store.closed == old(store.closed) && old(store.Model()).history <= store.Model().history
    ensures (forall op <- ops :: WholeIndexOp(op)) && Mirrored(old(store.State())) ==> Mirrored(store.State())
  {
    hide S.ValidStore, S.Model, Snap, Apply, Mirrored, LogRuns.LiveStep, LogSpec.RestartStep, LogSpec.WellFormed,
         ProperOp, WholeIndexOp, Added;
    trail := [store.Model()];
    store.LogOf();
    assert ops[0..] == ops && ops[..0] == [];
    for i := 0 to |ops|
      invariant store.Valid() && store.State() == ApplyAll(old(store.State()), ops[..i], store.sync, store.lim)
      invariant store.activeSegment == old(store.activeSegment) || fresh(store.activeSegment)
      invariant |trail| == i + 1 && trail[0] == old(store.Model()) && trail[i] == store.Model()
      invariant LogRuns.LiveRun(trail, store.sync)
      invariant (forall op <- ops :: WholeIndexOp(op)) && Mirrored(old(store.State())) ==> Mirrored(store.State())
      invariant old(store.logEndOffset) <= store.logEndOffset
      invariant store.logEndOffset + AddedAll(ops[i..]) <= old(store.logEndOffset) + AddedAll(ops)
      invariant store.closed == old(store.closed) && old(store.Model()).history <= store.Model().history
    {
      assert ops[i..][1..] == ops[i + 1..] && ops[..i + 1][..i] == ops[..i];
      Do(store, ops[i]);
      trail := trail + [store.Model()];
    }
    assert ops[..|ops|] == ops;
  }

  /** A restart makes no difference: after any operations on a new store whose index writes were all complete, closing,
      reopening and going on ends as going on without the restart. */
  method WholeLife(lim: Limits, sync: bool, ops: seq<Op>, io: FlushOutcome, handlesClosed: bool, more: seq<Op>)
    returns (again: Store)
    requires forall op <- ops :: ProperOp(op) && WholeIndexOp(op)
    requires forall op <- more :: ProperOp(op) && SteadyOp(op)
    requires AddedAll(ops) + AddedAll(more) <= MAX_UINT64 && !ApplyAll(EMPTY_STATE, ops, sync, lim).poisoned
    ensures again.Valid() && Alike(ApplyAll(ApplyAll(EMPTY_STATE, ops, sync, lim), more, sync, lim), again.State())
  {
    hide S.ValidStore, S.Model, Snap, ApplyAll, Mirrored, LogRuns.LiveRun, LogSpec.WellFormed, LogSpec.KillStep,
         AllReread, Alike, AllExact, ProperOp, WholeIndexOp, SteadyOp;
    var store := EmptyStore(lim, sync);
    EmptyExact();
    ghost var trail := DoAll(store, ops);
    ghost var s := store.State();
    ApplyAllExact(EMPTY_STATE, ops, sync, lim);
    ExactReread(s, lim);
    StaysOpen(EMPTY_STATE, ops, sync, lim);
    again := CloseAndReopen(store, io, handlesClosed);
    ghost var s1 := again.State();
    FieldsAlike(s, s1);
    trail := DoAll(again, more);
    RunAlike(s, s1, more, sync, lim);
  }

  lemma EmptyExact()
    ensures AllExact(EMPTY_STATE) && !EMPTY_STATE.closed && !EMPTY_STATE.poisoned && EMPTY_STATE.logEnd == 0
  {
  }

  lemma {:induction false} StaysOpen(s: S.Store, ops: seq<Op>, sync: bool, lim: Limits)
    ensures ApplyAll(s, ops, sync, lim).closed == s.closed
    decreases |ops|
  {
    hide Apply;
    if ops != [] {
      StaysOpen(s, ops[..|ops| - 1], sync, lim);
      OpenAfter(ApplyAll(s, ops[..|ops| - 1], sync, lim), ops[|ops| - 1], sync, lim);
    }
  }

  lemma OpenAfter(s: S.Store, op: Op, sync: bool, lim: Limits)
    ensures Apply(s, op, sync, lim).closed == s.closed
  {
    hide StampedBatch, Retained, GrownSeg, Part;
  }
}
