/** Segments are not closed early: a closed segment had no room for the first batch of the next
    (internal/storage/store.go:223-238). */
module Packing {
  import opened Bytes
  import opened Files
  import opened Format
  import opened Batches
  import opened Index
  import opened SegmentFile
  import opened StoreState
  import opened StoreSteps
  import opened Appending
  import opened Stamping
  import opened Retention
  import opened Crash
  import opened Decisions
  import opened Lifecycle

  /** No room for the first of the batches that follow, if there are any. */
  ghost predicate Tight(size: nat, next: seq<Batch>, lim: Limits) {
    next != [] ==> size + |next[0].bytes| > lim.segmentMax
  }

  /** What the segment after closed segment `i` has, a torn batch included. */
  ghost function After(s: Store, i: nat): seq<Batch>
    requires i < |s.front|
  {
    if i + 1 < |s.front| then s.front[i + 1].batches else Tried(s)
  }

  ghost predicate Packed(s: Store, lim: Limits) {
    forall i | 0 <= i < |s.front| :: Tight(s.front[i].size, After(s, i), lim)
  }

  /** The segment a rollover started has its batch, or the store is poisoned. */
  ghost predicate Settled(s: Store) {
    s.front != [] ==> s.active.batches != [] || s.poisoned
  }

  /** Only the last of the closed segments has to do with the active one. */
  lemma SameFront(s: Store, t: Store, lim: Limits)
    requires Packed(s, lim) && t.front == s.front
    requires s.front != [] ==> Tight(s.front[|s.front| - 1].size, Tried(t), lim)
    ensures Packed(t, lim)
  {
    hide Tried, Tight;
    forall i | 0 <= i < |t.front|
      ensures Tight(t.front[i].size, After(t, i), lim)
    {
      assert i + 1 < |t.front| ==> After(t, i) == After(s, i);
    }
  }

  /** One more closed segment. */
  lemma LongerFront(s: Store, t: Store, g: SegState, lim: Limits)
    requires Packed(s, lim) && t.front == s.front + [g] && g.batches == s.active.batches && s.torn.None?
    requires Tight(g.size, Tried(t), lim)
    ensures Packed(t, lim)
  {
    hide Tight;
    assert s.active.batches + [] == s.active.batches;
    forall i | 0 <= i < |t.front|
      ensures Tight(t.front[i].size, After(t, i), lim)
    {
      if i < |s.front| {
        assert t.front[i] == s.front[i] && After(t, i) == After(s, i);
      }
    }
  }

  // ------------------------------------------------------------------------- appends

  lemma GrownBatches(g: SegState, b: Batch, n: nat, interval: nat)
    requires g.base <= g.next <= g.base + MAX_UINT32 && g.size <= MAX_INT64 && g.indexSize <= |g.index.bytes| && n <= 12
    ensures GrownSeg(g, b, n, interval).batches == g.batches + [b]
  {
    hide WriteAt, EntryBytes, Due;
  }

  lemma FlushedBatches(g: SegState, io: FlushOutcome)
    ensures FlushedSeg(g, io).batches == g.batches
  {
  }

  /** A write to a segment with room: nothing is tried, or the batch is. */
  lemma WriteShape(s: Store, b: Batch, io: AppendIO, sync: bool, lim: Limits)
    requires Ready(s) && Proper(io) && !Rolls(s, |b.bytes|, lim) && s.torn.None? && !s.poisoned
    ensures var t := AppendOutcome(s, b, io, sync, lim);
            && t.front == s.front
            && if s.logEnd - s.active.base > MAX_UINT32 then t.poisoned && Tried(t) == Tried(s)
               else Tried(t) == s.active.batches + [b] && (t.poisoned || t.active.batches == s.active.batches + [b])
  {
    hide GrownSeg, FlushedSeg, FlushOk, Part;
    assert s.active.batches + [b] + [] == s.active.batches + [b];
    if s.logEnd - s.active.base <= MAX_UINT32 {
      GrownBatches(s.active, b, IndexPart(io), lim.interval);
      FlushedBatches(PutOutcome(s, b, io, lim).active, io.flush);
    }
  }

  lemma WritePacked(s: Store, b: Batch, io: AppendIO, sync: bool, lim: Limits)
    requires Ready(s) && Proper(io) && !Rolls(s, |b.bytes|, lim) && s.torn.None? && !s.poisoned
    requires Packed(s, lim) && Settled(s)
    ensures var t := AppendOutcome(s, b, io, sync, lim); Packed(t, lim) && Settled(t)
  {
    hide AppendOutcome, Packed, Ready, Rolls;
    var t := AppendOutcome(s, b, io, sync, lim);
    WriteShape(s, b, io, sync, lim);
    if s.front != [] {
      LastTight(s, lim);
      assert Tried(s)[0] == s.active.batches[0] == Tried(t)[0];
    }
    SameFront(s, t, lim);
  }

  lemma LastTight(s: Store, lim: Limits)
    requires Packed(s, lim) && s.front != []
    ensures Tight(s.front[|s.front| - 1].size, Tried(s), lim)
  {
    hide Tight, Tried;
    assert After(s, |s.front| - 1) == Tried(s);
  }

  /** A rollover that fails changes no batches, and one that succeeds is followed by the batch there was no room for. */
  lemma RollPacked(s: Store, b: Batch, io: AppendIO, sync: bool, lim: Limits)
    requires Ready(s) && Proper(io) && Rolls(s, |b.bytes|, lim) && s.torn.None? && !s.poisoned && Packed(s, lim)
    ensures var t := AppendOutcome(s, b, io, sync, lim); Packed(t, lim) && Settled(t)
  {
    hide Packed, Tight;
    var (t, r) := (AppendOutcome(s, b, io, sync, lim), RollOutcome(s, io));
    if RollOk(s, io) {
      RollFirst(s, b, io, sync, lim);
      assert t == AppendOutcome(r, b, io, sync, lim);
      RolledWrite(s, b, io, sync, lim);
    } else {
      assert t == r;
      if s.front != [] {
        LastTight(s, lim);
      }
      SameFront(s, t, lim);
    }
  }

  lemma RolledWrite(s: Store, b: Batch, io: AppendIO, sync: bool, lim: Limits)
    requires Ready(s) && Proper(io) && Rolls(s, |b.bytes|, lim) && s.torn.None? && !s.poisoned && Packed(s, lim)
    requires RollOk(s, io) && Ready(RollOutcome(s, io)) && !Rolls(RollOutcome(s, io), |b.bytes|, lim)
    ensures var t := AppendOutcome(RollOutcome(s, io), b, io, sync, lim); Packed(t, lim) && Settled(t)
  {
    hide AppendOutcome, Packed;
    var r := RollOutcome(s, io);
    var t := AppendOutcome(r, b, io, sync, lim);
    WriteShape(r, b, io, sync, lim);
    assert [] + [b] == [b];
    LongerFront(s, t, FlushedSeg(s.active, io.rollFlush), lim);
  }

  /** Appends keep the segments packed, however they end. */
  lemma AppendPacked(s: Store, b: Batch, io: AppendIO, sync: bool, lim: Limits)
    requires ValidStore(s, lim) && !s.poisoned && Ready(s) && Proper(io) && Packed(s, lim) && Settled(s)
    ensures var t := AppendOutcome(s, b, io, sync, lim); Packed(t, lim) && Settled(t)
  {
    hide ValidStore, ValidSeg, AppendOutcome, Packed, Settled;
    Healthy(s, lim);
    if Rolls(s, |b.bytes|, lim) {
      RollPacked(s, b, io, sync, lim);
    } else {
      WritePacked(s, b, io, sync, lim);
    }
  }

  /** An empty segment behind a closed one takes any batch, and then the closed one is packed exactly if it had no room
      for it. */
  lemma UnsettledExactly(s: Store, b: Batch, io: AppendIO, sync: bool, lim: Limits)
    requires ValidStore(s, lim) && !s.poisoned && Ready(s) && Proper(io) && Packed(s, lim) && !Settled(s)
    ensures var t := AppendOutcome(s, b, io, sync, lim);
            && Settled(t)
            && (Packed(t, lim) <==> s.front[|s.front| - 1].size + |b.bytes| > lim.segmentMax)
  {
    hide ValidStore, ValidSeg, AppendOutcome, Packed, Pos, Off;
    var t := AppendOutcome(s, b, io, sync, lim);
    Healthy(s, lim);
    EmptySeg(s.active, lim);
    WriteShape(s, b, io, sync, lim);
    assert [] + [b] == [b];
    if Packed(t, lim) {
      LastTight(t, lim);
    } else if s.front[|s.front| - 1].size + |b.bytes| > lim.segmentMax {
      SameFront(s, t, lim);
    }
  }

  lemma EmptySeg(g: SegState, lim: Limits)
    requires ValidSeg(g, lim) && g.batches == []
    ensures g.size == 0 && g.next == g.base
  {
    hide Fitting, EntriesOn, GreedyEntries;
  }

  // ---------------------------------------------------------------------- whole runs

  lemma DroppedPacked(s: Store, k: nat, lim: Limits)
    requires k <= |s.front| && Packed(s, lim) && Settled(s)
    ensures Packed(Dropped(s, k), lim) && Settled(Dropped(s, k))
  {
    hide Tight, Chain;
    var t := Dropped(s, k);
    forall i | 0 <= i < |t.front|
      ensures Tight(t.front[i].size, After(t, i), lim)
    {
      assert t.front[i] == s.front[k + i] && After(t, i) == After(s, k + i);
    }
  }

  lemma ApplyPacked(s: Store, op: Op, sync: bool, lim: Limits)
    requires ValidStore(s, lim) && Packed(s, lim) && Settled(s)
    ensures var t := Apply(s, op, sync, lim); Packed(t, lim) && Settled(t)
  {
    hide ValidStore, AppendOutcome, Packed, Settled, StampedBatch, Dropped, Ready;
    if !s.closed && !s.poisoned {
      match op
      case AppendOp(records, timestamp, io) =>
        if records != [] && s.logEnd + |records| <= MAX_UINT64 && Ready(s) && Proper(io) {
          AppendPacked(s, StampedBatch(records, s.logEnd, timestamp), io, sync, lim);
        }
      case RetainOp(cutoff, limit, faults) =>
        DroppedPacked(s, Retained(s, cutoff, limit, faults).k, lim);
    }
  }

  lemma ApplyKeeps(s: Store, op: Op, sync: bool, lim: Limits)
    requires ValidStore(s, lim) && ProperOp(op)
    ensures ValidStore(Apply(s, op, sync, lim), lim)
  {
    hide ValidStore, AppendOutcome, StampedBatch, Dropped, Ready, Model, LogAfter;
    if !s.closed && !s.poisoned {
      match op
      case AppendOp(records, timestamp, io) =>
        if records != [] && s.logEnd + |records| <= MAX_UINT64 && Ready(s) && Proper(io) {
          var b := StampedBatch(records, s.logEnd, timestamp);
          if |b.bytes| <= lim.maxBatch {
            StampedValid(records, s.logEnd, timestamp);
            AppendKeeps(s, b, io, sync, lim);
          }
        }
      case RetainOp(cutoff, limit, faults) =>
        DroppedValid(s, Retained(s, cutoff, limit, faults).k, lim);
    }
  }

  /** In every run of appends and retentions, whatever fails, the segments stay packed. */
  lemma {:induction false} RunPacked(s: Store, ops: seq<Op>, sync: bool, lim: Limits)
    requires ValidStore(s, lim) && Packed(s, lim) && Settled(s) && forall op <- ops :: ProperOp(op)
    ensures var t := ApplyAll(s, ops, sync, lim); ValidStore(t, lim) && Packed(t, lim) && Settled(t)
    decreases |ops|
  {
    hide ValidStore, Packed, Settled, Apply, ProperOp;
    if ops != [] {
      var n := |ops| - 1;
      RunPacked(s, ops[..n], sync, lim);
      assert ops[n] in ops;
      var t := ApplyAll(s, ops[..n], sync, lim);
      ApplyKeeps(t, ops[n], sync, lim);
      ApplyPacked(t, ops[n], sync, lim);
    }
  }

  // ------------------------------------------------------------------------ restarts

  /** Recovery keeps the segments packed, and settled unless the last one came back empty behind another. */
  lemma ReopenedPacked(s: Store, dir: Directory, rec: seq<SegState>, lim: Limits)
    requires ValidStore(s, lim) && Packed(s, lim) && RecoveredSegs(s, dir, rec, lim)
    ensures rec != [] && Packed(Reopened(s, rec), lim)
    ensures Settled(Reopened(s, rec)) <==> |rec| == 1 || rec[|rec| - 1].batches != []
  {
    hide ValidStore, ValidSeg, RecoveredSegs, Tight, Packed;
    SomeRecovered(s, dir, rec, lim);
    var t := Reopened(s, rec);
    assert t.active.batches + [] == t.active.batches;
    forall i | 0 <= i < |t.front|
      ensures Tight(t.front[i].size, After(t, i), lim)
    {
      PairPacked(s, dir, rec, i, lim);
      assert After(t, i) == rec[i + 1].batches;
    }
    assert Packed(t, lim) by { AllTight(t, lim); }
  }

  lemma AllTight(t: Store, lim: Limits)
    requires forall i | 0 <= i < |t.front| :: Tight(t.front[i].size, After(t, i), lim)
    ensures Packed(t, lim)
  {
  }

  lemma SomeRecovered(s: Store, dir: Directory, rec: seq<SegState>, lim: Limits)
    requires RecoveredSegs(s, dir, rec, lim)
    ensures rec != []
  {
    hide RecoveredSeg;
  }

  lemma PairPacked(s: Store, dir: Directory, rec: seq<SegState>, i: nat, lim: Limits)
    requires ValidStore(s, lim) && Packed(s, lim) && RecoveredSegs(s, dir, rec, lim) && i + 1 < |rec|
    ensures Tight(rec[i].size, rec[i + 1].batches, lim)
  {
    hide ValidStore, ValidSeg, RecoveredSeg, Packed;
    assert RecoveredSeg(Images(s)[i], dir, rec[i], false, lim);
    assert RecoveredSeg(Images(s)[i + 1], dir, rec[i + 1], i + 1 == |rec| - 1, lim);
    RecoveredWhole(Images(s)[i], dir, rec[i], lim);
    RecoveredFirst(Images(s)[i + 1], dir, rec[i + 1], i + 1 == |rec| - 1, lim);
    SegSizes(rec[i], lim);
    if i < |s.front| {
      FrontSize(s, i, lim);
      ImageTight(s, i, lim);
    } else {
      assert Images(s)[i + 1] == Image(s.logEnd, []);
    }
  }

  /** What is left of a segment begins with its first batch, or is nothing. */
  lemma RecoveredFirst(m: Image, dir: Directory, g: SegState, last: bool, lim: Limits)
    requires RecoveredSeg(m, dir, g, last, lim)
    ensures g.batches <= m.all
  {
    hide ValidSeg, IndexRecovered, WholeBatches;
  }

  lemma FrontSize(s: Store, i: nat, lim: Limits)
    requires ValidStore(s, lim) && i < |s.front|
    ensures s.front[i].size == Size(s.front[i].batches)
  {
    hide ValidStore, ValidSeg, Pos;
    FrontValid(s, i, lim);
    SegSizes(s.front[i], lim);
  }

  lemma ImageTight(s: Store, i: nat, lim: Limits)
    requires Packed(s, lim) && i < |s.front|
    ensures i + 1 < |Images(s)| && Images(s)[i].all == s.front[i].batches
    ensures Tight(s.front[i].size, Images(s)[i + 1].all, lim)
  {
    hide Tight, Tried;
    assert Images(s)[i + 1].all == After(s, i);
  }
}

/** A run that leaves a closed segment with room for the next batch: the one that did not fit was lost in a rollover. */
module PackingLoss {
  import opened Bytes
  import opened Format
  import opened Batches
  import opened SegmentFile
  import opened Stamping
  import opened Appending
  import opened StoreSteps
  import opened Reading
  import opened Placement
  import opened Crash
  import opened PartitionStore
  import opened Opening
  import opened Lifecycle
  import opened RestartLoss
  import opened Packing
  import S = StoreState
  import LogSpec
  import LogRuns

  /** A record with `n` bytes of value. */
  function Wide(n: nat): Record { Record(None, Some(seq(n, _ => 0)), None, 0) }

  lemma WideSize(n: nat, base: nat)
    requires base < MAX_UINT64
    ensures |StampedBatch([Wide(n)], base, 0).bytes| == 57 + n
  {
    hide Encode;
    var st := Stamped([Wide(n)], base, 0);
    PageOnWire(st);
    assert st[..0] == [] && st[1..] == [];
    assert Total(st) == RecordBytes(st[0]) == n + 16;
  }

  const FAILED_ROLL := NO_FAILURE.(create := LogOnly)

  /** The state after the rollover for the wide record made its log file and then failed. */
  ghost predicate Stuck(s: S.Store) {
    && s.front == [] && s.spare && s.logEnd == 1 && s.torn.None? && !s.closed
    && s.active.base == 0 && |s.active.batches| == 1 && s.active.size == 57
  }

  lemma RollSticks(s: S.Store, n: nat, lim: Limits)
    requires S.ValidStore(s, lim) && Counted(s, 1, 1) && Ready(s) && 57 + 57 + n > lim.segmentMax
    ensures var b := StampedBatch([Wide(n)], 1, 0); Stuck(AppendOutcome(s, b, FAILED_ROLL, false, lim))
  {
    hide S.ValidStore, ValidSeg, StampedBatch;
    Healthy(s, lim);
    WideSize(n, 1);
  }

  /** Recovery makes the empty file the active segment. */
  lemma StuckBack(s: S.Store, dir: Directory, rec: seq<SegState>, lim: Limits)
    requires S.ValidStore(s, lim) && Stuck(s) && RecoveredSegs(s, dir, rec, lim)
    ensures rec != []
    ensures var t := Reopened(s, rec);
            && Packed(t, lim) && !Settled(t) && |t.front| == 1 && t.front[0].size == 57 && t.logEnd == 1
  {
    hide S.ValidStore, ValidSeg, RecoveredSeg, Packed, Pos, Off, Run;
    assert s.active.batches + [] == s.active.batches;
    assert Images(s) == [Image(0, s.active.batches), Image(1, [])];
    assert Packed(s, lim) by { AllTight(s, lim); }
    assert RecoveredSeg(Images(s)[0], dir, rec[0], false, lim) && RecoveredSeg(Images(s)[1], dir, rec[1], true, lim);
    RecoveredWhole(Images(s)[0], dir, rec[0], lim);
    RecoveredFirst(Images(s)[1], dir, rec[1], true, lim);
    RecoveredParts(Images(s)[1], dir, rec[1], true, lim);
    EmptySeg(rec[1], lim);
    SegSizes(rec[0], lim);
    SegValid(s, 0, lim);
    SegSizes(s.active, lim);
    ReopenedPacked(s, dir, rec, lim);
  }

  /** A store whose first segment holds one bare record and a failed rollover behind it. */
  method FailedRoll(lim: Limits) returns (store: Store)
    requires lim.interval <= 57 && 57 <= lim.maxBatch && 114 <= lim.segmentMax <= lim.maxBatch + 56
    ensures store.Valid() && store.lim == lim && !store.sync && Stuck(store.State())
  {
    hide S.ValidStore, S.Model, Snap, StampedBatch, AppendOutcome, Mirrored, LogAfter, LogSpec.AppendStep,
         LogRuns.LiveStep, StageOf, Delivered, Stuck;
    store := EmptyStore(lim, false);
    AppendBare(store, 0, 0);
    var n := lim.segmentMax - 113;
    WideSize(n, 1);
    HealthyReady(store.State(), lim);
    RollSticks(store.State(), n, lim);
    var r := store.Append([Wide(n)], 0, FAILED_ROLL);
  }

  /** After the restart a bare record goes into the empty segment, though the closed one had room for it. */
  method PackingLost(lim: Limits) returns (store: Store)
    requires lim.interval <= 57 && 57 <= lim.maxBatch && 114 <= lim.segmentMax <= lim.maxBatch + 56
    ensures store.Valid() && store.lim == lim && !Packed(store.State(), lim)
  {
    hide S.ValidStore, S.Model, Snap, StampedBatch, AppendOutcome, Mirrored, LogAfter, LogSpec.AppendStep,
         LogRuns.LiveStep, StageOf, Delivered, Stuck, Packed, Settled, ExactFiles, Untouched, Listing, ProperFiles,
         RecoveredSegs, MayLeave, LogSpec.RestartStep;
    var first := FailedRoll(lim);
    var dir, bases := FilesOf(first);
    UntouchedLog(first.State(), dir);
    var o := OpenStore(lim, false, dir, bases, first.State());
    store := o.store;
    StuckBack(first.State(), dir, Snap(store.segments), lim);
    HealthyReady(store.State(), lim);
    BareSize(1);
    UnsettledExactly(store.State(), StampedBatch([BARE], 1, 0), NO_FAILURE, false, lim);
    var r := store.Append([BARE], 0, NO_FAILURE);
  }
}
