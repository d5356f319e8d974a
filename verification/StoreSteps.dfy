/** What each change a store makes to its state does to validity and to the log it stands for. */
module StoreSteps {
  import opened Bytes
  import opened Files
  import opened Format
  import opened Batches
  import opened Recovery
  import opened Index
  import opened SegmentFile
  import opened StoreState
  import LogSpec

  /** A segment just created: both files empty. */
  function FreshSeg(base: nat): SegState {
    SegState(base, base, 0, File([], 0), File([], 0), [], -1, 0, false, 0, [], true)
  }

  lemma FreshValid(base: nat, lim: Limits)
    ensures ValidSeg(FreshSeg(base), lim)
  {
  }

  lemma ChainPush(front: seq<SegState>, s: SegState)
    ensures Chain(front + [s]) == Chain(front) + s.batches
  {
    assert (front + [s])[..|front|] == front;
  }

  /** Unsynced bytes behind a batch do not make it durable. */
  lemma DurablePush(bs: seq<Batch>, b: Batch, synced: nat)
    requires synced <= Size(bs)
    ensures WholeBatches(bs + [b], |bs| + 1, synced) == WholeBatches(bs, |bs|, synced)
  {
    hide Pos;
    var w := WholeBatches(bs, |bs|, synced);
    Push(bs, b);
    AgreeAll(bs, bs + [b]);
    WholeBatchesExact(bs + [b], synced, w);
  }

  lemma DurableAll(s: SegState)
    requires s.log.synced >= Size(s.batches)
    ensures Durable(s) == |s.batches|
  {
  }

  /** The active segment has taken one more batch. */
  lemma AfterAppend(s: Store, active: SegState, b: Batch, lim: Limits, s': Store)
    requires ValidStore(s, lim) && s.torn.None? && !s.spare
    requires ValidSeg(active, lim) && active.base == s.active.base && active.batches == s.active.batches + [b]
    requires |active.log.bytes| == active.size && active.log.synced == s.active.log.synced
    requires s' == s.(active := active, logEnd := active.next)
    ensures ValidStore(s', lim)
    ensures Model(s') == Model(s).(history := Model(s).history + [b])
  {
    hide ValidSeg, ValidFront, Run, Off, Pos, Chain, WholeBatches, ClosedSeg;
    assert Before(s') == Before(s);
    assert Before(s) + (s.active.batches + [b]) == Before(s) + s.active.batches + [b];
    SegSizes(s.active, lim);
    DurablePush(s.active.batches, b, s.active.log.synced);
  }

  lemma SegSizes(s: SegState, lim: Limits)
    requires ValidSeg(s, lim)
    ensures s.size == Size(s.batches) && s.log.synced <= |s.log.bytes| && s.size <= |s.log.bytes|
    ensures s.base <= s.next && s.indexSize <= |s.index.bytes|
  {
    hide Fitting, Sound, EntriesOn, GreedyEntries, Latest;
    LogLength(s.batches);
  }

  /** Flushing changes only what is durable. */
  lemma FlushedValid(s: SegState, io: FlushOutcome, lim: Limits)
    requires ValidSeg(s, lim)
    ensures ValidSeg(FlushedSeg(s, io), lim)
    ensures Durable(FlushedSeg(s, io)) == if io.LogSyncFailed? then Durable(s) else |s.batches|
  {
    hide Fitting, Sound, EntriesOn, GreedyEntries, Latest, Pos;
    LogLength(s.batches);
    if !io.LogSyncFailed? {
      DurableAll(FlushedSeg(s, io));
    }
  }

  lemma AfterFlush(s: Store, io: FlushOutcome, lim: Limits, s': Store)
    requires ValidStore(s, lim) && s' == s.(active := FlushedSeg(s.active, io))
    ensures ValidStore(s', lim)
    ensures Model(s') == if io.LogSyncFailed? then Model(s) else Model(s).(durable := |Model(s).history|)
  {
    hide ValidSeg, ValidFront, Run, Off, Chain, Durable, Fitting, LogBytes;
    FlushedValid(s.active, io, lim);
    assert Before(s') == Before(s);
  }

  /** Rollover: the flushed active segment is closed, an empty one takes its place. */
  lemma AfterRoll(s: Store, lim: Limits, s': Store)
    requires ValidStore(s, lim) && s.torn.None? && !s.spare
    requires s.active.batches != [] && s.active.log.synced == |s.active.log.bytes|
    requires s' == s.(front := s.front + [s.active], active := FreshSeg(s.active.next))
    ensures ValidStore(s', lim) && Model(s') == Model(s)
  {
    hide ValidSeg, Run, Off, Chain, Fitting, LogBytes, Pos;
    FreshValid(s.active.next, lim);
    ChainPush(s.front, s.active);
    assert Before(s') + [] == Before(s) + s.active.batches;
    SegSizes(s.active, lim);
    DurableAll(s.active);
    FrontPush(s.front, s.active, lim);
  }

  /** Unless poisoned, the active log is exactly its batches. */
  lemma Healthy(s: Store, lim: Limits)
    requires ValidStore(s, lim) && !s.poisoned
    ensures s.torn.None? && !s.spare && |s.active.log.bytes| == s.active.size && ValidSeg(s.active, lim)
    ensures s.logEnd == s.active.next && s.active.base <= s.active.next
    ensures s.active.size == Size(s.active.batches) && s.active.indexSize <= |s.active.index.bytes|
    ensures s.active.log.synced <= s.active.size
  {
    hide ValidSeg, ValidFront, Run, Off, Pos, ClosedSeg, Fitting;
    SegSizes(s.active, lim);
  }

  lemma ActiveFields(s: SegState, lim: Limits)
    requires ValidSeg(s, lim)
    ensures s.lastIndexed == LastPosition(s.entries) && s.latest >= 0 && s.size <= lim.segmentMax
  {
    hide Sound, EntriesOn, GreedyEntries, Latest, Run, Indexable;
  }

  /** A completed write: the store is valid, and the log has the batch. */
  lemma Grown(s: Store, b: Batch, n: nat, lim: Limits, s': Store)
    requires ValidStore(s, lim) && !s.poisoned && n <= 12
    requires ValidBatch(b, s.logEnd) && |b.bytes| <= lim.maxBatch
    requires s.active.base <= s.active.next <= s.active.base + MAX_UINT32
    requires s.active.size + |b.bytes| <= lim.segmentMax && s.active.indexSize <= |s.active.index.bytes|
    requires s' == s.(active := GrownSeg(s.active, b, n, lim.interval), logEnd := s.logEnd + |b.records|)
    ensures ValidStore(s', lim) && !s'.poisoned && s'.torn.None? && !s'.spare
    ensures Model(s') == Model(s).(history := Model(s).history + [b]) && Model(s).durable <= |Model(s).history|
  {
    hide ValidStore, ValidSeg, ValidBatch, Model, WriteAt, EntryBytes, MaxTimestamp;
    Healthy(s, lim);
    AppendValid(s.active, b, lim, Due(s.active.entries, s.active.size, lim.interval), n, s'.active);
    AfterAppend(s, s'.active, b, lim, s');
    DurableBound(s);
  }

  lemma DurableBound(s: Store)
    ensures Model(s).durable <= |Model(s).history|
  {
    hide Before;
  }

  lemma ModelFlags(s: Store)
    ensures Model(s).poisoned == s.poisoned && Model(s).closed == s.closed && Model(s).torn == s.torn
  {
    hide Before, Durable;
  }

  /** Giving up: nothing is changed but the flags. A failed rollover may leave an empty file behind. */
  lemma AfterPoison(s: Store, spare: bool, lim: Limits, s': Store)
    requires ValidStore(s, lim) && s.torn.None? && !s.spare && (spare ==> ClosedSeg(s.active))
    requires s' == s.(poisoned := true, spare := spare)
    ensures ValidStore(s', lim) && Model(s') == Model(s).(poisoned := true)
  {
    hide ValidSeg, ValidFront, Run, Off, Chain, WholeBatches, ClosedSeg;
    assert Before(s') == Before(s);
  }

  lemma AfterClose(s: Store, lim: Limits)
    requires ValidStore(s, lim)
    ensures ValidStore(s.(closed := true), lim) && Model(s.(closed := true)) == Model(s).(closed := true)
  {
    hide ValidSeg, ValidFront, Run, Off, Chain, WholeBatches, ClosedSeg;
    assert Before(s.(closed := true)) == Before(s);
  }

  lemma FrontPush(front: seq<SegState>, s: SegState, lim: Limits)
    requires ValidFront(front, s.base, lim) && ValidSeg(s, lim) && ClosedSeg(s)
    ensures ValidFront(front + [s], s.next, lim)
    ensures NextBase(front + [s], s.next, 0) == NextBase(front, s.base, 0)
  {
    hide ValidSeg, ClosedSeg;
  }

  /** A write that failed part-way poisons the store and leaves part of the batch behind. */
  lemma AfterTorn(s: Store, b: Batch, part: seq<byte>, lim: Limits, s': Store)
    requires ValidStore(s, lim) && s.torn.None? && !s.spare && part <= b.bytes
    requires ValidBatch(b, s.logEnd) && |b.bytes| <= lim.maxBatch
    requires s.logEnd - s.active.base <= MAX_UINT32 && s.active.size + |b.bytes| <= lim.segmentMax
    requires s' == s.(active := s.active.(log := File(s.active.log.bytes + part, s.active.log.synced)),
                      torn := Some(b), poisoned := true)
    ensures ValidStore(s', lim) && Model(s') == Model(s).(torn := Some(b), poisoned := true)
  {
    hide ValidBatch, ValidFront, Run, Off, Pos, Chain, WholeBatches, Fitting, Sound, EntriesOn, GreedyEntries, Latest,
         LogBytes;
    assert Before(s') == Before(s);
    var bs := s.active.batches;
    FittingPush(bs, s.active.base, lim, b);
    Push(bs, b);
    LogLength(bs);
    TornBytes(LogBytes(bs), b.bytes, part);
  }

  lemma TornBytes(log: seq<byte>, b: seq<byte>, part: seq<byte>)
    requires part <= b
    ensures log + part <= log + b
  {
  }

  /** Retention: the oldest closed segment is gone, and the log starts at the next. */
  lemma AfterRetain(s: Store, lim: Limits, s': Store)
    requires ValidStore(s, lim) && s.front != []
    requires s' == s.(front := s.front[1..], gone := s.gone + s.front[0].batches,
                      earliest := NextBase(s.front[1..], s.active.base, 0))
    ensures ValidStore(s', lim)
    ensures Model(s') == Model(s).(cut := Model(s').cut) && Model(s).cut <= Model(s').cut <= Model(s).durable
  {
    hide ValidSeg, ClosedSeg, Run, Off, Chain, WholeBatches, ValidTail;
    var first := s.front[0];
    ChainFront(s.front);
    SegRun(first, lim);
    RunConcat(s.gone, first.batches, 0);
    assert Before(s') == Before(s);
  }

  lemma {:induction false} ChainFront(front: seq<SegState>)
    requires front != []
    ensures Chain(front) == front[0].batches + Chain(front[1..])
    decreases |front|
  {
    if |front| > 1 {
      var init := front[..|front| - 1];
      ChainFront(init);
      assert init[1..] == front[1..][..|front| - 2];
    }
  }

  /** The state of a valid store stands for a well-formed log. */
  lemma ModelWellFormed(s: Store, lim: Limits)
    requires ValidStore(s, lim)
    ensures LogSpec.WellFormed(Model(s))
  {
    hide ValidBatch, ValidSeg, ValidFront, Off, Chain, Pos, LogBytes, ClosedSeg;
    HistoryRun(s, lim);
    if s.torn.Some? {
      FittingLast(s.active.batches, s.torn.value, s.active.base, lim);
      SegRun(s.active, lim);
    }
  }

  lemma FittingLast(bs: seq<Batch>, b: Batch, base: nat, lim: Limits)
    requires Fitting(bs + [b], base, lim)
    ensures ValidBatch(b, base + Count(bs))
  {
    hide ValidBatch, Off, Pos;
    RunAt(bs + [b], base, |bs|);
    Push(bs, b);
  }
}
