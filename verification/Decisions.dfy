/** Same state, same decisions: a store and its reopened self take every later append and retention alike. */
module Decisions {
  import opened Bytes
  import opened Files
  import opened Format
  import opened Batches
  import opened Index
  import opened SegmentFile
  import opened Stamping
  import opened StoreState
  import opened StoreSteps
  import opened Appending
  import opened Placement
  import opened Retention
  import opened Restart

  /** Both are open or not, poisoned or not, and agree in all that operations look at. */
  ghost predicate Alike(s: Store, s': Store) {
    SameState(s, s') && s.poisoned == s'.poisoned && s.closed == s'.closed
  }

  /** No failure that depends on whether the index has changed since it was synced. */
  predicate Steady(io: AppendIO) { !io.rollFlush.IndexSyncFailed? && !io.flush.IndexSyncFailed? }

  lemma AlikeActive(s: Store, s': Store)
    requires SameState(s, s')
    ensures Working(s.active) == Working(s'.active)
  {
    assert Seg(s, |s.front|) == s.active && Seg(s', |s.front|) == s'.active;
  }

  /** Changing the active segments alike. */
  lemma AlikeChanged(s: Store, s': Store, t: Store, t': Store)
    requires Alike(s, s') && t.front == s.front && t'.front == s'.front && Working(t.active) == Working(t'.active)
    requires t.logEnd == t'.logEnd && t.earliest == s.earliest && t'.earliest == s'.earliest
    requires t.poisoned == t'.poisoned && t.closed == t'.closed
    ensures Alike(t, t')
  {
    hide Working;
    forall i | 0 <= i <= |t.front|
      ensures Working(Seg(t, i)) == Working(Seg(t', i))
    {
      assert Working(Seg(s, i)) == Working(Seg(s', i));
    }
  }

  lemma FlushedAlike(g: SegState, g': SegState, io: FlushOutcome)
    requires Working(g) == Working(g') && (g.dirty == g'.dirty || !io.IndexSyncFailed?)
    ensures Working(FlushedSeg(g, io)) == Working(FlushedSeg(g', io)) && FlushOk(g, io) == FlushOk(g', io)
    ensures g.dirty == g'.dirty ==> FlushedSeg(g, io).dirty == FlushedSeg(g', io).dirty
  {
  }

  lemma RollAlike(s: Store, s': Store, io: AppendIO)
    requires Alike(s, s') && (s.active.dirty == s'.active.dirty || Steady(io))
    ensures Alike(RollOutcome(s, io), RollOutcome(s', io)) && RollOk(s, io) == RollOk(s', io)
    ensures var (r, r') := (RollOutcome(s, io), RollOutcome(s', io));
            s.active.dirty == s'.active.dirty || RollOk(s, io) ==> r.active.dirty == r'.active.dirty
  {
    hide FlushedSeg, Working, FlushOk;
    AlikeActive(s, s');
    FlushedAlike(s.active, s'.active, io.rollFlush);
    var t, t' := s.(active := FlushedSeg(s.active, io.rollFlush)), s'.(active := FlushedSeg(s'.active, io.rollFlush));
    AlikeChanged(s, s', t, t');
    if RollOk(s, io) {
      PushAlike(t, t', s.logEnd);
    } else {
      AlikeChanged(t, t', RollOutcome(s, io), RollOutcome(s', io));
    }
  }

  lemma PushAlike(t: Store, t': Store, base: nat)
    requires Alike(t, t')
    ensures Alike(t.(front := t.front + [t.active], active := FreshSeg(base)),
                  t'.(front := t'.front + [t'.active], active := FreshSeg(base)))
  {
    hide Working;
    var u := t.(front := t.front + [t.active], active := FreshSeg(base));
    var u' := t'.(front := t'.front + [t'.active], active := FreshSeg(base));
    forall i | 0 <= i <= |u.front|
      ensures Working(Seg(u, i)) == Working(Seg(u', i))
    {
      if i <= |t.front| {
        assert Seg(u, i) == Seg(t, i) && Seg(u', i) == Seg(t', i);
      }
    }
  }

  lemma GrownAlike(g: SegState, g': SegState, b: Batch, n: nat, interval: nat)
    requires Working(g) == Working(g') && n <= 12
    requires g.base <= g.next <= g.base + MAX_UINT32 && g.size <= MAX_INT64 && g.indexSize <= |g.index.bytes|
    ensures Working(GrownSeg(g, b, n, interval)) == Working(GrownSeg(g', b, n, interval))
    ensures g.dirty == g'.dirty ==> GrownSeg(g, b, n, interval).dirty == GrownSeg(g', b, n, interval).dirty
  {
    hide MaxTimestamp, EntryBytes;
  }

  lemma ReadyAlike(s: Store, s': Store)
    requires Alike(s, s')
    ensures Ready(s) == Ready(s')
  {
    AlikeActive(s, s');
  }

  /** What StageOf looks at. */
  lemma FieldsAlike(s: Store, s': Store)
    requires Alike(s, s')
    ensures s.logEnd == s'.logEnd && s.poisoned == s'.poisoned && s.closed == s'.closed
    ensures s.active.base == s'.active.base && s.active.size == s'.active.size && s.active.entries == s'.active.entries
  {
    AlikeActive(s, s');
  }

  lemma ActiveAlike(g: SegState, g': SegState)
    requires Working(g) == Working(g')
    ensures g.base == g'.base && g.next == g'.next && g.size == g'.size && g.indexSize == g'.indexSize
    ensures g.index.bytes == g'.index.bytes
  {
  }

  lemma TornAlike(g: SegState, g': SegState, part: seq<byte>)
    requires Working(g) == Working(g')
    ensures Working(g.(log := File(g.log.bytes + part, g.log.synced))) ==
            Working(g'.(log := File(g'.log.bytes + part, g'.log.synced)))
  {
  }

  lemma PutAlike(s: Store, s': Store, b: Batch, io: AppendIO, lim: Limits)
    requires Alike(s, s') && Ready(s) && Ready(s') && Proper(io)
    requires s.logEnd - s.active.base <= MAX_UINT32 && s'.logEnd - s'.active.base <= MAX_UINT32
    ensures var (p, p') := (PutOutcome(s, b, io, lim), PutOutcome(s', b, io, lim));
            Alike(p, p') && (s.active.dirty == s'.active.dirty ==> p.active.dirty == p'.active.dirty)
  {
    hide GrownSeg, Part, Working, SameState;
    AlikeActive(s, s');
    if io.write.Complete? {
      ActiveAlike(s.active, s'.active);
      GrownAlike(s.active, s'.active, b, IndexPart(io), lim.interval);
    } else {
      TornAlike(s.active, s'.active, Part(b.bytes, io.write));
    }
    FieldsAlike(s, s');
    AlikeChanged(s, s', PutOutcome(s, b, io, lim), PutOutcome(s', b, io, lim));
  }

  lemma SyncAlike(s: Store, s': Store, sync: bool, io: FlushOutcome)
    requires Alike(s, s') && (s.active.dirty == s'.active.dirty || !io.IndexSyncFailed?)
    ensures var (t, t') := (SyncOutcome(s, sync, io), SyncOutcome(s', sync, io));
            Alike(t, t') && (s.active.dirty == s'.active.dirty ==> t.active.dirty == t'.active.dirty)
  {
    hide FlushedSeg, FlushOk, Working;
    AlikeActive(s, s');
    FlushedAlike(s.active, s'.active, io);
    AlikeChanged(s, s', SyncOutcome(s, sync, io), SyncOutcome(s', sync, io));
  }

  /** In a segment with room. */
  lemma WriteAlike(s: Store, s': Store, b: Batch, io: AppendIO, sync: bool, lim: Limits)
    requires Alike(s, s') && (s.active.dirty == s'.active.dirty || Steady(io)) && Ready(s) && Ready(s') && Proper(io)
    requires !Rolls(s, |b.bytes|, lim)
    ensures var (t, t') := (AppendOutcome(s, b, io, sync, lim), AppendOutcome(s', b, io, sync, lim));
            Alike(t, t') && (s.active.dirty == s'.active.dirty ==> t.active.dirty == t'.active.dirty)
    ensures StageOf(s, |b.bytes|, io, sync, lim) == StageOf(s', |b.bytes|, io, sync, lim)
  {
    hide Alike, PutOutcome, SyncOutcome;
    FieldsAlike(s, s');
    if s.logEnd - s.active.base > MAX_UINT32 {
      PoisonAlike(s, s');
    } else {
      PutAlike(s, s', b, io, lim);
      if io.write.Complete? {
        SyncAlike(PutOutcome(s, b, io, lim), PutOutcome(s', b, io, lim), sync, io.flush);
      }
    }
  }

  lemma PoisonAlike(s: Store, s': Store)
    requires Alike(s, s')
    ensures Alike(s.(poisoned := true), s'.(poisoned := true))
  {
    AlikeActive(s, s');
    AlikeChanged(s, s', s.(poisoned := true), s'.(poisoned := true));
  }

  /** The same append: the same roll decision, offsets, result and state afterwards. */
  lemma AppendAlike(s: Store, s': Store, b: Batch, io: AppendIO, sync: bool, lim: Limits)
    requires Alike(s, s') && (s.active.dirty == s'.active.dirty || Steady(io)) && Ready(s) && Ready(s') && Proper(io)
    ensures Rolls(s, |b.bytes|, lim) == Rolls(s', |b.bytes|, lim)
    ensures StageOf(s, |b.bytes|, io, sync, lim) == StageOf(s', |b.bytes|, io, sync, lim)
    ensures var (t, t') := (AppendOutcome(s, b, io, sync, lim), AppendOutcome(s', b, io, sync, lim));
            Alike(t, t') && (s.active.dirty == s'.active.dirty ==> t.active.dirty == t'.active.dirty)
  {
    hide Alike, PutOutcome, SyncOutcome, RollOutcome, StageOf;
    FieldsAlike(s, s');
    if Rolls(s, |b.bytes|, lim) {
      RollAlike(s, s', io);
      if RollOk(s, io) {
        RollFirst(s, b, io, sync, lim);
        RollFirst(s', b, io, sync, lim);
        WriteAlike(RollOutcome(s, io), RollOutcome(s', io), b, io, sync, lim);
      } else {
        RollFails(s, |b.bytes|, io, sync, lim);
        RollFails(s', |b.bytes|, io, sync, lim);
      }
    } else {
      WriteAlike(s, s', b, io, sync, lim);
    }
  }

  lemma RollFails(s: Store, size: nat, io: AppendIO, sync: bool, lim: Limits)
    requires Rolls(s, size, lim) && !RollOk(s, io)
    ensures StageOf(s, size, io, sync, lim) == RollFailed
  {
  }

  // ---------------------------------------------------------------- retention

  lemma {:induction false} SameBytes(a: seq<SegState>, b: seq<SegState>)
    requires |a| == |b| && forall i | 0 <= i < |a| :: Working(a[i]) == Working(b[i])
    ensures FrontBytes(a) == FrontBytes(b)
    decreases |a|
  {
    if a != [] {
      SameBytes(a[..|a| - 1], b[..|b| - 1]);
    }
  }

  lemma DropAlike(s: Store, s': Store, k: nat)
    requires Alike(s, s') && k <= |s.front|
    ensures Alike(Dropped(s, k), Dropped(s', k)) && TotalBytes(Dropped(s, k)) == TotalBytes(Dropped(s', k))
  {
    hide Chain, FrontBytes;
    var (t, t') := (Dropped(s, k), Dropped(s', k));
    forall i | 0 <= i <= |t.front|
      ensures Working(Seg(t, i)) == Working(Seg(t', i))
    {
      assert Seg(t, i) == Seg(s, k + i) && Seg(t', i) == Seg(s', k + i);
    }
    assert Working(Seg(t, 0)) == Working(Seg(t', 0));
    forall i | 0 <= i < |t.front|
      ensures Working(t.front[i]) == Working(t'.front[i])
    {
      assert Seg(t, i) == t.front[i] && Seg(t', i) == t'.front[i];
    }
    SameBytes(t.front, t'.front);
    AlikeActive(t, t');
  }

  lemma LatestAlike(s: Store, s': Store, i: nat)
    requires Alike(s, s') && i < |s.front|
    ensures s.front[i].latest == s'.front[i].latest
  {
    assert Seg(s, i) == s.front[i] && Seg(s', i) == s'.front[i];
  }

  /** The same plan. */
  lemma PlanAlike(s: Store, s': Store, cutoff: int, limit: nat, k: nat)
    requires Alike(s, s') && Planned(s, cutoff, limit, k)
    ensures Planned(s', cutoff, limit, k)
  {
    hide Dropped, TotalBytes, ExpiredCount, Working;
    var e := ExpiredCount(s.front, cutoff);
    forall i | 0 <= i < |s.front|
      ensures s.front[i].latest == s'.front[i].latest
    {
      LatestAlike(s, s', i);
    }
    ExpiredExact(s'.front, cutoff, e);
    forall j | 0 <= j <= |s.front|
      ensures OverLimit(s, limit, j) == OverLimit(s', limit, j)
    {
      DropAlike(s, s', j);
    }
  }

  lemma {:induction false} AgeAlike(s: Store, s': Store, cutoff: int, io: RetainIO, k: nat, attempts: nat)
    requires Alike(s, s') && k <= |s.front|
    ensures AgeLoop(s, cutoff, io, k, attempts) == AgeLoop(s', cutoff, io, k, attempts)
    decreases |s.front| - k
  {
    hide Working;
    if k < |s.front| {
      LatestAlike(s, s', k);
      AgeAlike(s, s', cutoff, io, k + 1, attempts + 1);
    }
  }

  lemma {:induction false} SizeAlike(s: Store, s': Store, limit: nat, io: RetainIO, k: nat, attempts: nat)
    requires Alike(s, s') && k <= |s.front|
    ensures SizeLoop(s, limit, io, k, attempts) == SizeLoop(s', limit, io, k, attempts)
    decreases |s.front| - k
  {
    hide Working, Dropped, TotalBytes;
    DropAlike(s, s', k);
    if k < |s.front| {
      SizeAlike(s, s', limit, io, k + 1, attempts + 1);
    }
  }

  /** Retention goes the same way, whatever its errors. */
  lemma RetainedAlike(s: Store, s': Store, cutoff: int, limit: nat, io: RetainIO)
    requires Alike(s, s')
    ensures Retained(s, cutoff, limit, io) == Retained(s', cutoff, limit, io)
  {
    hide AgeLoop, SizeLoop, Working;
    if !s.closed && !s.poisoned {
      AgeAlike(s, s', cutoff, io, 0, 0);
      var a := AgeLoop(s, cutoff, io, 0, 0);
      SizeAlike(s, s', limit, io, a.k, a.attempts);
    }
  }

  // ---------------------------------------------------------------------- runs

  datatype Op =
    | AppendOp(records: seq<Record>, timestamp: int64, io: AppendIO)
    | RetainOp(cutoff: int, limit: nat, faults: RetainIO)

  /** A call of Append or of ApplyRetention with these I/O outcomes. */
  ghost function Apply(s: Store, op: Op, sync: bool, lim: Limits): Store {
    if s.closed || s.poisoned then s
    else match op
      case AppendOp(records, timestamp, io) =>
        if records == [] || s.logEnd + |records| > MAX_UINT64 || !Ready(s) || !Proper(io) then s
        else
          var b := StampedBatch(records, s.logEnd, timestamp);
          if |b.bytes| > lim.maxBatch then s else AppendOutcome(s, b, io, sync, lim)
      case RetainOp(cutoff, limit, faults) => Dropped(s, Retained(s, cutoff, limit, faults).k)
  }

  ghost function ApplyAll(s: Store, ops: seq<Op>, sync: bool, lim: Limits): Store {
    if ops == [] then s else Apply(ApplyAll(s, ops[..|ops| - 1], sync, lim), ops[|ops| - 1], sync, lim)
  }

  predicate SteadyOp(op: Op) { op.AppendOp? ==> Steady(op.io) }

  lemma ApplyAlike(s: Store, s': Store, op: Op, sync: bool, lim: Limits)
    requires Alike(s, s') && (s.active.dirty == s'.active.dirty || SteadyOp(op))
    ensures var (t, t') := (Apply(s, op, sync, lim), Apply(s', op, sync, lim));
            Alike(t, t') && (s.active.dirty == s'.active.dirty ==> t.active.dirty == t'.active.dirty)
  {
    hide Alike, AppendOutcome, Ready, StampedBatch, Retained;
    FieldsAlike(s, s');
    ReadyAlike(s, s');
    match op
    case AppendOp(records, timestamp, io) =>
      if records != [] && s.logEnd + |records| <= MAX_UINT64 && Ready(s) && Proper(io) {
        AppendAlike(s, s', StampedBatch(records, s.logEnd, timestamp), io, sync, lim);
      }
    case RetainOp(cutoff, limit, faults) =>
      RetainedAlike(s, s', cutoff, limit, faults);
      DropAlike(s, s', Retained(s, cutoff, limit, faults).k);
  }

  /** Two stores alike stay alike through every sequence of operations. */
  lemma {:induction false} RunAlike(s: Store, s': Store, ops: seq<Op>, sync: bool, lim: Limits)
    requires Alike(s, s') && (s.active.dirty == s'.active.dirty || forall op <- ops :: SteadyOp(op))
    ensures var (t, t') := (ApplyAll(s, ops, sync, lim), ApplyAll(s', ops, sync, lim));
            Alike(t, t') && (s.active.dirty == s'.active.dirty ==> t.active.dirty == t'.active.dirty)
    decreases |ops|
  {
    hide Alike, Apply, SteadyOp;
    if ops != [] {
      var n := |ops| - 1;
      RunAlike(s, s', ops[..n], sync, lim);
      assert ops[n] in ops;
      ApplyAlike(ApplyAll(s, ops[..n], sync, lim), ApplyAll(s', ops[..n], sync, lim), ops[n], sync, lim);
    }
  }

  // ------------------------------------------------------- indexes that never were a file

  /** Every index was built by appending, or rebuilt. */
  ghost predicate AllExact(s: Store) {
    s.active.exact && forall i | 0 <= i < |s.front| :: s.front[i].exact
  }

  lemma {:induction false} ApplyAllExact(s: Store, ops: seq<Op>, sync: bool, lim: Limits)
    requires AllExact(s)
    ensures AllExact(ApplyAll(s, ops, sync, lim))
    decreases |ops|
  {
    hide Apply, AllExact;
    if ops != [] {
      ApplyAllExact(s, ops[..|ops| - 1], sync, lim);
      ApplyExact(ApplyAll(s, ops[..|ops| - 1], sync, lim), ops[|ops| - 1], sync, lim);
    }
  }

  lemma GrownExact(g: SegState, b: Batch, n: nat, interval: nat)
    requires g.base <= g.next <= g.base + MAX_UINT32 && g.size <= MAX_INT64 && g.indexSize <= |g.index.bytes| && n <= 12
    ensures GrownSeg(g, b, n, interval).exact == g.exact
  {
  }

  lemma FlushedExact(g: SegState, io: FlushOutcome)
    ensures FlushedSeg(g, io).exact == g.exact
  {
  }

  lemma AppendExact(s: Store, b: Batch, io: AppendIO, sync: bool, lim: Limits)
    requires AllExact(s) && Ready(s) && Proper(io)
    ensures AllExact(AppendOutcome(s, b, io, sync, lim))
  {
    hide GrownSeg, FlushedSeg, Part;
    FlushedExact(s.active, io.rollFlush);
    var r := if Rolls(s, |b.bytes|, lim) then RollOutcome(s, io) else s;
    assert AllExact(r);
    if !(Rolls(s, |b.bytes|, lim) && !RollOk(s, io)) && r.logEnd - r.active.base <= MAX_UINT32 && io.write.Complete? {
      GrownExact(r.active, b, IndexPart(io), lim.interval);
      FlushedExact(GrownSeg(r.active, b, IndexPart(io), lim.interval), io.flush);
    }
  }

  lemma ApplyExact(s: Store, op: Op, sync: bool, lim: Limits)
    requires AllExact(s)
    ensures AllExact(Apply(s, op, sync, lim))
  {
    hide StampedBatch, Retained, AppendOutcome, Ready, Chain;
    if op.AppendOp? && Ready(s) && Proper(op.io) && op.records != [] && s.logEnd + |op.records| <= MAX_UINT64 {
      AppendExact(s, StampedBatch(op.records, s.logEnd, op.timestamp), op.io, sync, lim);
    }
  }

  /** Such indexes come back from any restart. */
  lemma ExactReread(s: Store, lim: Limits)
    requires ValidStore(s, lim) && AllExact(s)
    ensures AllReread(s, lim)
  {
    hide ValidStore, GreedyEntries, Fitting, Sound, EntriesOn;
    forall i | 0 <= i <= |s.front|
      ensures Reread(Seg(s, i), lim)
    {
      SegValid(s, i, lim);
    }
  }
}
