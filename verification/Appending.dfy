/** What an append does to a store, for every outcome of its I/O (internal/storage/store.go:223-289). */
module Appending {
  import opened Bytes
  import opened Files
  import opened Format
  import opened Batches
  import opened Recovery
  import opened Index
  import opened SegmentFile
  import opened StoreState
  import opened StoreSteps
  import LogSpec

  /** NewSegment creates the log file and then the index file. */
  datatype CreateOutcome = Created | LogOnly | NotCreated

  /** How the I/O of one append goes. */
  datatype AppendIO = AppendIO(
    rollFlush: FlushOutcome, create: CreateOutcome, write: WriteOutcome, indexWrite: WriteOutcome, flush: FlushOutcome)

  const NO_FAILURE := AppendIO(Flushed, Created, Complete, Complete, Flushed)

  /** A failed index write leaves less than a whole entry. */
  predicate Proper(io: AppendIO) { io.indexWrite.Short? ==> io.indexWrite.count < 12 }

  function IndexPart(io: AppendIO): nat
    requires Proper(io)
  {
    if io.indexWrite.Complete? then 12 else io.indexWrite.count
  }

  /** What Append needs of the numbers it computes with. */
  predicate Ready(s: Store) {
    && s.active.base <= s.active.next == s.logEnd && s.active.size <= MAX_INT64
    && s.active.indexSize <= |s.active.index.bytes|
  }

  /** Does a batch of this size go to a new segment? */
  predicate Rolls(s: Store, size: nat, lim: Limits) {
    s.active.size > 0 && s.active.size + size > lim.segmentMax
  }

  predicate RollOk(s: Store, io: AppendIO) { FlushOk(s.active, io.rollFlush) && io.create.Created? }

  /** Closes the active segment and starts the next. */
  function RollOutcome(s: Store, io: AppendIO): Store {
    var t := s.(active := FlushedSeg(s.active, io.rollFlush));
    if !FlushOk(s.active, io.rollFlush) then t.(poisoned := true)
    else if !io.create.Created? then t.(poisoned := true, spare := io.create.LogOnly?)
    else t.(front := t.front + [t.active], active := FreshSeg(s.logEnd))
  }

  /** Writes the batch to the active segment. */
  ghost function PutOutcome(s: Store, b: Batch, io: AppendIO, lim: Limits): Store
    requires Ready(s) && s.logEnd - s.active.base <= MAX_UINT32 && Proper(io)
  {
    if io.write.Complete? then
      s.(active := GrownSeg(s.active, b, IndexPart(io), lim.interval), logEnd := s.logEnd + |b.records|)
    else
      s.(active := s.active.(log := File(s.active.log.bytes + Part(b.bytes, io.write), s.active.log.synced)),
         torn := Some(b), poisoned := true)
  }

  /** In sync mode the active segment is flushed at the end. */
  function SyncOutcome(s: Store, sync: bool, io: FlushOutcome): Store {
    if !sync then s
    else s.(active := FlushedSeg(s.active, io), poisoned := s.poisoned || !FlushOk(s.active, io))
  }

  ghost function AppendOutcome(s: Store, b: Batch, io: AppendIO, sync: bool, lim: Limits): Store
    requires Ready(s) && Proper(io)
  {
    var r := if Rolls(s, |b.bytes|, lim) then RollOutcome(s, io) else s;
    if Rolls(s, |b.bytes|, lim) && !RollOk(s, io) then r
    else if r.logEnd - r.active.base > MAX_UINT32 then r.(poisoned := true)
    else
      var p := PutOutcome(r, b, io, lim);
      if io.write.Complete? then SyncOutcome(p, sync, io.flush) else p
  }

  /** How far an append gets. */
  datatype Stage = RollFailed | OutOfReach | Torn | FlushFailed | Finished

  /** A segment just started has an index entry to sync; an older one if it had one before or gets one now. */
  predicate IndexToSync(s: Store, size: nat, lim: Limits) {
    Rolls(s, size, lim) || s.active.dirty || Due(s.active.entries, s.active.size, lim.interval)
  }

  function StageOf(s: Store, size: nat, io: AppendIO, sync: bool, lim: Limits): Stage {
    if Rolls(s, size, lim) && !RollOk(s, io) then RollFailed
    else if !Rolls(s, size, lim) && s.logEnd - s.active.base > MAX_UINT32 then OutOfReach
    else if !io.write.Complete? then Torn
    else if sync && !(io.flush.Flushed? || (io.flush.IndexSyncFailed? && !IndexToSync(s, size, lim))) then FlushFailed
    else Finished
  }

  /** The log after an append that got this far: a flush makes all there is durable, a roll flushes. */
  function LogAfter(l: LogSpec.Log, b: Batch, rolls: bool, stage: Stage, io: AppendIO, sync: bool): LogSpec.Log {
    var l1 := if rolls && !io.rollFlush.LogSyncFailed? then l.(durable := |l.history|) else l;
    match stage
    case RollFailed => l1.(poisoned := true)
    case OutOfReach => l1.(poisoned := true)
    case Torn => l1.(torn := Some(b), poisoned := true)
    case FlushFailed =>
      l1.(history := l1.history + [b], durable := if io.flush.LogSyncFailed? then l1.durable else |l.history| + 1,
          poisoned := true)
    case Finished => l1.(history := l1.history + [b], durable := if sync then |l.history| + 1 else l1.durable)
  }

  lemma FinishedHistory(l: LogSpec.Log, b: Batch, rolls: bool, io: AppendIO, sync: bool)
    ensures LogAfter(l, b, rolls, Finished, io, sync).history == l.history + [b]
  {
  }

  // ------------------------------------------------------------ what each part keeps

  lemma HealthyReady(s: Store, lim: Limits)
    requires ValidStore(s, lim) && !s.poisoned
    ensures Ready(s) && s.torn.None? && !s.spare && s.active.size == Size(s.active.batches)
  {
    hide ValidStore, ValidSeg;
    Healthy(s, lim);
    ActiveFields(s.active, lim);
  }

  lemma RollKeeps(s: Store, io: AppendIO, lim: Limits)
    requires ValidStore(s, lim) && !s.poisoned && s.active.size > 0
    ensures var (r, l) := (RollOutcome(s, io), Model(s));
            && ValidStore(r, lim) && r.poisoned == !RollOk(s, io) && r.logEnd == s.logEnd
            && Model(r) == (if io.rollFlush.LogSyncFailed? then l else l.(durable := |l.history|))
                           .(poisoned := r.poisoned)
            && (RollOk(s, io) ==> Ready(r) && r.active == FreshSeg(s.logEnd))
  {
    hide ValidStore, ValidSeg, Model, Pos;
    Healthy(s, lim);
    ModelFlags(s);
    PosZero(s.active.batches);
    var t := s.(active := FlushedSeg(s.active, io.rollFlush));
    AfterFlush(s, io.rollFlush, lim, t);
    if RollOk(s, io) {
      AfterRoll(t, lim, RollOutcome(s, io));
    } else {
      AfterPoison(t, RollOutcome(s, io).spare, lim, RollOutcome(s, io));
    }
  }

  lemma PutKeeps(s: Store, b: Batch, io: AppendIO, lim: Limits)
    requires ValidStore(s, lim) && !s.poisoned && Ready(s) && Proper(io)
    requires ValidBatch(b, s.logEnd) && |b.bytes| <= lim.maxBatch
    requires s.logEnd - s.active.base <= MAX_UINT32 && s.active.size + |b.bytes| <= lim.segmentMax
    ensures var p := PutOutcome(s, b, io, lim);
            && ValidStore(p, lim) && p.poisoned == !io.write.Complete?
            && Model(p) == if io.write.Complete? then Model(s).(history := Model(s).history + [b])
                           else Model(s).(torn := Some(b), poisoned := true)
  {
    hide ValidStore, ValidSeg, ValidBatch, Model, GrownSeg, Part;
    Healthy(s, lim);
    if io.write.Complete? {
      Grown(s, b, IndexPart(io), lim, PutOutcome(s, b, io, lim));
    } else {
      AfterTorn(s, b, Part(b.bytes, io.write), lim, PutOutcome(s, b, io, lim));
    }
  }

  lemma SyncKeeps(s: Store, sync: bool, io: FlushOutcome, lim: Limits)
    requires ValidStore(s, lim) && !s.poisoned
    ensures var t := SyncOutcome(s, sync, io);
            && ValidStore(t, lim) && t.poisoned == (sync && !FlushOk(s.active, io))
            && Model(t) == (if sync && !io.LogSyncFailed? then Model(s).(durable := |Model(s).history|) else Model(s))
                           .(poisoned := t.poisoned)
  {
    hide ValidStore, ValidSeg, Model;
    Healthy(s, lim);
    ModelFlags(s);
    if sync {
      var t := s.(active := FlushedSeg(s.active, io));
      AfterFlush(s, io, lim, t);
      if !FlushOk(s.active, io) {
        AfterPoison(t, false, lim, SyncOutcome(s, sync, io));
      }
    }
  }

  lemma GrownDirty(s: SegState, b: Batch, n: nat, interval: nat)
    requires s.base <= s.next <= s.base + MAX_UINT32 && s.size <= MAX_INT64 && s.indexSize <= |s.index.bytes| && n <= 12
    ensures GrownSeg(s, b, n, interval).dirty == (s.dirty || Due(s.entries, s.size, interval))
  {
  }

  lemma PutDirty(s: Store, b: Batch, io: AppendIO, lim: Limits)
    requires Ready(s) && s.logEnd - s.active.base <= MAX_UINT32 && Proper(io) && io.write.Complete?
    ensures PutOutcome(s, b, io, lim).active.dirty ==
            (s.active.dirty || Due(s.active.entries, s.active.size, lim.interval))
  {
    GrownDirty(s.active, b, IndexPart(io), lim.interval);
  }

  /** The second half of an append, in a segment that has room. */
  lemma WriteKeeps(s: Store, b: Batch, io: AppendIO, sync: bool, lim: Limits)
    requires ValidStore(s, lim) && !s.poisoned && Ready(s) && Proper(io)
    requires ValidBatch(b, s.logEnd) && |b.bytes| <= lim.maxBatch && !Rolls(s, |b.bytes|, lim)
    ensures var (s', stage) := (AppendOutcome(s, b, io, sync, lim), StageOf(s, |b.bytes|, io, sync, lim));
            && ValidStore(s', lim) && s'.poisoned == !stage.Finished?
            && Model(s') == LogAfter(Model(s), b, false, stage, io, sync)
  {
    hide ValidStore, ValidSeg, ValidBatch, Model, GrownSeg, Part, FlushedSeg;
    Healthy(s, lim);
    ModelFlags(s);
    if s.logEnd - s.active.base > MAX_UINT32 {
      AfterPoison(s, false, lim, s.(poisoned := true));
    } else {
      PutKeeps(s, b, io, lim);
      if io.write.Complete? {
        SyncKeeps(PutOutcome(s, b, io, lim), sync, io.flush, lim);
        GrownDirty(s.active, b, IndexPart(io), lim.interval);
      }
    }
  }

  /** An append that rolls is a roll, and then an append to the new segment. */
  lemma RollFirst(s: Store, b: Batch, io: AppendIO, sync: bool, lim: Limits)
    requires Ready(s) && Proper(io) && Rolls(s, |b.bytes|, lim) && RollOk(s, io)
    ensures var r := RollOutcome(s, io);
            && Ready(r) && !Rolls(r, |b.bytes|, lim)
            && AppendOutcome(s, b, io, sync, lim) == AppendOutcome(r, b, io, sync, lim)
            && StageOf(s, |b.bytes|, io, sync, lim) == StageOf(r, |b.bytes|, io, sync, lim)
  {
    hide GrownSeg;
  }

  /** Every append leaves a valid store, poisoned exactly if it did not finish, with the log of its stage. */
  lemma AppendKeeps(s: Store, b: Batch, io: AppendIO, sync: bool, lim: Limits)
    requires ValidStore(s, lim) && !s.poisoned && Ready(s) && Proper(io)
    requires ValidBatch(b, s.logEnd) && |b.bytes| <= lim.maxBatch
    ensures var (s', stage) := (AppendOutcome(s, b, io, sync, lim), StageOf(s, |b.bytes|, io, sync, lim));
            && ValidStore(s', lim) && s'.poisoned == !stage.Finished?
            && Model(s') == LogAfter(Model(s), b, Rolls(s, |b.bytes|, lim), stage, io, sync)
  {
    hide ValidStore, ValidSeg, ValidBatch, Model, PutOutcome, SyncOutcome;
    if Rolls(s, |b.bytes|, lim) {
      RollKeeps(s, io, lim);
      ModelFlags(s);
      if RollOk(s, io) {
        RollFirst(s, b, io, sync, lim);
        WriteKeeps(RollOutcome(s, io), b, io, sync, lim);
      }
    } else {
      WriteKeeps(s, b, io, sync, lim);
    }
  }

  lemma WriteEnd(s: Store, b: Batch, io: AppendIO, sync: bool, lim: Limits)
    requires Ready(s) && Proper(io) && !Rolls(s, |b.bytes|, lim)
    ensures var stage := StageOf(s, |b.bytes|, io, sync, lim);
            AppendOutcome(s, b, io, sync, lim).logEnd ==
            s.logEnd + if stage.FlushFailed? || stage.Finished? then |b.records| else 0
  {
    hide GrownSeg, FlushedSeg, FlushOk, Due;
  }

  /** A finished append changes no flag and not the beginning of the log. */
  lemma AppendFlags(s: Store, b: Batch, io: AppendIO, sync: bool, lim: Limits)
    requires Ready(s) && Proper(io) && StageOf(s, |b.bytes|, io, sync, lim) == Finished
    ensures var s' := AppendOutcome(s, b, io, sync, lim);
            s'.closed == s.closed && s'.poisoned == s.poisoned && s'.earliest == s.earliest
  {
    hide FlushedSeg, Due;
    if Rolls(s, |b.bytes|, lim) {
      RollFirst(s, b, io, sync, lim);
      GrownDirty(RollOutcome(s, io).active, b, IndexPart(io), lim.interval);
    } else {
      GrownDirty(s.active, b, IndexPart(io), lim.interval);
    }
  }

  lemma AppendEnd(s: Store, b: Batch, io: AppendIO, sync: bool, lim: Limits)
    requires Ready(s) && Proper(io)
    ensures var stage := StageOf(s, |b.bytes|, io, sync, lim);
            AppendOutcome(s, b, io, sync, lim).logEnd ==
            s.logEnd + if stage.FlushFailed? || stage.Finished? then |b.records| else 0
  {
    hide PutOutcome, SyncOutcome, FlushedSeg;
    if Rolls(s, |b.bytes|, lim) {
      if RollOk(s, io) {
        RollFirst(s, b, io, sync, lim);
        WriteEnd(RollOutcome(s, io), b, io, sync, lim);
      }
    } else {
      WriteEnd(s, b, io, sync, lim);
    }
  }

  /** Each of these is an append step of the log. */
  lemma StageStep(l: LogSpec.Log, b: Batch, rolls: bool, stage: Stage, io: AppendIO, sync: bool)
    requires !l.closed && !l.poisoned && l.torn == None && l.durable <= |l.history|
    ensures LogSpec.AppendStep(l, b, sync, LogAfter(l, b, rolls, stage, io, sync), stage.Finished?)
  {
  }

  // --------------------------------------------------------- the index files in sync

  /** The index file of every segment holds exactly the index in memory. */
  ghost predicate Mirrored(s: Store) {
    IndexWhole(s.active) && forall i | 0 <= i < |s.front| :: IndexWhole(s.front[i])
  }

  lemma FlushedWhole(g: SegState, io: FlushOutcome)
    requires IndexWhole(g)
    ensures IndexWhole(FlushedSeg(g, io))
  {
  }

  lemma GrownWhole(g: SegState, b: Batch, lim: Limits)
    requires ValidSeg(g, lim) && IndexWhole(g)
    requires g.base <= g.next <= g.base + MAX_UINT32 && g.size <= MAX_INT64 && g.indexSize <= |g.index.bytes|
    ensures IndexWhole(GrownSeg(g, b, 12, lim.interval))
  {
    hide EntryBytes, MaxTimestamp, Fitting, EntriesOn, GreedyEntries, Latest, Pos, Off, LogBytes, Sound;
    if Due(g.entries, g.size, lim.interval) {
      var e := IndexEntry(g.next - g.base, g.size);
      assert EntryBytes(e)[..12] == EntryBytes(e);
      assert (g.entries + [e])[..|g.entries|] == g.entries;
      WriteAtEnd(g.index.bytes, EntryBytes(e));
    }
  }

  /** An append whose index write is complete, if it makes one, keeps the index files in sync, however it ends. */
  lemma AppendMirrors(s: Store, b: Batch, io: AppendIO, sync: bool, lim: Limits)
    requires ValidStore(s, lim) && !s.poisoned && Ready(s) && Proper(io) && Mirrored(s) && io.indexWrite.Complete?
    ensures Mirrored(AppendOutcome(s, b, io, sync, lim))
  {
    hide ValidStore, ValidSeg, GrownSeg, IndexWhole;
    Healthy(s, lim);
    FlushedWhole(s.active, io.rollFlush);
    FreshWhole(s.logEnd, lim);
    var r := if Rolls(s, |b.bytes|, lim) then RollOutcome(s, io) else s;
    assert Mirrored(r);
    if !(Rolls(s, |b.bytes|, lim) && !RollOk(s, io)) && r.logEnd - r.active.base <= MAX_UINT32 {
      if io.write.Complete? {
        GrownWhole(r.active, b, lim);
        FlushedWhole(GrownSeg(r.active, b, 12, lim.interval), io.flush);
      } else {
        TornWhole(r.active, b, io);
      }
    }
  }

  lemma FreshWhole(base: nat, lim: Limits)
    ensures IndexWhole(FreshSeg(base)) && ValidSeg(FreshSeg(base), lim)
  {
    FreshValid(base, lim);
  }

  lemma TornWhole(g: SegState, b: Batch, io: AppendIO)
    requires IndexWhole(g)
    ensures IndexWhole(g.(log := File(g.log.bytes + Part(b.bytes, io.write), g.log.synced)))
  {
  }

  /** Closing flushes, and changes nothing else of the log. */
  lemma CloseKeeps(s: Store, io: FlushOutcome, lim: Limits)
    requires ValidStore(s, lim) && !s.closed
    ensures var t := s.(active := FlushedSeg(s.active, io), closed := true);
            && ValidStore(t, lim) && LogSpec.CloseStep(Model(s), Model(t))
            && (!io.LogSyncFailed? ==> Model(t).durable == |Model(t).history|)
            && (Mirrored(s) ==> Mirrored(t))
  {
    hide ValidStore, Model, FlushedSeg, IndexWhole;
    ModelFlags(s);
    DurableBound(s);
    var t := s.(active := FlushedSeg(s.active, io));
    AfterFlush(s, io, lim, t);
    AfterClose(t, lim);
    if Mirrored(s) {
      FlushedWhole(s.active, io);
    }
  }
}
