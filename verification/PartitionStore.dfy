/** The Store type (internal/storage/store.go): a partition log in segments. One method call is one
    atomic step, as the store's lock makes it. I/O outcomes and the clock are parameters. */
module PartitionStore {
  import opened Bytes
  import opened Files
  import opened Format
  import opened Codec
  import opened Batches
  import opened Recovery
  import opened SegmentFile
  import opened SegmentClass
  import opened Stamping
  import S = StoreState
  import opened StoreSteps
  import opened Appending
  import opened Placement
  import opened Reading
  import opened Retention
  import LogSpec
  import LogRuns

  datatype StoreError = EmptyAppend | StoreClosed | StoreCorrupt | BatchTooLarge | OffsetOutOfRange
    | IndexOffsetOverflow | InvalidLimit | IOFailure

  datatype AppendResult = Acknowledged(base: nat, last: nat) | AppendFailed(error: StoreError)

  /** What Append returns when it gets this far. */
  function ResultOf(stage: Stage, base: nat, count: nat): AppendResult
    requires count > 0
  {
    match stage
    case Finished => Acknowledged(base, base + count - 1)
    case OutOfReach => AppendFailed(IndexOffsetOverflow)
    case _ => AppendFailed(IOFailure)
  }

  ghost function Snap(segs: seq<Segment>): (ss: seq<SegState>)
    reads segs
    ensures |ss| == |segs|
  {
    if segs == [] then [] else Snap(segs[..|segs| - 1]) + [segs[|segs| - 1].State()]
  }

  lemma {:induction false} SnapAt(segs: seq<Segment>, i: nat)
    requires i < |segs|
    ensures Snap(segs)[i] == segs[i].State()
    decreases |segs|
  {
    if i < |segs| - 1 {
      SnapAt(segs[..|segs| - 1], i);
    }
  }

  lemma SnapPush(segs: seq<Segment>)
    requires segs != []
    ensures Snap(segs) == Snap(segs[..|segs| - 1]) + [segs[|segs| - 1].State()]
  {
  }

  function NextOffsets(segs: seq<Segment>): (ns: seq<nat>)
    reads segs
    ensures |ns| == |segs| && forall i | 0 <= i < |segs| :: ns[i] == segs[i].nextOffset
  {
    if segs == [] then [] else NextOffsets(segs[..|segs| - 1]) + [segs[|segs| - 1].nextOffset]
  }

  datatype ReadResult = Read(records: seq<StoredRecord>) | ReadFailed(error: StoreError)

  lemma {:induction false} SnapTail(segs: seq<Segment>)
    requires segs != []
    ensures Snap(segs[1..]) == Snap(segs)[1..]
    decreases |segs|
  {
    if |segs| > 1 {
      var init := segs[..|segs| - 1];
      SnapTail(init);
      assert segs[1..][..|segs| - 2] == init[1..];
    }
  }

  class Store {
    const lim: Limits
    const sync: bool
    var closed: bool
    var writeFailed: bool
    var segments: seq<Segment>
    var activeSegment: Segment
    var logEndOffset: nat
    var earliestOffset: nat
    /** A failed rollover has left an empty log file. */
    var spare: bool
    ghost var gone: seq<Batch>
    ghost var torn: Option<Batch>

    constructor (lim: Limits, sync: bool, segs: seq<Segment>, earliest: nat, logEnd: nat, ghost gone: seq<Batch>)
      requires segs != []
      ensures this.lim == lim && this.sync == sync && segments == segs && activeSegment == segs[|segs| - 1]
      ensures earliestOffset == earliest && logEndOffset == logEnd && !closed && !writeFailed
      ensures this.gone == gone && torn == None && !spare
    {
      this.lim, this.sync := lim, sync;
      closed, writeFailed := false, false;
      segments, activeSegment := segs, segs[|segs| - 1];
      logEndOffset, earliestOffset := logEnd, earliest;
      this.gone, torn, spare := gone, None, false;
    }

    ghost function State(): S.Store
      requires segments != []
      reads this, segments, activeSegment
    {
      S.Store(Snap(segments[..|segments| - 1]), activeSegment.State(), logEndOffset, earliestOffset,
              closed, writeFailed, gone, torn, spare)
    }

    /** The active segment is the last of the segments, and no segment occurs twice. */
    ghost predicate Shape()
      reads this
    {
      && segments != [] && activeSegment == segments[|segments| - 1]
      && forall i, j | 0 <= i < j < |segments| :: segments[i] != segments[j]
    }

    ghost predicate Valid()
      reads this, segments, activeSegment
    {
      Shape() && S.ValidStore(State(), lim)
    }

    /** The log this store stands for. */
    ghost function Model(): LogSpec.Log
      requires segments != []
      reads this, segments, activeSegment
    {
      S.Model(State())
    }

    /** A valid store stands for a well-formed log with the ends it reports. */
    lemma LogOf()
      requires Valid()
      ensures LogSpec.WellFormed(Model())
      ensures LogSpec.End(Model()) == logEndOffset && LogSpec.Earliest(Model()) == earliestOffset
    {
      hide S.ValidStore, S.Model, Snap, LogSpec.WellFormed, LogSpec.End, LogSpec.Earliest;
      ModelWellFormed(State(), lim);
      S.HistoryRun(State(), lim);
    }

    /** Syncs the active segment; the flag does not change. */
    method FlushActive(io: FlushOutcome) returns (ok: bool)
      requires Valid()
      modifies activeSegment`log, activeSegment`indexFile, activeSegment`indexDirty
      ensures Valid() && ok == FlushOk(old(activeSegment.State()), io)
      ensures State() == old(State()).(active := FlushedSeg(old(activeSegment.State()), io))
      ensures Model() == if io.LogSyncFailed? then old(Model()) else old(Model()).(durable := |old(Model()).history|)
    {
      hide S.ValidStore, S.Model, Snap, FlushedSeg;
      ghost var s0 := State();
      ok := activeSegment.Flush(io);
      AfterFlush(s0, io, lim, State());
    }

    /** A new empty segment, to be written from now on. */
    method StartSegment()
      requires Shape()
      modifies this`segments, this`activeSegment
      ensures Shape() && fresh(activeSegment)
      ensures State() == old(State()).(front := old(State()).front + [old(activeSegment.State())],
                                       active := FreshSeg(logEndOffset))
    {
      ghost var front := segments;
      var segment := new Segment(logEndOffset, File([], 0), File([], 0), true);
      segments := segments + [segment];
      activeSegment := segment;
      assert segments[..|segments| - 1] == front;
    }

    /** Closes the active segment and starts the next. */
    method Roll(io: AppendIO) returns (ok: bool)
      requires Valid() && !writeFailed && activeSegment.size > 0
      modifies this`writeFailed, this`segments, this`activeSegment, this`spare, activeSegment
      ensures Valid() && ok == RollOk(old(State()), io) && State() == RollOutcome(old(State()), io)
      ensures activeSegment == old(activeSegment) || fresh(activeSegment)
    {
      hide S.ValidStore, S.Model, Snap, ValidSeg, FlushedSeg, FreshSeg;
      RollKeeps(State(), io, lim);
      ok := FlushActive(io.rollFlush);
      if !ok {
        writeFailed := true;
        return false;
      }
      activeSegment.active := false;
      if !io.create.Created? {
        writeFailed, spare := true, io.create.LogOnly?;
        return false;
      }
      StartSegment();
    }

    /** Writes an encoded batch to the active segment. */
    method PutBatch(data: seq<byte>, count: nat, timestamp: int64, io: AppendIO, ghost b: Batch) returns (ok: bool)
      requires Valid() && !writeFailed && Proper(io)
      requires ValidBatch(b, logEndOffset) && |b.bytes| <= lim.maxBatch
      requires logEndOffset - activeSegment.baseOffset <= MAX_UINT32
      requires activeSegment.size + |data| <= lim.segmentMax
      requires b.bytes == data && |b.records| == count && MaxTimestamp(b.records) == Later(0, timestamp)
      modifies this`writeFailed, this`logEndOffset, this`torn, activeSegment
      ensures Valid() && ok == io.write.Complete? && writeFailed == !ok
      ensures Ready(old(State())) && State() == PutOutcome(old(State()), b, io, lim)
    {
      hide S.ValidStore, S.Model, Snap, ValidSeg, ValidBatch, MaxTimestamp, GrownSeg, Part;
      ghost var s0 := State();
      HealthyReady(s0, lim);
      Healthy(s0, lim);
      ActiveFields(s0.active, lim);
      PutKeeps(s0, b, io, lim);
      ok := activeSegment.AppendBatch(data, count, timestamp, lim.interval, io.write, io.indexWrite, b);
      if !ok {
        writeFailed, torn := true, Some(b);
        return false;
      }
      logEndOffset := logEndOffset + count;
    }

    /** In sync mode an append is acknowledged only after a flush. */
    method FlushIfSync(io: FlushOutcome) returns (ok: bool)
      requires Valid() && !writeFailed
      modifies this`writeFailed, activeSegment`log, activeSegment`indexFile, activeSegment`indexDirty
      ensures Valid() && ok == (!sync || FlushOk(old(activeSegment.State()), io))
      ensures State() == SyncOutcome(old(State()), sync, io)
    {
      hide S.ValidStore, S.Model, Snap, ValidSeg, FlushedSeg;
      SyncKeeps(State(), sync, io, lim);
      ok := true;
      if sync {
        ok := FlushActive(io);
        if !ok {
          writeFailed := true;
        }
      }
    }

    /** Writes an encoded batch that the active segment has room for, and flushes it in sync mode. */
    method WriteEncoded(data: seq<byte>, count: nat, timestamp: int64, io: AppendIO, ghost b: Batch)
      returns (r: AppendResult)
      requires Valid() && !writeFailed && count > 0 && Proper(io) && !Rolls(State(), |data|, lim)
      requires ValidBatch(b, logEndOffset) && |b.bytes| <= lim.maxBatch
      requires b.bytes == data && |b.records| == count && MaxTimestamp(b.records) == Later(0, timestamp)
      modifies this`writeFailed, this`logEndOffset, this`torn, activeSegment
      ensures Valid() && Ready(old(State())) && State() == AppendOutcome(old(State()), b, io, sync, lim)
      ensures r == ResultOf(StageOf(old(State()), |data|, io, sync, lim), old(logEndOffset), count)
    {
      hide S.ValidStore, S.Model, Snap, ValidSeg, ValidBatch, MaxTimestamp, PutOutcome, SyncOutcome;
      var base := logEndOffset;
      ghost var s := State();
      HealthyReady(s, lim);
      WriteKeeps(s, b, io, sync, lim);
      if base - activeSegment.baseOffset > MAX_UINT32 {
        writeFailed := true;
        return AppendFailed(IndexOffsetOverflow);
      }
      var ok := PutBatch(data, count, timestamp, io, b);
      if ok {
        PutDirty(s, b, io, lim);
        ok := FlushIfSync(io.flush);
      }
      r := if ok then Acknowledged(base, base + count - 1) else AppendFailed(IOFailure);
    }

    /** The rest of Append, once the batch is encoded and small enough. */
    method AppendEncoded(data: seq<byte>, count: nat, timestamp: int64, io: AppendIO, ghost b: Batch)
      returns (r: AppendResult)
      requires Valid() && !writeFailed && count > 0 && Proper(io)
      requires ValidBatch(b, logEndOffset) && |b.bytes| <= lim.maxBatch
      requires b.bytes == data && |b.records| == count && MaxTimestamp(b.records) == Later(0, timestamp)
      modifies this, activeSegment
      ensures Valid() && Ready(old(State())) && State() == AppendOutcome(old(State()), b, io, sync, lim)
      ensures activeSegment == old(activeSegment) || fresh(activeSegment)
      ensures r == ResultOf(StageOf(old(State()), |data|, io, sync, lim), old(logEndOffset), count)
    {
      hide S.ValidStore, S.Model, Snap, ValidSeg, ValidBatch, MaxTimestamp, RollOutcome, PutOutcome, SyncOutcome;
      ghost var s := State();
      HealthyReady(s, lim);
      if activeSegment.size > 0 && activeSegment.size + |data| > lim.segmentMax {
        RollKeeps(s, io, lim);
        var rolled := Roll(io);
        if !rolled {
          return AppendFailed(IOFailure);
        }
        RollFirst(s, b, io, sync, lim);
      }
      r := WriteEncoded(data, count, timestamp, io, b);
    }

    /** The errors in order, each without a change; otherwise the outcome of the I/O, stage by stage. */
    method Append(records: seq<Record>, timestamp: int64, io: AppendIO) returns (r: AppendResult)
      requires Valid() && Proper(io)
      requires logEndOffset + |records| <= MAX_UINT64 && timestamp > -0x8000_0000_0000_0000
      modifies this, activeSegment
      ensures Valid() && LogRuns.LiveStep(old(Model()), Model(), sync)
      ensures activeSegment == old(activeSegment) || fresh(activeSegment)
      ensures var e := if records == [] then Some(EmptyAppend)
                       else if old(closed) then Some(StoreClosed)
                       else if old(writeFailed) then Some(StoreCorrupt)
                       else if |StampedBatch(records, old(logEndOffset), timestamp).bytes| > lim.maxBatch then
                         Some(BatchTooLarge)
                       else None;
              if e.Some? then r == AppendFailed(e.value) && State() == old(State())
              else
                var (b, s) := (StampedBatch(records, old(logEndOffset), timestamp), old(State()));
                var stage := StageOf(s, |b.bytes|, io, sync, lim);
                && Ready(s) && State() == AppendOutcome(s, b, io, sync, lim)
                && r == ResultOf(stage, s.logEnd, |records|)
                && Model() == LogAfter(old(Model()), b, Rolls(s, |b.bytes|, lim), stage, io, sync)
                && LogSpec.AppendStep(old(Model()), b, sync, Model(), r.Acknowledged?)
      ensures io.indexWrite.Complete? && Mirrored(old(State())) ==> Mirrored(State())
      ensures logEndOffset == old(logEndOffset) || logEndOffset == old(logEndOffset) + |records|
      ensures r.Acknowledged? ==>
                r.base == old(logEndOffset) && r.last == r.base + |records| - 1 && logEndOffset == r.last + 1
      ensures r.Acknowledged? ==>
                Delivered(Flatten(old(Model()).history), Flatten(Model().history), records, timestamp)
    {
      hide S.ValidStore, S.Model, Snap, ValidSeg, ValidBatch, MaxTimestamp, Encode, LogSpec.AppendStep,
           LogRuns.LiveStep, AppendOutcome, Mirrored, LogAfter, Delivered, Flatten, Carries;
      ghost var (s0, l0) := (State(), Model());
      LogRuns.StillLive(l0, sync);
      if |records| == 0 {
        return AppendFailed(EmptyAppend);
      }
      if closed {
        return AppendFailed(StoreClosed);
      }
      if writeFailed {
        return AppendFailed(StoreCorrupt);
      }
      var base := logEndOffset;
      var stored := Stamp(records, base, timestamp);
      var encoded := EncodeBatch(stored);
      var data := encoded.bytes;
      ghost var b := StampedBatch(records, base, timestamp);
      if |data| > lim.maxBatch {
        return AppendFailed(BatchTooLarge);
      }
      StampedValid(records, base, timestamp);
      StampedTimestamp(records, base, timestamp);
      AppendLogged(b, io);
      AppendEnd(s0, b, io, sync, lim);
      AppendDelivered(records, timestamp, Rolls(s0, |b.bytes|, lim), io);
      r := AppendEncoded(data, |records|, timestamp, io, b);
    }

    /** A finished append has delivered the records. */
    lemma AppendDelivered(records: seq<Record>, timestamp: int64, rolls: bool, io: AppendIO)
      requires Valid() && records != [] && logEndOffset + |records| <= MAX_UINT64
      ensures var (l, b) := (Model(), StampedBatch(records, logEndOffset, timestamp));
              Delivered(Flatten(l.history), Flatten(LogAfter(l, b, rolls, Finished, io, sync).history), records,
                        timestamp)
    {
      hide S.ValidStore, S.Model, Snap, LogAfter, Delivered, Flatten, StampedBatch, LogSpec.WellFormed;
      LogOf();
      AppendDelivers(Model().history, records, logEndOffset, timestamp);
      FinishedHistory(Model(), StampedBatch(records, logEndOffset, timestamp), rolls, io, sync);
    }

    /** What the outcome of an append is to the log and to the index files. */
    lemma AppendLogged(b: Batch, io: AppendIO)
      requires Valid() && !closed && !writeFailed && Proper(io) && ValidBatch(b, logEndOffset)
               && |b.bytes| <= lim.maxBatch
      ensures Ready(State())
      ensures var (s', stage) := (AppendOutcome(State(), b, io, sync, lim), StageOf(State(), |b.bytes|, io, sync, lim));
              && S.Model(s') == LogAfter(Model(), b, Rolls(State(), |b.bytes|, lim), stage, io, sync)
              && LogSpec.AppendStep(Model(), b, sync, S.Model(s'), stage.Finished?)
              && LogRuns.LiveStep(Model(), S.Model(s'), sync)
              && (io.indexWrite.Complete? && Mirrored(State()) ==> Mirrored(s'))
    {
      hide S.ValidStore, S.Model, Snap, ValidSeg, ValidBatch, LogSpec.AppendStep, LogRuns.LiveStep, AppendOutcome,
           Mirrored, LogAfter, StageOf, Rolls;
      var s := State();
      HealthyReady(s, lim);
      AppendKeeps(s, b, io, sync, lim);
      ModelFlags(s);
      DurableBound(s);
      StageStep(Model(), b, Rolls(s, |b.bytes|, lim), StageOf(s, |b.bytes|, io, sync, lim), io, sync);
      LogOf();
      LogRuns.AppendLive(Model(), b, sync, S.Model(AppendOutcome(s, b, io, sync, lim)),
                         StageOf(s, |b.bytes|, io, sync, lim).Finished?);
      if io.indexWrite.Complete? && Mirrored(s) {
        AppendMirrors(s, b, io, sync, lim);
      }
    }

    lemma SegAt(i: nat)
      requires Shape() && i < |segments|
      ensures |State().front| == |segments| - 1 && Seg(State(), i) == segments[i].State()
    {
      if i < |segments| - 1 {
        SnapAt(segments[..|segments| - 1], i);
      }
    }

    /** The flat list of the log has record `i` at index `i`. */
    lemma FlatRecords()
      requires Valid()
      ensures var flat := Flatten(Model().history);
              |flat| == logEndOffset && forall i | 0 <= i < |flat| :: flat[i].offset == i
    {
      hide S.ValidStore, S.Model, Snap, ValidSeg, Flatten;
      SegmentPlaced(State(), 0, lim);
      var s := Seg(State(), 0);
      PlacedIndex(s.log.bytes, s.size, s.base, s.entries, s.batches, Flatten(Model().history));
    }

    /** The segment that holds an offset, by binary search over the segments' ends. */
    method FindSegment(offset: nat) returns (i: nat)
      requires Valid() && earliestOffset <= offset < logEndOffset
      ensures i < |segments| && segments[i].baseOffset <= offset < segments[i].nextOffset
    {
      hide S.ValidStore, Snap, ValidSeg;
      var ends := NextOffsets(segments);
      forall a, b | 0 <= a < b < |ends|
        ensures ends[a] <= ends[b]
      {
        SegAt(a);
        SegAt(b);
        NextInOrder(State(), a, b, lim);
      }
      i := FindFirst(ends, offset);
      SegAt(|segments| - 1);
      SegValid(State(), |segments| - 1, lim);
      if i > 0 {
        SegAt(i - 1);
        SegAt(i);
        SegValid(State(), i - 1, lim);
        assert ends[i - 1] <= offset;
      } else {
        SegAt(0);
        FirstSegment(State(), lim);
      }
    }

    /** Read equals the specification on the flat list, whatever sound index the segments have. */
    method Read(offset: nat, maxBytes: int) returns (r: ReadResult)
      requires Valid()
      ensures maxBytes <= 0 ==> r == ReadFailed(InvalidLimit)
      ensures maxBytes > 0 && closed ==> r == ReadFailed(StoreClosed)
      ensures maxBytes > 0 && !closed && writeFailed ==> r == ReadFailed(StoreCorrupt)
      ensures maxBytes > 0 && !closed && !writeFailed && (offset < earliestOffset || offset > logEndOffset) ==>
                r == ReadFailed(OffsetOutOfRange)
      ensures maxBytes > 0 && !closed && !writeFailed && earliestOffset <= offset <= logEndOffset ==>
                var flat := Flatten(Model().history);
                && |flat| == logEndOffset && r.Read? && LongestRun(flat[offset..], maxBytes, r.records)
      ensures r.Read? ==> WithinBound(r.records, maxBytes)
    {
      hide S.ValidStore, S.Model, Snap, ValidSeg, Placed, Collected, Full, LongestRun, Flatten, WithinBound;
      if maxBytes <= 0 {
        return ReadFailed(InvalidLimit);
      }
      if closed {
        return ReadFailed(StoreClosed);
      }
      if writeFailed {
        return ReadFailed(StoreCorrupt);
      }
      if offset < earliestOffset || offset > logEndOffset {
        return ReadFailed(OffsetOutOfRange);
      }
      ghost var flat := Flatten(Model().history);
      SegmentPlaced(State(), 0, lim);
      if offset == logEndOffset {
        NothingLeft(flat, maxBytes);
        PageBound(flat[offset..], maxBytes, []);
        return ReadResult.Read([]);
      }
      var i := FindSegment(offset);
      var out: seq<StoredRecord> := [];
      var curr, used := offset, 0;
      CollectNone(flat, offset, maxBytes);
      while i < |segments|
        invariant i <= |segments|
        invariant Collected(flat, offset, curr, out, used, maxBytes)
        invariant if i < |segments| then segments[i].baseOffset <= curr else logEndOffset <= curr
      {
        var seg := segments[i];
        SegAt(i);
        SegmentPlaced(State(), i, lim);
        SegValid(State(), i, lim);
        var ok, full;
        ok, curr, out, used, full :=
          ReadSegment(seg.log.bytes, seg.size, seg.baseOffset, seg.indexEntries, curr, out, used, maxBytes,
                      seg.batches, flat, offset);
        if !ok {
          return ReadFailed(IOFailure);
        }
        if full {
          CollectDone(flat, offset, curr, out, used, maxBytes);
          PageBound(flat[offset..], maxBytes, out);
          return ReadResult.Read(out);
        }
        i := i + 1;
        if i < |segments| {
          SegAt(i);
        }
      }
      CollectedBounds(flat, offset, curr, out, used, maxBytes);
      CollectDone(flat, offset, curr, out, used, maxBytes);
      PageBound(flat[offset..], maxBytes, out);
      return ReadResult.Read(out);
    }

    /** deleteSegmentAtIndex(0): once the log file is gone the segment is gone, whatever follows. */
    method DeleteOldest(io: RemoveOutcome) returns (ok: bool)
      requires Shape() && |segments| > 1
      modifies this`segments, this`earliestOffset, this`gone
      ensures Shape() && ok == io.Removed?
      ensures |segments| == |old(segments)| - if io.LogKept? then 0 else 1
      ensures var s := old(State());
              State() == if io.LogKept? then s
                         else s.(front := s.front[1..], gone := s.gone + s.front[0].batches,
                                 earliest := S.NextBase(s.front[1..], s.active.base, 0))
    {
      hide Snap;
      if io.LogKept? {
        return false;
      }
      ghost var front := segments[..|segments| - 1];
      SnapTail(front);
      SnapAt(front, 0);
      gone := gone + segments[0].batches;
      segments := segments[1..];
      assert segments[..|segments| - 1] == front[1..];
      if |segments| > 0 {
        if |segments| > 1 {
          SnapAt(front[1..], 0);
        }
        earliestOffset := segments[0].baseOffset;
      }
      ok := io.Removed?;
    }

    /** calculateTotalBytes: the sizes of all files, unless one cannot be had. */
    method CalculateTotalBytes(statOk: bool) returns (total: Option<nat>)
      requires Shape()
      ensures total == if statOk then Some(TotalBytes(State())) else None
    {
      if !statOk {
        return None;
      }
      var sum := 0;
      ghost var all := Snap(segments);
      SnapPush(segments);
      for i := 0 to |segments|
        invariant sum == FrontBytes(all[..i])
      {
        SnapAt(segments, i);
        assert all[..i + 1] == all[..i] + [all[i]];
        FrontBytesPush(all[..i], all[i]);
        sum := sum + |segments[i].log.bytes| + |segments[i].indexFile.bytes|;
      }
      assert all[..|segments|] == all == State().front + [State().active];
      FrontBytesPush(State().front, State().active);
      total := Some(sum);
    }

    /** Removes closed segments, oldest first, while they are expired. Attempts are numbered from `first`. */
    method RetainByAge(cutoff: int, io: RetainIO, first: nat) returns (ok: bool, attempts: nat, ghost k: nat)
      requires Valid()
      modifies this`segments, this`earliestOffset, this`gone
      ensures Shape() && k <= |old(State()).front| && State() == Dropped(old(State()), k)
      ensures Progress(ok, k, attempts) == AgeLoop(old(State()), cutoff, io, 0, first)
    {
      hide S.ValidStore, S.Model, Snap, ValidSeg, Dropped;
      ghost var s := State();
      DroppedNone(s, lim);
      ok, attempts, k := true, first, 0;
      while |segments| > 1
        invariant Shape() && k <= |s.front| && State() == Dropped(s, k) && |segments| == |s.front| - k + 1
        invariant ok && AgeLoop(s, cutoff, io, k, attempts) == AgeLoop(s, cutoff, io, 0, first)
        decreases |segments|
      {
        SegAt(0);
        DroppedStep(s, k);
        if segments[0].maxTimestamp > cutoff {
          return;
        }
        attempts := attempts + 1;
        ghost var kept := io.removals(attempts - 1).LogKept?;
        ok := DeleteOldest(io.removals(attempts - 1));
        k := if kept then k else k + 1;
        if !ok {
          return;
        }
      }
    }

    /** One round of the size loop: stops if the sizes cannot be had or are within the limit, else removes a segment. */
    method SizeRound(maxBytes: nat, io: RetainIO, n: nat) returns (ok: bool, more: bool)
      requires Shape() && |segments| > 1
      modifies this`segments, this`earliestOffset, this`gone
      ensures var (s, within) := (old(State()), TotalBytes(old(State())) <= maxBytes);
              && ok == (io.stats(n) && (within || io.removals(n).Removed?)) && more == (ok && !within)
              && Shape()
              && State() == if !io.stats(n) || within || io.removals(n).LogKept? then s
                            else s.(front := s.front[1..], gone := s.gone + s.front[0].batches,
                                    earliest := S.NextBase(s.front[1..], s.active.base, 0))
    {
      hide S.ValidStore, S.Model, Snap, TotalBytes;
      var total := CalculateTotalBytes(io.stats(n));
      if total.None? {
        return false, false;
      }
      if total.value <= maxBytes {
        return true, false;
      }
      ok := DeleteOldest(io.removals(n));
      more := ok;
    }

    /** Removes closed segments, oldest first, while the files are too large. */
    method RetainBySize(maxBytes: nat, io: RetainIO, first: nat) returns (ok: bool, ghost k: nat, ghost attempts: nat)
      requires Valid()
      modifies this`segments, this`earliestOffset, this`gone
      ensures Shape() && k <= |old(State()).front| && State() == Dropped(old(State()), k)
      ensures Progress(ok, k, attempts) == SizeLoop(old(State()), maxBytes, io, 0, first)
    {
      hide S.ValidStore, S.Model, Snap, ValidSeg, Dropped, TotalBytes, SizeLoop;
      ghost var s := State();
      DroppedNone(s, lim);
      ok, k := true, 0;
      var n := first;
      while |segments| > 1
        invariant Shape() && k <= |s.front| && State() == Dropped(s, k) && |segments| == |s.front| - k + 1
        invariant ok && SizeLoop(s, maxBytes, io, k, n) == SizeLoop(s, maxBytes, io, 0, first)
        decreases |segments|
      {
        DroppedStep(s, k);
        SizeStep(s, maxBytes, io, k, n);
        ghost var before := |segments|;
        var more;
        ok, more := SizeRound(maxBytes, io, n);
        n := n + 1;
        SegAt(0);
        k := if |segments| < before then k + 1 else k;
        if !more {
          return ok, k, n;
        }
      }
      SizeEnd(s, maxBytes, io, n);
      attempts := n;
    }

    /** The age loop, then the size loop. `k` is the number of segments removed, errors or not. */
    method ApplyRetention(cutoff: int, maxBytes: nat, io: RetainIO) returns (ok: bool, ghost k: nat)
      requires Valid()
      modifies this`segments, this`earliestOffset, this`gone
      ensures Valid() && LogRuns.LiveStep(old(Model()), Model(), sync)
      ensures var p := Retained(old(State()), cutoff, maxBytes, io);
              ok == p.ok && k == p.k && State() == Dropped(old(State()), k)
      ensures closed || writeFailed ==> ok && State() == old(State())
      ensures !closed && !writeFailed ==> LogSpec.RetainStep(old(Model()), Model())
      ensures !closed && !writeFailed && Faultless(io) ==> ok && Planned(old(State()), cutoff, maxBytes, k)
      ensures !closed && !writeFailed && Faultless(io) ==> PlannedByRecords(old(State()), cutoff, maxBytes, k)
      ensures Justified(old(State()), cutoff, maxBytes, k)
      ensures Mirrored(old(State())) ==> Mirrored(State())
    {
      hide S.ValidStore, S.Model, Snap, ValidSeg, Dropped, TotalBytes, Planned, Mirrored, AgeLoop, SizeLoop, Faultless,
           PlannedByRecords, Justified;
      ghost var s := State();
      DroppedNone(s, lim);
      ModelFlags(s);
      RetainedJustified(s, cutoff, maxBytes, io, lim);
      if closed || writeFailed {
        return true, 0;
      }
      var aged, attempts;
      ghost var a, j, last;
      aged, attempts, a := RetainByAge(cutoff, io, 0);
      DroppedValid(s, a, lim);
      SizeShift(s, maxBytes, io, a, 0, attempts);
      var sized;
      sized, j, last := RetainBySize(maxBytes, io, attempts);
      DroppedTwice(s, a, j);
      DroppedValid(s, a + j, lim);
      DroppedMirrors(s, a + j);
      ok, k := aged && sized, a + j;
      if Faultless(io) {
        RetainedFaultless(s, cutoff, maxBytes, io);
        PlannedMeans(s, cutoff, maxBytes, k, lim);
      }
    }

    /** Close flushes the active segment, then closes all file handles; closing twice does nothing. */
    method Close(io: FlushOutcome, handlesClosed: bool) returns (ok: bool)
      requires Valid()
      modifies this`closed, activeSegment`log, activeSegment`indexFile, activeSegment`indexDirty
      ensures Valid() && closed && LogRuns.LiveStep(old(Model()), Model(), sync)
      ensures old(closed) ==> ok && State() == old(State())
      ensures !old(closed) ==>
                && ok == (FlushOk(old(activeSegment.State()), io) && handlesClosed)
                && State() == old(State()).(active := FlushedSeg(old(activeSegment.State()), io), closed := true)
                && LogSpec.CloseStep(old(Model()), Model())
                && (!io.LogSyncFailed? ==> Model().durable == |Model().history|)
      ensures Mirrored(old(State())) ==> Mirrored(State())
    {
      hide S.ValidStore, S.Model, Snap, FlushedSeg, Mirrored, LogRuns.LiveStep, LogSpec.CloseStep;
      ghost var s := State();
      LogRuns.StillLive(Model(), sync);
      if closed {
        return true;
      }
      CloseKeeps(s, io, lim);
      ok := FlushActive(io);
      closed := true;
      LogRuns.CloseLive(S.Model(s), Model(), sync);
      ok := ok && handlesClosed;
    }
  }
}
