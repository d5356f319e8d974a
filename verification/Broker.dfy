/** The handlers for fetching and committing (internal/grpcserver/broker_handler.go:105-239), which tie consumer
    offsets to partition logs, and runs of the two together. */
module Broker {
  import opened Bytes
  import opened Files
  import opened Format
  import opened Batches
  import opened OffsetFormat
  import opened OffsetLog
  import opened OffsetStore
  import opened PartitionStore
  import opened LogRuns
  import opened SegmentFile
  import opened Appending
  import opened Decisions
  import opened Lifecycle
  import opened Reading
  import S = StoreState
  import LogSpec
  import OffsetSpec
  import OffsetRuns

  datatype Status = Ok | InvalidRequest | PartitionNotFound | OutOfRange | OffsetsUnavailable | Internal

  datatype PartitionId = PartitionId(topic: seq<byte>, partition: uint32)

  datatype Page = Page(records: seq<StoredRecord>, earliest: nat, logEnd: nat)

  /** The store can take these operations one after another. */
  ghost predicate Takes(store: Store, ops: seq<Op>)
    reads store, store.segments, store.activeSegment
  {
    && store.Valid() && store.logEndOffset + AddedAll(ops) <= MAX_UINT64
    && forall op <- ops :: ProperOp(op)
  }

  lemma PageWithin(flat: seq<StoredRecord>, offset: nat, budget: int, page: seq<StoredRecord>)
    requires offset <= |flat| && LongestRun(flat[offset..], budget, page)
    ensures offset + |page| <= |flat|
  {
    hide Total;
  }

  ghost function ApplyBoth(s: S.Store, between: seq<Op>, later: seq<Op>, sync: bool, lim: Limits): S.Store {
    ApplyAll(ApplyAll(s, between, sync, lim), later, sync, lim)
  }

  lemma BothProper(a: seq<Op>, b: seq<Op>)
    requires forall op <- a + b :: ProperOp(op)
    ensures (forall op <- a :: ProperOp(op)) && forall op <- b :: ProperOp(op)
  {
    assert (forall op <- a :: op in a + b) && forall op <- b :: op in a + b;
  }

  class BrokerServer {
    const partitions: map<PartitionId, Store>
    const offsets: OffsetStore

    constructor (partitions: map<PartitionId, Store>, offsets: OffsetStore)
      ensures this.partitions == partitions && this.offsets == offsets
    {
      this.partitions, this.offsets := partitions, offsets;
    }

    /** Fetch: the records from the offset on that fit the budget, and both ends of the log. The ends are read after
        the records, one after the other and without the lock; `between` and `later` is what other requests do to the
        partition before each of them. */
    method Fetch(topic: seq<byte>, partition: uint32, offset: uint64, maxBytes: uint32, between: seq<Op>,
                 later: seq<Op>)
      returns (s: Status, page: Page)
      requires var id := PartitionId(topic, partition); id in partitions ==> Takes(partitions[id], between + later)
      modifies Footprint(PartitionId(topic, partition))
      ensures maxBytes == 0 ==> s == InvalidRequest
      ensures maxBytes > 0 && PartitionId(topic, partition) !in partitions ==> s == PartitionNotFound
      ensures maxBytes > 0 && PartitionId(topic, partition) in partitions ==>
                var store := partitions[PartitionId(topic, partition)];
                if old(store.closed) || old(store.writeFailed) then s == Internal
                else if !(old(store.earliestOffset) <= offset <= old(store.logEndOffset)) then s == OutOfRange
                else
                  var flat := Flatten(old(store.Model()).history);
                  && s == Ok && page.logEnd == store.logEndOffset
                  && page.earliest == ApplyAll(old(store.State()), between, store.sync, store.lim).earliest
                  && |flat| == old(store.logEndOffset) && LongestRun(flat[offset..], maxBytes, page.records)
                  && offset + |page.records| <= page.logEnd
      ensures var id := PartitionId(topic, partition); id in partitions ==>
                var store := partitions[id];
                && store.Valid() && (store.activeSegment == old(store.activeSegment) || fresh(store.activeSegment))
                && old(store.logEndOffset) <= store.logEndOffset <= old(store.logEndOffset) + AddedAll(between + later)
                && store.closed == old(store.closed) && old(store.Model()).history <= store.Model().history
                && if s.Ok? then store.State() == ApplyBoth(old(store.State()), between, later, store.sync, store.lim)
                   else store.State() == old(store.State())
    {
      hide S.ValidStore, S.Model, LongestRun, Flatten, ApplyAll, LogRuns.LiveRun, LogSpec.WellFormed, Mirrored, Snap,
           AddedAll;
      page := Page([], 0, 0);
      if maxBytes == 0 {
        return InvalidRequest, page;
      }
      var id := PartitionId(topic, partition);
      if id !in partitions {
        return PartitionNotFound, page;
      }
      var store := partitions[id];
      AddedConcat(between, later);
      var r := store.Read(offset, maxBytes);
      if r.ReadFailed? {
        s := if r.error.OffsetOutOfRange? then OutOfRange else Internal;
        return;
      }
      PageWithin(Flatten(store.Model().history), offset, maxBytes, r.records);
      BothProper(between, later);
      ghost var trail := DoAll(store, between);
      var earliest := store.earliestOffset;
      trail := DoAll(store, later);
      s, page := Ok, Page(r.records, earliest, store.logEndOffset);
    }

    /** The objects a request for this partition may change. */
    ghost function Footprint(id: PartitionId): set<object>
      reads if id in partitions then {partitions[id]} else {}
    {
      if id in partitions then {partitions[id], partitions[id].activeSegment} else {}
    }

    /** Reads the two ends, one after the other, and checks the offset against them. */
    method InRangeNow(store: Store, next: uint64, between: seq<Op>) returns (ok: bool, ghost ls: seq<LogSpec.Log>)
      requires Takes(store, between)
      modifies store, store.activeSegment
      ensures store.Valid() && (store.activeSegment == old(store.activeSegment) || fresh(store.activeSegment))
      ensures store.State() == ApplyAll(old(store.State()), between, store.sync, store.lim)
      ensures store.logEndOffset <= old(store.logEndOffset) + AddedAll(between)
      ensures ok == (old(store.earliestOffset) <= next <= store.logEndOffset)
      ensures |ls| == |between| + 1 && ls[0] == old(store.Model()) && ls[|between|] == store.Model()
      ensures LiveRun(ls, store.sync) && LogSpec.End(store.Model()) == store.logEndOffset
    {
      hide S.ValidStore, S.Model, Snap, ApplyAll, LogSpec.WellFormed, LogSpec.End, LogSpec.Earliest, Mirrored, LiveRun,
           AddedAll;
      var earliest := store.earliestOffset;
      ls := DoAll(store, between);
      var end := store.logEndOffset;
      ok := !(next < earliest || next > end);
      store.LogOf();
    }

    /** The commit, once the offset has passed the check. */
    method CommitChecked(group: seq<byte>, topic: seq<byte>, partition: uint32, next: uint64, timestamp: uint64,
                         io: CommitIO) returns (s: Status)
      requires offsets.Valid()
      modifies offsets
      ensures offsets.Valid()
      ensures if !(ValidName(group) && ValidName(topic)) then s == InvalidRequest
              else if old(offsets.closed) || old(offsets.writeFailed) then s == OffsetsUnavailable
              else
                && s == (if io.write.Complete? && io.synced then Ok else Internal)
                && OffsetSpec.CommitStep(old(offsets.Model()), Entry(group, topic, partition, next, timestamp),
                                         offsets.Model(), s.Ok?)
      ensures s.Ok? || s.Internal? || offsets.Model() == old(offsets.Model())
      ensures s.Ok? ==> offsets.offsets == old(offsets.offsets)[Key(group, topic, partition) := next]
    {
      hide ValidState, ModelOf, OffsetRuns.Step;
      var r := offsets.Commit(group, topic, partition, next, timestamp, io);
      match r {
        case Committed => s := Ok;
        case InvalidArgument => s := InvalidRequest;
        case OffsetStoreClosed => s := OffsetsUnavailable;
        case Unavailable => s := OffsetsUnavailable;
        case CommitFailed => s := Internal;
      }
    }

    /** CommitOffset for a partition that exists: the offset must lie between its two ends, then it is committed. */
    method CommitIn(store: Store, group: seq<byte>, topic: seq<byte>, partition: uint32, next: uint64,
                    timestamp: uint64, io: CommitIO, between: seq<Op>, later: seq<Op>, ghost checked: set<Entry>)
      returns (s: Status, ghost trail: seq<System>)
      requires offsets.Valid() && Takes(store, between + later)
      modifies offsets, store, store.activeSegment
      ensures offsets.Valid() && store.Valid()
      ensures store.activeSegment == old(store.activeSegment) || fresh(store.activeSegment)
      ensures var end := ApplyAll(old(store.State()), between, store.sync, store.lim).logEnd;
              if !(old(store.earliestOffset) <= next <= end) then
                s == OutOfRange && store.State() == ApplyAll(old(store.State()), between, store.sync, store.lim)
              else
                && store.State() == ApplyBoth(old(store.State()), between, later, store.sync, store.lim)
                && if !(ValidName(group) && ValidName(topic)) then s == InvalidRequest
                   else if old(offsets.closed) || old(offsets.writeFailed) then s == OffsetsUnavailable
                   else
                     && s == (if io.write.Complete? && io.synced then Ok else Internal)
                     && OffsetSpec.CommitStep(old(offsets.Model()), Entry(group, topic, partition, next, timestamp),
                                              offsets.Model(), s.Ok?)
      ensures s.Ok? || s.Internal? || offsets.Model() == old(offsets.Model())
      ensures s.Ok? ==> offsets.offsets == old(offsets.offsets)[Key(group, topic, partition) := next]
      ensures RunOf(trail, store.sync, PartitionId(topic, partition),
                    System(old(store.Model()), old(offsets.Model()), checked), store.Model(), offsets.Model())
      ensures s.Ok? || s.Internal? ==>
                Committing(trail, |between|, |later|, Entry(group, topic, partition, next, timestamp), s.Ok?,
                           PartitionId(topic, partition))
    {
      hide ValidState, ModelOf, S.ValidStore, S.Model, Snap, ApplyAll, LogSpec.WellFormed, LogSpec.End, Mirrored, RunOf,
           Committing, LiveRun, AddedAll, Lift, CheckedTrail, OffsetSpec.CommitStep, ValidName;
      var id := PartitionId(topic, partition);
      AddedConcat(between, later);
      BothProper(between, later);
      ghost var o := offsets.Model();
      ghost var e := Entry(group, topic, partition, next, timestamp);
      var ok;
      ghost var first;
      ok, first := InRangeNow(store, next, between);
      if !ok {
        LiftRun(first, o, checked, store.sync, id);
        return OutOfRange, Lift(first, o, checked);
      }
      ghost var second := DoAll(store, later);
      s := CommitChecked(group, topic, partition, next, timestamp, io);
      CheckedRun(first, second, o, checked, e, store.sync, id);
      trail := CheckedTrail(first, second, o, checked, e);
      if s.Ok? || s.Internal? {
        WrittenRun(first, second, o, checked, e, offsets.Model(), s.Ok?, store.sync, id);
        trail := WrittenTrail(first, second, o, checked, e, offsets.Model());
      }
    }

    /** CommitOffset: the partition must exist and the offset lie between its two ends, then it is committed. The ends
        are read one after the other and without the lock; `between` and `later` is what other requests do to the
        partition before the second is read and before the commit. The call is a run of the system. */
    method CommitOffset(group: seq<byte>, topic: seq<byte>, partition: uint32, next: uint64, timestamp: uint64,
                        io: CommitIO, between: seq<Op>, later: seq<Op>, ghost checked: set<Entry>)
      returns (s: Status, ghost trail: seq<System>)
      requires offsets.Valid()
      requires var id := PartitionId(topic, partition); id in partitions ==> Takes(partitions[id], between + later)
      modifies offsets, Footprint(PartitionId(topic, partition))
      ensures offsets.Valid()
      ensures var id := PartitionId(topic, partition);
              if group == [] then s == InvalidRequest
              else if id !in partitions then s == PartitionNotFound
              else
                var store := partitions[id];
                var end := ApplyAll(old(store.State()), between, store.sync, store.lim).logEnd;
                if !(old(store.earliestOffset) <= next <= end) then s == OutOfRange
                else if !(ValidName(group) && ValidName(topic)) then s == InvalidRequest
                else if old(offsets.closed) || old(offsets.writeFailed) then s == OffsetsUnavailable
                else
                  && s == (if io.write.Complete? && io.synced then Ok else Internal)
                  && OffsetSpec.CommitStep(old(offsets.Model()), Entry(group, topic, partition, next, timestamp),
                                           offsets.Model(), s.Ok?)
      ensures s.Ok? || s.Internal? || offsets.Model() == old(offsets.Model())
      ensures s.Ok? ==> offsets.offsets == old(offsets.offsets)[Key(group, topic, partition) := next]
      ensures var id := PartitionId(topic, partition); id in partitions ==>
                var store := partitions[id];
                && store.Valid() && (store.activeSegment == old(store.activeSegment) || fresh(store.activeSegment))
                && store.State() == (if group == [] then old(store.State())
                                     else if s.OutOfRange? then
                                       ApplyAll(old(store.State()), between, store.sync, store.lim)
                                     else ApplyBoth(old(store.State()), between, later, store.sync, store.lim))
                && RunOf(trail, store.sync, id, System(old(store.Model()), old(offsets.Model()), checked),
                         store.Model(), offsets.Model())
      ensures s.Ok? || s.Internal? ==>
                Committing(trail, |between|, |later|, Entry(group, topic, partition, next, timestamp), s.Ok?,
                           PartitionId(topic, partition))
    {
      hide ValidState, ModelOf, S.ValidStore, S.Model, Snap, ApplyAll, ApplyBoth, RunOf, Committing, AddedAll,
           OffsetSpec.CommitStep, ValidName;
      var id := PartitionId(topic, partition);
      trail := [];
      if id in partitions {
        trail := [System(partitions[id].Model(), offsets.Model(), checked)];
        OneState(trail[0], partitions[id].sync, id);
      }
      if group == [] {
        return InvalidRequest, trail;
      }
      if id !in partitions {
        return PartitionNotFound, trail;
      }
      s, trail :=
        CommitIn(partitions[id], group, topic, partition, next, timestamp, io, between, later, checked);
    }

    /** FetchCommittedOffset: what was committed last for the key, if the partition exists. */
    method FetchCommittedOffset(group: seq<byte>, topic: seq<byte>, partition: uint32)
      returns (s: Status, found: Option<uint64>)
      requires offsets.Valid()
      ensures group == [] ==> s == InvalidRequest
      ensures group != [] && PartitionId(topic, partition) !in partitions ==> s == PartitionNotFound
      ensures group != [] && PartitionId(topic, partition) in partitions ==>
                s == if offsets.closed || offsets.writeFailed then OffsetsUnavailable else Ok
      ensures s.Ok? ==>
                var (m, k) := (Fold(offsets.entries), Key(group, topic, partition));
                found == if k in m then Some(m[k]) else None
      ensures s.Ok? && found.Some? ==>
                var (id, store) := (PartitionId(topic, partition), partitions[PartitionId(topic, partition)]);
                store.Valid() && Invariant(System(store.Model(), offsets.Model(), {}), id) ==>
                  found.value <= store.logEndOffset
    {
      hide Fold, S.ValidStore, S.Model, Snap, Invariant, LogSpec.WellFormed, LogSpec.End, LogSpec.Earliest;
      if PartitionId(topic, partition) in partitions && Key(group, topic, partition) in Fold(offsets.entries) {
        var store := partitions[PartitionId(topic, partition)];
        if store.Valid() && Invariant(System(store.Model(), offsets.Model(), {}), PartitionId(topic, partition)) {
          FoundInRange(System(store.Model(), offsets.Model(), {}), Key(group, topic, partition));
          store.LogOf();
        }
      }
      found := None;
      if group == [] {
        return InvalidRequest, None;
      }
      if PartitionId(topic, partition) !in partitions {
        return PartitionNotFound, None;
      }
      var r := offsets.Get(group, topic, partition);
      match r {
        case Got(offset) => s, found := Ok, Some(offset);
        case NotFound => s := Ok;
        case GetClosed => s := OffsetsUnavailable;
        case GetUnavailable => s := OffsetsUnavailable;
      }
    }
  }

  // ----------------------------------------------- runs of a partition and the offset store

  /** One partition's log, the offset store, and the commits that have passed the range check. */
  datatype System = System(log: LogSpec.Log, offs: OffsetSpec.Offsets, checked: set<Entry>)

  predicate For(e: Entry, id: PartitionId) { e.topic == id.topic && e.partition == id.partition }

  /** A request for this partition passes the upper half of the range check; the lower end was read before. The check
      and the commit are separate steps: anything may happen between them. */
  ghost predicate CheckStep(s: System, s': System, e: Entry, id: PartitionId) {
    For(e, id) && e.next <= LogSpec.End(s.log) && s' == s.(checked := s.checked + {e})
  }

  /** A checked commit, or any commit for another partition, goes to the offset store. */
  ghost predicate WriteStep(s: System, s': System, e: Entry, acked: bool, id: PartitionId) {
    && (e in s.checked || !For(e, id))
    && OffsetSpec.CommitStep(s.offs, e, s'.offs, acked)
    && s' == s.(offs := s'.offs, checked := s.checked - {e})
  }

  /** A crash takes both stores down; both are recovered, and requests under way are gone. */
  ghost predicate CrashStep(s: System, s': System) {
    && LogSpec.RestartStep(s.log, s'.log) && OffsetSpec.RestartStep(s.offs, s'.offs)
    && s'.checked == {}
  }

  ghost predicate SystemStep(s: System, s': System, sync: bool, id: PartitionId) {
    || (LiveStep(s.log, s'.log, sync) && s' == s.(log := s'.log))
    || (exists e :: CheckStep(s, s', e, id))
    || (exists e, acked :: WriteStep(s, s', e, acked, id))
    || (OffsetSpec.CloseStep(s.offs, s'.offs) && s' == s.(offs := s'.offs))
    || CrashStep(s, s')
  }

  ghost predicate Steps(ss: seq<System>, sync: bool, id: PartitionId) {
    forall i | 0 < i < |ss| :: SystemStep(ss[i - 1], ss[i], sync, id)
  }

  /** What passes the check in this step is already on stable storage. */
  ghost predicate DurableCheck(s: System, s': System, id: PartitionId) {
    s.log.durable <= |s.log.history| && forall e | CheckStep(s, s', e, id) :: e.next <= LogSpec.DurableEnd(s.log)
  }

  ghost predicate DurableChecks(ss: seq<System>, id: PartitionId) {
    forall i | 0 < i < |ss| :: DurableCheck(ss[i - 1], ss[i], id)
  }

  /** Every commit for the partition that was ever started is for an offset no crash can take away. */
  ghost predicate Invariant(s: System, id: PartitionId) {
    && LogSpec.WellFormed(s.log) && s.log.durable <= |s.log.history|
    && OffsetSpec.WellFormed(s.offs)
    && (forall e <- OffsetSpec.Attempted(s.offs) :: For(e, id) ==> e.next <= LogSpec.DurableEnd(s.log))
    && (forall e <- s.checked :: For(e, id) ==> e.next <= LogSpec.DurableEnd(s.log))
  }

  /** Nobody is told to continue past the end of the log. */
  ghost predicate InRange(s: System, id: PartitionId) {
    forall e <- s.offs.entries :: For(e, id) ==> e.next <= LogSpec.End(s.log)
  }

  lemma InvariantInRange(s: System, id: PartitionId)
    requires Invariant(s, id)
    ensures InRange(s, id)
  {
    hide Off, LogSpec.WellFormed;
    EndAtLeast(s.log, s.log.durable);
    assert forall e <- s.offs.entries :: e in OffsetSpec.Attempted(s.offs);
  }

  lemma EmptyInvariant(id: PartitionId)
    ensures Invariant(System(LogSpec.EMPTY, OffsetSpec.NONE, {}), id) && AllDurable(LogSpec.EMPTY)
  {
  }

  lemma LogMoves(l: LogSpec.Log, l': LogSpec.Log, sync: bool)
    requires LogSpec.WellFormed(l) && l.durable <= |l.history| && AnyStep(l, l', sync)
    ensures LogSpec.WellFormed(l') && l'.durable <= |l'.history|
    ensures LogSpec.DurableEnd(l) <= LogSpec.DurableEnd(l')
  {
    hide AnyStep, LogSpec.WellFormed;
    StepKeeps(l, l', sync);
    OffPrefix(l.history, l'.history, l.durable);
    Increasing(l'.history, l.durable, l'.durable);
  }

  lemma StepInvariant(s: System, s': System, sync: bool, id: PartitionId)
    requires Invariant(s, id) && SystemStep(s, s', sync, id) && DurableCheck(s, s', id)
    ensures Invariant(s', id)
  {
    hide Off, LogSpec.WellFormed, LiveStep;
    if LiveStep(s.log, s'.log, sync) && s' == s.(log := s'.log) {
      LogMoves(s.log, s'.log, sync);
    } else if CrashStep(s, s') {
      LogMoves(s.log, s'.log, sync);
    } else if e :| CheckStep(s, s', e, id) {
    } else if e, acked :| WriteStep(s, s', e, acked, id) {
    }
  }

  /** Whatever the mode and the crashes: if only durable offsets pass the check, every commit stays in range. */
  lemma {:induction false} CommitsInRange(ss: seq<System>, sync: bool, i: nat, id: PartitionId)
    requires Steps(ss, sync, id) && DurableChecks(ss, id) && i < |ss| && Invariant(ss[0], id)
    ensures Invariant(ss[i], id) && InRange(ss[i], id)
  {
    hide Off, SystemStep, DurableCheck, Invariant, InRange;
    if i > 0 {
      CommitsInRange(ss[..i], sync, i - 1, id);
      StepInvariant(ss[i - 1], ss[i], sync, id);
    }
    InvariantInRange(ss[i], id);
  }

  /** A run that begins with the check of `e`, and in which only durable offsets pass the check after that. */
  ghost predicate RunFrom(ss: seq<System>, s: System, e: Entry, sync: bool, id: PartitionId) {
    && |ss| > 1 && ss[0] == s && CheckStep(s, ss[1], e, id)
    && Steps(ss[1..], sync, id) && DurableChecks(ss[1..], id)
  }

  /** The run in which the commit is acknowledged and then all that can be lost is lost. */
  ghost function WorstRun(s: System, e: Entry): seq<System>
    requires s.log.durable <= |s.log.history|
  {
    var checked := s.(checked := s.checked + {e});
    var offs := s.offs.(entries := s.offs.entries + [e], durable := |s.offs.entries| + 1);
    var written := checked.(offs := offs, checked := checked.checked - {e});
    [s, checked, written, System(Worst(s.log), offs, {})]
  }

  lemma WorstRunBreaks(s: System, e: Entry, sync: bool, id: PartitionId)
    requires Invariant(s, id) && !s.offs.closed && !s.offs.poisoned && For(e, id)
    requires LogSpec.DurableEnd(s.log) < e.next <= LogSpec.End(s.log)
    ensures RunFrom(WorstRun(s, e), s, e, sync, id) && !InRange(WorstRun(s, e)[3], id)
  {
    hide Off, LogSpec.WellFormed, LiveStep;
    var ss := WorstRun(s, e);
    WorstStep(s.log, sync);
    OffPrefix(s.log.history, Worst(s.log).history, s.log.durable);
    WellFormedBounds(s.log);
    assert CheckStep(ss[0], ss[1], e, id);
    assert WriteStep(ss[1], ss[2], e, true, id);
    assert CrashStep(ss[2], ss[3]);
    var rest := ss[1..];
    assert rest == [ss[1], ss[2], ss[3]];
    assert DurableCheck(rest[0], rest[1], id) by { assert |ss[2].offs.entries| != |ss[1].offs.entries|; }
    assert DurableCheck(rest[1], rest[2], id) by { assert forall f :: f !in ss[3].checked; }
    assert SystemStep(rest[0], rest[1], sync, id) && SystemStep(rest[1], rest[2], sync, id);
    assert ss[3].offs.entries[|s.offs.entries|] == e;
  }

  /** Exactly which commits the range check should let through: accepting an offset leaves every commit in range in
      every later state if and only if the offset is at most the durable end at the time of the check. */
  lemma CommitSafeExactly(s: System, e: Entry, sync: bool, id: PartitionId)
    requires Invariant(s, id) && !s.offs.closed && !s.offs.poisoned && For(e, id)
    requires e.next <= LogSpec.End(s.log)
    ensures e.next <= LogSpec.DurableEnd(s.log) <==>
            forall ss, j: nat | RunFrom(ss, s, e, sync, id) && j < |ss| :: InRange(ss[j], id)
  {
    hide Off, SystemStep, Steps, DurableChecks, InRange, LogSpec.WellFormed;
    if e.next <= LogSpec.DurableEnd(s.log) {
      forall ss, j: nat | RunFrom(ss, s, e, sync, id) && j < |ss|
        ensures InRange(ss[j], id)
      {
        if j == 0 {
          InvariantInRange(s, id);
        } else {
          CommitsInRange(ss[1..], sync, j - 1, id);
        }
      }
    } else {
      WorstRunBreaks(s, e, sync, id);
      assert !InRange(WorstRun(s, e)[3], id);
    }
  }

  // ------------------------------------------------------------- sync mode

  /** A step in sync mode where every crash is a power loss and no poisoned store passes the check. */
  ghost predicate SoundStep(s: System, s': System, id: PartitionId) {
    && SystemStep(s, s', true, id)
    && PowerStep(s.log, s'.log, true)
    && forall e | CheckStep(s, s', e, id) :: !s.log.poisoned
  }

  ghost predicate SoundRun(ss: seq<System>, id: PartitionId) {
    && ss != [] && ss[0] == System(LogSpec.EMPTY, OffsetSpec.NONE, {})
    && forall i | 0 < i < |ss| :: SoundStep(ss[i - 1], ss[i], id)
  }

  lemma SoundStepKeeps(s: System, s': System, id: PartitionId)
    requires Invariant(s, id) && AllDurable(s.log) && SoundStep(s, s', id)
    ensures Invariant(s', id) && AllDurable(s'.log)
  {
    hide SystemStep, Invariant, PowerStep, Off, LogSpec.WellFormed;
    InvariantLog(s, id);
    DurableStep(s.log, s'.log);
    StepInvariant(s, s', true, id);
  }

  lemma {:induction false} SoundRunDurable(ss: seq<System>, i: nat, id: PartitionId)
    requires SoundRun(ss, id) && i < |ss|
    ensures Invariant(ss[i], id) && AllDurable(ss[i].log)
  {
    hide SoundStep, Invariant, AllDurable, LogSpec.WellFormed;
    if i == 0 {
      EmptyInvariant(id);
    } else {
      SoundRunDurable(ss[..i], i - 1, id);
      SoundStepKeeps(ss[i - 1], ss[i], id);
    }
  }

  lemma InvariantLog(s: System, id: PartitionId)
    requires Invariant(s, id)
    ensures LogSpec.WellFormed(s.log) && s.log.durable <= |s.log.history|
  {
  }

  /** There the handler's check is enough: every offset a consumer can fetch stays in range. */
  lemma FetchedInRange(ss: seq<System>, i: nat, id: PartitionId, k: Key)
    requires SoundRun(ss, id) && i < |ss| && k.topic == id.topic && k.partition == id.partition
    requires k in Fold(ss[i].offs.entries)
    ensures Fold(ss[i].offs.entries)[k] <= LogSpec.End(ss[i].log)
  {
    hide Off, Fold, Invariant, SoundRun;
    SoundRunDurable(ss, i, id);
    FoundInRange(ss[i], k);
  }

  lemma {:induction false} LastWrite(es: seq<Entry>, k: Key) returns (j: nat)
    requires k in Fold(es)
    ensures j < |es| && KeyOf(es[j]) == k && forall i | j < i < |es| :: KeyOf(es[i]) != k
    decreases |es|
  {
    var n := |es| - 1;
    if KeyOf(es[n]) == k {
      j := n;
    } else {
      j := LastWrite(es[..n], k);
    }
  }

  // ----------------------------------------------------- a call of CommitOffset as a run

  /** A run of the log, while nothing happens to the offset store. */
  ghost function Lift(ls: seq<LogSpec.Log>, o: OffsetSpec.Offsets, checked: set<Entry>): (ss: seq<System>)
    ensures |ss| == |ls| && forall i | 0 <= i < |ls| :: ss[i] == System(ls[i], o, checked)
  {
    seq(|ls|, i requires 0 <= i < |ls| => System(ls[i], o, checked))
  }

  /** Steps from one state to another. */
  ghost predicate RunOf(ss: seq<System>, sync: bool, id: PartitionId, from: System, log: LogSpec.Log,
                        o: OffsetSpec.Offsets) {
    && Steps(ss, sync, id) && ss != [] && ss[0] == from
    && ss[|ss| - 1].log == log && ss[|ss| - 1].offs == o
  }

  /** After `n` steps the check, after `m` more the commit. */
  ghost predicate Committing(ss: seq<System>, n: nat, m: nat, e: Entry, acked: bool, id: PartitionId) {
    && |ss| == n + m + 3 && CheckStep(ss[n], ss[n + 1], e, id)
    && WriteStep(ss[|ss| - 2], ss[|ss| - 1], e, acked, id)
  }

  lemma OneState(s: System, sync: bool, id: PartitionId)
    ensures RunOf([s], sync, id, s, s.log, s.offs)
  {
  }

  lemma LiftRun(ls: seq<LogSpec.Log>, o: OffsetSpec.Offsets, checked: set<Entry>, sync: bool, id: PartitionId)
    requires LiveRun(ls, sync) && ls != []
    ensures RunOf(Lift(ls, o, checked), sync, id, System(ls[0], o, checked), ls[|ls| - 1], o)
  {
    hide LiveStep, Lift;
  }

  lemma StepsJoin(a: seq<System>, b: seq<System>, sync: bool, id: PartitionId)
    requires Steps(a, sync, id) && Steps(b, sync, id) && a != [] && b != []
    requires SystemStep(a[|a| - 1], b[0], sync, id)
    ensures Steps(a + b, sync, id)
  {
    hide SystemStep;
    forall i | 0 < i < |a + b|
      ensures SystemStep((a + b)[i - 1], (a + b)[i], sync, id)
    {
      if i > |a| {
        assert (a + b)[i] == b[i - |a|] && (a + b)[i - 1] == b[i - |a| - 1];
      }
    }
  }

  /** Others, the check, others again. */
  ghost function CheckedTrail(first: seq<LogSpec.Log>, second: seq<LogSpec.Log>, o: OffsetSpec.Offsets,
                              checked: set<Entry>, e: Entry): seq<System>
  {
    Lift(first, o, checked) + Lift(second, o, checked + {e})
  }

  lemma CheckedRun(first: seq<LogSpec.Log>, second: seq<LogSpec.Log>, o: OffsetSpec.Offsets, checked: set<Entry>,
                   e: Entry, sync: bool, id: PartitionId)
    requires LiveRun(first, sync) && LiveRun(second, sync) && first != [] && second != []
    requires first[|first| - 1] == second[0] && For(e, id) && e.next <= LogSpec.End(second[0])
    ensures var (trail, n) := (CheckedTrail(first, second, o, checked, e), |first|);
            && RunOf(trail, sync, id, System(first[0], o, checked), second[|second| - 1], o)
            && |trail| == n + |second| && CheckStep(trail[n - 1], trail[n], e, id)
            && trail[|trail| - 1] == System(second[|second| - 1], o, checked + {e})
  {
    hide LiveRun, Lift;
    var (a, b) := (Lift(first, o, checked), Lift(second, o, checked + {e}));
    LiftRun(first, o, checked, sync, id);
    LiftRun(second, o, checked + {e}, sync, id);
    assert CheckStep(a[|a| - 1], b[0], e, id);
    StepsJoin(a, b, sync, id);
  }

  /** And the commit. */
  ghost function WrittenTrail(first: seq<LogSpec.Log>, second: seq<LogSpec.Log>, o: OffsetSpec.Offsets,
                              checked: set<Entry>, e: Entry, o': OffsetSpec.Offsets): seq<System>
    requires second != []
  {
    CheckedTrail(first, second, o, checked, e) + [System(second[|second| - 1], o', checked + {e} - {e})]
  }

  lemma WrittenRun(first: seq<LogSpec.Log>, second: seq<LogSpec.Log>, o: OffsetSpec.Offsets, checked: set<Entry>,
                   e: Entry, o': OffsetSpec.Offsets, acked: bool, sync: bool, id: PartitionId)
    requires LiveRun(first, sync) && LiveRun(second, sync) && first != [] && second != []
    requires first[|first| - 1] == second[0] && For(e, id) && e.next <= LogSpec.End(second[0])
    requires OffsetSpec.CommitStep(o, e, o', acked)
    ensures var trail := WrittenTrail(first, second, o, checked, e, o');
            && RunOf(trail, sync, id, System(first[0], o, checked), second[|second| - 1], o')
            && Committing(trail, |first| - 1, |second| - 1, e, acked, id)
  {
    hide LiveRun, Lift, CheckedTrail, CheckStep, Steps, WriteStep, OffsetSpec.CommitStep, LogSpec.End;
    CheckedRun(first, second, o, checked, e, sync, id);
    var a := CheckedTrail(first, second, o, checked, e);
    var last := System(second[|second| - 1], o', checked + {e} - {e});
    WriteTaken(a[|a| - 1], last, e, acked, sync, id);
    OneState(last, sync, id);
    StepsJoin(a, [last], sync, id);
  }

  lemma WriteTaken(s: System, s': System, e: Entry, acked: bool, sync: bool, id: PartitionId)
    requires e in s.checked && OffsetSpec.CommitStep(s.offs, e, s'.offs, acked)
    requires s' == System(s.log, s'.offs, s.checked - {e})
    ensures WriteStep(s, s', e, acked, id) && SystemStep(s, s', sync, id)
  {
    hide OffsetSpec.CommitStep;
    assert WriteStep(s, s', e, acked, id);
  }

  /** In a state that keeps the invariant, whatever can be fetched is in range. */
  lemma FoundInRange(s: System, k: Key)
    requires Invariant(s, PartitionId(k.topic, k.partition)) && k in Fold(s.offs.entries)
    ensures Fold(s.offs.entries)[k] <= LogSpec.End(s.log)
  {
    hide Fold, Invariant, LogSpec.WellFormed, Off;
    InvariantInRange(s, PartitionId(k.topic, k.partition));
    var es := s.offs.entries;
    var j := LastWrite(es, k);
    FoldIsLastWrite(es, j);
    assert es[j] in es;
  }
}
