/** A consumer that pages through a partition by fetching again from behind the last record
    (internal/bench/consumer.go:199-303), while others append to the log and retention cuts it. */
module Consuming {
  import opened Bytes
  import opened Format
  import opened Batches
  import opened Reading
  import opened SegmentFile
  import opened Appending
  import S = StoreState
  import LogSpec
  import LogRuns
  import opened PartitionStore
  import opened Placement
  import opened Decisions
  import opened Lifecycle
  import opened Broker

  lemma PageOn(flat: seq<StoredRecord>, offset: nat, curr: nat, budget: int, page: seq<StoredRecord>)
    requires offset <= curr <= |flat| && LongestRun(flat[curr..], budget, page)
    requires forall i | 0 <= i < |flat| :: flat[i].offset == i
    ensures curr + |page| <= |flat| && (page == [] ==> curr == |flat|)
    ensures flat[offset..curr] + page == flat[offset..curr + |page|]
    ensures forall i | 0 <= i < |page| :: page[i].offset == curr + i
  {
    hide Total;
    assert page == flat[curr..][..|page|];
  }

  predicate Continues(page: seq<StoredRecord>, curr: nat) {
    forall i | 0 <= i < |page| :: page[i].offset == curr + i
  }

  /** Checks that a page goes on where the last one ended. */
  method CheckPage(page: seq<StoredRecord>, curr: nat) returns (ok: bool)
    ensures ok <==> Continues(page, curr)
  {
    for i := 0 to |page|
      invariant Continues(page[..i], curr)
    {
      if page[i].offset != curr + i {
        return false;
      }
    }
    assert page[..|page|] == page;
    ok := true;
  }

  lemma FlatGrows(a: seq<Batch>, b: seq<Batch>)
    requires a <= b
    ensures Flatten(a) <= Flatten(b)
  {
    hide Flatten;
    assert b == a + b[|a|..];
    FlattenConcat(a, b[|a|..]);
  }

  /** What other requests do to the partition before a fetch, and before each of the two ends is read for its answer. */
  datatype Round = Round(before: seq<Op>, between: seq<Op>, later: seq<Op>)

  function AddedIn(rounds: seq<Round>): nat {
    if |rounds| == 0 then 0 else AddedOnce(rounds[0]) + AddedIn(rounds[1..])
  }

  function AddedOnce(r: Round): nat { AddedAll(r.before) + AddedAll(r.between + r.later) }

  const QUIET := Round([], [], [])

  ghost predicate ProperRound(r: Round) {
    (forall op <- r.before :: ProperOp(op)) && forall op <- r.between + r.later :: ProperOp(op)
  }

  /** The records from the offset to `curr`, as they lie in the log. */
  ghost predicate Paged(history: seq<Batch>, offset: nat, curr: nat, records: seq<StoredRecord>) {
    var flat := Flatten(history);
    offset <= curr <= |flat| && records == flat[offset..curr]
  }

  lemma PagedGrows(a: seq<Batch>, b: seq<Batch>, offset: nat, curr: nat, records: seq<StoredRecord>)
    requires a <= b && Paged(a, offset, curr, records)
    ensures Paged(b, offset, curr, records)
  {
    hide Flatten;
    FlatGrows(a, b);
    assert Flatten(a)[offset..curr] == Flatten(b)[offset..curr];
  }

  /** One fetch, checked and added to the pages so far. */
  method FetchPage(broker: BrokerServer, topic: seq<byte>, partition: uint32, maxFetchBytes: uint32, between: seq<Op>,
                   later: seq<Op>, offset: nat, curr: uint64, records: seq<StoredRecord>)
    returns (ok: bool, next: uint64, all: seq<StoredRecord>, logEnd: nat)
    requires maxFetchBytes > 0 && PartitionId(topic, partition) in broker.partitions
    requires var store := broker.partitions[PartitionId(topic, partition)];
             && Takes(store, between + later) && !store.closed && curr <= store.logEndOffset
             && Paged(store.Model().history, offset, curr, records)
    modifies broker.Footprint(PartitionId(topic, partition))
    ensures var store := broker.partitions[PartitionId(topic, partition)];
            && store.Valid() && (store.activeSegment == old(store.activeSegment) || fresh(store.activeSegment))
            && !store.closed && next <= store.logEndOffset && (ok ==> logEnd == store.logEndOffset)
            && old(store.logEndOffset) <= store.logEndOffset <= old(store.logEndOffset) + AddedAll(between + later)
            && Paged(store.Model().history, offset, next, all)
            && (!ok ==> next == curr && (store.writeFailed || curr < store.earliestOffset))
            && (ok ==> curr <= next && (next == curr ==> curr == old(store.logEndOffset)))
            && (|between| == |later| == 0 ==> store.State() == old(store.State()))
  {
    hide S.ValidStore, S.Model, Snap, LongestRun, Flatten, Paged, ApplyBoth, AddedAll, Continues;
    ghost var store := broker.partitions[PartitionId(topic, partition)];
    ghost var history := store.Model().history;
    store.FlatRecords();
    NothingDone(store.State(), store.sync, store.lim);
    logEnd, next, all := 0, curr, records;
    var status, page := broker.Fetch(topic, partition, curr, maxFetchBytes, between, later);
    PagedGrows(history, store.Model().history, offset, curr, records);
    if !status.Ok? {
      return false, curr, records, 0;
    }
    logEnd := page.logEnd;
    PageAdded(history, offset, curr, maxFetchBytes, records, page.records);
    if page.records != [] {
      var continues := CheckPage(page.records, curr);
      if !continues {
        return false, curr, records, logEnd;
      }
      all := records + page.records;
      LastOffset(page.records, curr);
      next := page.records[|page.records| - 1].offset + 1;
      PagedGrows(history, store.Model().history, offset, next, all);
    }
    ok := true;
  }

  lemma NothingDone(s: S.Store, sync: bool, lim: Limits)
    ensures ApplyBoth(s, [], [], sync, lim) == s
  {
  }

  lemma LastOffset(page: seq<StoredRecord>, curr: nat)
    requires page != [] && Continues(page, curr)
    ensures page[|page| - 1].offset + 1 == curr + |page|
  {
  }

  lemma PageAdded(history: seq<Batch>, offset: nat, curr: nat, budget: int, records: seq<StoredRecord>,
                  page: seq<StoredRecord>)
    requires Paged(history, offset, curr, records)
    requires var flat := Flatten(history);
             LongestRun(flat[curr..], budget, page) && forall i | 0 <= i < |flat| :: flat[i].offset == i
    ensures Continues(page, curr) && Paged(history, offset, curr + |page|, records + page)
    ensures page == [] ==> curr == |Flatten(history)|
  {
    hide Flatten, LongestRun;
    PageOn(Flatten(history), offset, curr, budget, page);
  }

  /** What others do does not change the pages so far. */
  method Others(store: Store, ops: seq<Op>, ghost offset: nat, ghost curr: nat, ghost records: seq<StoredRecord>)
    requires Takes(store, ops) && Paged(store.Model().history, offset, curr, records)
    modifies store, store.activeSegment
    ensures store.Valid() && store.closed == old(store.closed) && Paged(store.Model().history, offset, curr, records)
    ensures store.activeSegment == old(store.activeSegment) || fresh(store.activeSegment)
    ensures old(store.logEndOffset) <= store.logEndOffset <= old(store.logEndOffset) + AddedAll(ops)
  {
    hide S.ValidStore, S.Model, Snap, Paged, LogRuns.LiveRun, LogSpec.WellFormed, Mirrored, ApplyAll, AddedAll;
    ghost var history := store.Model().history;
    ghost var trail := DoAll(store, ops);
    PagedGrows(history, store.Model().history, offset, curr, records);
  }

  /** What others do first, and one fetch. */
  method FetchRound(broker: BrokerServer, topic: seq<byte>, partition: uint32, maxFetchBytes: uint32, r: Round,
                    offset: nat, curr: uint64, records: seq<StoredRecord>)
    returns (ok: bool, next: uint64, all: seq<StoredRecord>, logEnd: nat)
    requires maxFetchBytes > 0 && PartitionId(topic, partition) in broker.partitions && ProperRound(r)
    requires var store := broker.partitions[PartitionId(topic, partition)];
             && store.Valid() && !store.closed && curr <= store.logEndOffset
             && store.logEndOffset + AddedOnce(r) <= MAX_UINT64 && Paged(store.Model().history, offset, curr, records)
    modifies broker.Footprint(PartitionId(topic, partition))
    ensures var store := broker.partitions[PartitionId(topic, partition)];
            && store.Valid() && (store.activeSegment == old(store.activeSegment) || fresh(store.activeSegment))
            && !store.closed && next <= store.logEndOffset && (ok ==> logEnd == store.logEndOffset)
            && old(store.logEndOffset) <= store.logEndOffset <= old(store.logEndOffset) + AddedOnce(r)
            && Paged(store.Model().history, offset, next, all) && next == offset + |all|
            && (!ok ==> store.writeFailed || next < store.earliestOffset)
            && (ok ==> curr <= next && (next == curr ==> old(store.logEndOffset) <= curr))
            && (r == QUIET ==> store.State() == old(store.State()))
  {
    hide S.ValidStore, S.Model, Snap, Paged, AddedAll, Flatten;
    RoundProper(r);
    var store := broker.partitions[PartitionId(topic, partition)];
    if |r.before| > 0 {
      Others(store, r.before, offset, curr, records);
    }
    ok, next, all, logEnd :=
      FetchPage(broker, topic, partition, maxFetchBytes, r.between, r.later, offset, curr, records);
    PagedLength(store.Model().history, offset, next, all);
  }

  /** Pages through the partition from an offset until the end of the log that came with a page is reached. Whatever
      others append or retain meanwhile, the pages put together are the log from the offset on, each record once and in
      order, and everything that was there at the start; it fails only if the store is poisoned or retention
      overtakes it. Undisturbed it ends with the whole log, for every positive budget. */
  method Consume(broker: BrokerServer, topic: seq<byte>, partition: uint32, offset: uint64, maxFetchBytes: uint32,
                 rounds: seq<Round>)
    returns (ok: bool, records: seq<StoredRecord>)
    requires maxFetchBytes > 0 && PartitionId(topic, partition) in broker.partitions
    requires var store := broker.partitions[PartitionId(topic, partition)];
             && store.Valid() && !store.closed && !store.writeFailed
             && store.earliestOffset <= offset <= store.logEndOffset
             && store.logEndOffset + AddedIn(rounds) <= MAX_UINT64
    requires forall r <- rounds :: ProperRound(r)
    modifies broker.Footprint(PartitionId(topic, partition))
    ensures var store := broker.partitions[PartitionId(topic, partition)];
            && store.Valid() && Paged(store.Model().history, offset, offset + |records|, records)
            && (ok ==> old(store.logEndOffset) <= offset + |records|)
            && (!ok ==> store.writeFailed || offset + |records| < store.earliestOffset)
            && (|rounds| == 0 ==> ok && offset + |records| == store.logEndOffset && store.State() == old(store.State()))
  {
    hide S.ValidStore, S.Model, Snap, Paged, Flatten, ProperRound, AddedOnce;
    var store := broker.partitions[PartitionId(topic, partition)];
    var curr: uint64, round, logEnd := offset, 0, 0;
    records := [];
    store.FlatRecords();
    PagedNone(store.Model().history, offset);
    QuietRound();
    assert rounds[0..] == rounds;
    ok := true;
    while true
      invariant round <= |rounds| && store.Valid() && !store.closed && curr == offset + |records|
      invariant store.activeSegment == old(store.activeSegment) || fresh(store.activeSegment)
      invariant Paged(store.Model().history, offset, curr, records) && curr <= store.logEndOffset
      invariant old(store.logEndOffset) <= store.logEndOffset
      invariant store.logEndOffset + AddedIn(rounds[round..]) <= MAX_UINT64
      invariant ok && (|rounds| == 0 ==> store.State() == old(store.State()))
      decreases |rounds| - round, store.logEndOffset - curr
    {
      var r := QUIET;
      if round < |rounds| {
        assert rounds[round] in rounds && rounds[round..][1..] == rounds[round + 1..];
        r := rounds[round];
        round := round + 1;
      }
      ok, curr, records, logEnd := FetchRound(broker, topic, partition, maxFetchBytes, r, offset, curr, records);
      if !ok {
        return;
      }
      if curr >= logEnd {
        return;
      }
    }
  }

  lemma QuietRound()
    ensures ProperRound(QUIET) && AddedOnce(QUIET) == 0
  {
  }

  lemma PagedNone(history: seq<Batch>, offset: nat)
    requires offset <= |Flatten(history)|
    ensures Paged(history, offset, offset, [])
  {
  }

  lemma PagedLength(history: seq<Batch>, offset: nat, curr: nat, records: seq<StoredRecord>)
    requires Paged(history, offset, curr, records)
    ensures curr == offset + |records|
  {
  }

  lemma RoundProper(r: Round)
    requires ProperRound(r)
    ensures (forall op <- r.before :: ProperOp(op)) && forall op <- r.between + r.later :: ProperOp(op)
  {
  }
}
