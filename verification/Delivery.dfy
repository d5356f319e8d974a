/** What is read back after an acknowledged append is what the client sent (internal/storage/store.go:174-401), and what
    is fetched after an acknowledged commit is the offset committed (internal/grpcserver/broker_handler.go:162-239). */
module Delivery {
  import opened Bytes
  import opened Format
  import opened Batches
  import opened Stamping
  import opened Appending
  import opened Reading
  import opened PartitionStore
  import opened OffsetFormat
  import opened OffsetLog
  import opened OffsetStore
  import opened Decisions
  import opened Broker
  import S = StoreState
  import LogSpec
  import LogRuns

  /** What a record counts against the budget of a read: its contents, and 16. */
  function SentSize(r: Record): nat {
    |Contents(r.key)| + |Contents(r.value)| + HeadersSize(Contents(r.headers)) + 16
  }

  function SentTotal(rs: seq<Record>): nat {
    if rs == [] then 0 else SentTotal(rs[..|rs| - 1]) + SentSize(rs[|rs| - 1])
  }

  lemma {:induction false} SameHeadersSize(a: seq<Header>, b: seq<Header>)
    requires SameHeaders(a, b)
    ensures HeadersSize(a) == HeadersSize(b)
    decreases |a|
  {
    if a != [] {
      SameHeadersSize(a[1..], b[1..]);
    }
  }

  lemma CarriesSize(stored: StoredRecord, sent: Record, offset: nat, timestamp: int64)
    requires Carries(stored, sent, offset, timestamp)
    ensures RecordBytes(stored) == SentSize(sent)
  {
    hide HeadersSize, SameHeaders;
    SameHeadersSize(Contents(stored.headers), Contents(sent.headers));
  }

  /** The list has the first of the client's records, in order. */
  ghost predicate CarriesAll(page: seq<StoredRecord>, rs: seq<Record>, base: nat, timestamp: int64) {
    |page| <= |rs| && forall i | 0 <= i < |page| :: Carries(page[i], rs[i], base + i, timestamp)
  }

  lemma {:induction false} CarriesTotal(page: seq<StoredRecord>, rs: seq<Record>, base: nat, timestamp: int64)
    requires CarriesAll(page, rs, base, timestamp)
    ensures Total(page) == SentTotal(rs[..|page|])
    decreases |page|
  {
    hide Carries, RecordBytes, SentSize;
    if page == [] {
      assert rs[..0] == [];
    } else {
      var n := |page| - 1;
      CarriesTotal(page[..n], rs, base, timestamp);
      CarriesSize(page[n], rs[n], base + n, timestamp);
      assert rs[..n + 1][..n] == rs[..n];
    }
  }

  lemma DeliveredEnd(before: seq<StoredRecord>, flat: seq<StoredRecord>, rs: seq<Record>, timestamp: int64)
    requires Delivered(before, flat, rs, timestamp)
    ensures |flat| == |before| + |rs| && CarriesAll(flat[|before|..], rs, |before|, timestamp)
  {
    hide Carries;
  }

  /** A page read from the first of them on has all of them exactly if the budget has room, or there is only one. */
  lemma PageOfSent(rest: seq<StoredRecord>, rs: seq<Record>, base: nat, timestamp: int64, budget: int,
                   page: seq<StoredRecord>)
    requires CarriesAll(rest, rs, base, timestamp) && |rest| == |rs| > 0 && LongestRun(rest, budget, page)
    ensures page != [] && CarriesAll(page, rs, base, timestamp)
    ensures |page| == |rs| <==> |rs| == 1 || SentTotal(rs) <= budget
  {
    hide Carries, Total, SentTotal;
    CarriesTotal(rest, rs, base, timestamp);
    assert rs[..|rs|] == rs && rest[..|rest|] == rest;
    if |page| == |rest| {
      assert page == rest;
    }
  }

  /** The encoding of a batch has room for what its records count. */
  lemma SentWithin(rs: seq<Record>, base: nat, timestamp: int64)
    requires rs != [] && base + |rs| <= MAX_UINT64 && timestamp > -0x8000_0000_0000_0000
    requires |StampedBatch(rs, base, timestamp).bytes| <= 0x8000_0000
    ensures SentTotal(rs) <= |StampedBatch(rs, base, timestamp).bytes|
  {
    hide StampedBatch, Carries, SentTotal, Total, Encode, RoundTrip.Encodable, RoundTrip.Normal;
    var b := StampedBatch(rs, base, timestamp);
    StampedValid(rs, base, timestamp);
    forall i | 0 <= i < |rs|
      ensures Carries(b.records[i], rs[i], base + i, timestamp)
    {
      StampedCarries(rs, base, timestamp, i);
    }
    CarriesTotal(b.records, rs, base, timestamp);
    assert rs[..|rs|] == rs;
    PageOnWire(b.records);
  }

  /** An append, and a read from its first offset with any positive budget: the page begins with the first record sent,
      and has all of them exactly if they fit or there is only one. A budget of maxBatchBytes is always enough. */
  method AppendThenRead(store: Store, records: seq<Record>, timestamp: int64, io: AppendIO, budget: int)
    returns (r: AppendResult, page: seq<StoredRecord>)
    requires store.Valid() && Proper(io) && budget > 0
    requires store.logEndOffset + |records| <= MAX_UINT64 && timestamp > -0x8000_0000_0000_0000
    modifies store, store.activeSegment
    ensures store.Valid()
    ensures r.Acknowledged? ==>
              && page != [] && CarriesAll(page, records, r.base, timestamp)
              && (|page| == |records| <==> |records| == 1 || SentTotal(records) <= budget)
              && (store.lim.maxBatch <= budget ==> |page| == |records|)
  {
    hide S.ValidStore, S.Model, Snap, StampedBatch, Mirrored, LogAfter, LogSpec.AppendStep, LogRuns.LiveStep,
         AppendOutcome, Delivered, CarriesAll, Flatten, LongestRun, WithinBound, SentTotal, LogSpec.WellFormed;
    ghost var (s, before) := (store.State(), Flatten(store.Model().history));
    store.LogOf();
    EarliestFirst(store.Model());
    r := store.Append(records, timestamp, io);
    page := [];
    if r.Acknowledged? {
      AppendFlags(s, StampedBatch(records, s.logEnd, timestamp), io, store.sync, store.lim);
      var got := store.Read(r.base, budget);
      page := got.records;
      ghost var flat := Flatten(store.Model().history);
      DeliveredEnd(before, flat, records, timestamp);
      PageOfSent(flat[r.base..], records, r.base, timestamp, budget, page);
      SentWithin(records, r.base, timestamp);
    }
  }

  lemma EarliestFirst(l: LogSpec.Log)
    requires LogSpec.WellFormed(l)
    ensures LogSpec.Earliest(l) <= LogSpec.End(l) == |Flatten(l.history)|
  {
    hide Run, Pos, Off;
    Increasing(l.history, l.cut, |l.history|);
  }

  /** An acknowledged commit is what the group fetches next, whatever else goes on with the partition meanwhile. */
  method CommitThenFetch(broker: BrokerServer, group: seq<byte>, topic: seq<byte>, partition: uint32, next: uint64,
                         timestamp: uint64, io: CommitIO, between: seq<Op>, later: seq<Op>)
    returns (s: Status, t: Status, found: Option<uint64>)
    requires broker.offsets.Valid()
    requires var id := PartitionId(topic, partition);
             id in broker.partitions ==> Takes(broker.partitions[id], between + later)
    modifies broker.offsets, broker.Footprint(PartitionId(topic, partition))
    ensures broker.offsets.Valid()
    ensures s.Ok? ==> t.Ok? && found == Some(next)
  {
    hide ValidName, S.ValidStore, S.Model, Snap, ApplyAll, ApplyBoth, RunOf, Committing, Fold, Invariant;
    ghost var trail;
    s, trail := broker.CommitOffset(group, topic, partition, next, timestamp, io, between, later, {});
    t, found := broker.FetchCommittedOffset(group, topic, partition);
  }
}
