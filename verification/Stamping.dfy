/** From client records to the batch the store writes (internal/storage/store.go:196-221). */
module Stamping {
  import opened Bytes
  import opened Checksum
  import opened Format
  import opened FormatProofs
  import opened RoundTrip
  import opened Batches

  /** A record as a client sends it. The store ignores its timestamp. */
  datatype Record = Record(
    key: Option<seq<byte>>, value: Option<seq<byte>>, headers: Option<seq<Header>>, timestamp: int64)

  /** Consecutive offsets from the log end, one broker timestamp for all. */
  function Stamped(rs: seq<Record>, base: nat, timestamp: int64): (st: seq<StoredRecord>)
    requires base + |rs| <= MAX_UINT64
    ensures |st| == |rs|
  {
    seq(|rs|, i requires 0 <= i < |rs| => StoredRecord(base + i, timestamp, rs[i].key, rs[i].value, rs[i].headers))
  }

  /** The same headers in the same order; a value that is nil counts as empty. */
  ghost predicate SameHeaders(a: seq<Header>, b: seq<Header>) {
    |a| == |b| && forall i | 0 <= i < |a| :: a[i].key == b[i].key && Contents(a[i].value) == Contents(b[i].value)
  }

  /** The log has what the client sent, at this offset and under the broker's timestamp. */
  ghost predicate Carries(stored: StoredRecord, sent: Record, offset: nat, timestamp: int64) {
    && stored.offset == offset && stored.timestamp == timestamp
    && stored.key == sent.key && stored.value == sent.value
    && SameHeaders(Contents(stored.headers), Contents(sent.headers))
  }

  method Stamp(rs: seq<Record>, base: nat, timestamp: int64) returns (st: seq<StoredRecord>)
    requires base + |rs| <= MAX_UINT64
    ensures st == Stamped(rs, base, timestamp)
    ensures forall i | 0 <= i < |rs| :: Carries(st[i], rs[i], base + i, timestamp)
  {
    st := [];
    for i := 0 to |rs|
      invariant st == Stamped(rs, base, timestamp)[..i]
    {
      st := st + [StoredRecord(base + i, timestamp, rs[i].key, rs[i].value, rs[i].headers)];
    }
  }

  lemma {:induction false} SameTimestamp(st: seq<StoredRecord>, timestamp: int64)
    requires st != [] && forall r <- st :: r.timestamp == timestamp
    ensures MaxTimestamp(st) == if timestamp > 0 then timestamp else 0
    decreases |st|
  {
    if |st| > 1 {
      SameTimestamp(st[1..], timestamp);
    }
  }

  lemma {:induction false} NormalTimestamp(st: seq<StoredRecord>)
    ensures MaxTimestamp(Normal(st)) == MaxTimestamp(st)
    decreases |st|
  {
    hide NormalHeaders;
    if st != [] {
      NormalTimestamp(st[1..]);
      assert Normal(st)[1..] == Normal(st[1..]);
    }
  }

  lemma NormalTwice(st: seq<StoredRecord>)
    ensures Normal(Normal(st)) == Normal(st)
  {
    forall i | 0 <= i < |st|
      ensures NormalRecord(NormalRecord(st[i])) == NormalRecord(st[i])
    {
      var hs := Contents(st[i].headers);
      assert NormalHeaders(NormalHeaders(hs)) == NormalHeaders(hs);
    }
    hide NormalRecord;
  }

  /** Key and value are no longer than the records they are in. */
  lemma {:induction false} FieldsWithin(base: uint64, maxTs: int64, rs: seq<StoredRecord>, i: nat)
    requires i < |rs|
    ensures |Contents(rs[i].key)| + |Contents(rs[i].value)| + 24 <= |RecordsWire(base, maxTs, rs)|
    decreases |rs|
  {
    hide Put32, Put64, HeadersWire;
    if i > 0 {
      FieldsWithin(base, maxTs, rs[1..], i - 1);
    }
  }

  /** Stamped records whose encoding is under 2 GiB are encodable. */
  lemma StampedEncodable(rs: seq<Record>, base: nat, timestamp: int64)
    requires rs != [] && base + |rs| <= MAX_UINT64 && timestamp > -0x8000_0000_0000_0000
    requires |Encode(Stamped(rs, base, timestamp))| <= 0x8000_0000
    ensures Encodable(Stamped(rs, base, timestamp))
  {
    hide BatchWire, RecordsWire, MaxTimestamp, Body, RecordEncodable;
    var st := Stamped(rs, base, timestamp);
    var maxTs := MaxTimestamp(st);
    SameTimestamp(st, timestamp);
    NormalBatchWire(base, maxTs, st);
    RecordsAtLeast(base, maxTs, st);
    forall i | 0 <= i < |st|
      ensures RecordEncodable(base, maxTs, st[i])
    {
      FieldsWithin(base, maxTs, st, i);
      NearEncodable(base, maxTs, st[i], i);
    }
  }

  lemma NearEncodable(base: uint64, maxTs: int64, r: StoredRecord, i: nat)
    requires r.offset == base + i && i <= MAX_UINT32
    requires |Contents(r.key)| < 0x8000_0000 && |Contents(r.value)| < 0x8000_0000
    requires maxTs == (if r.timestamp > 0 then r.timestamp else 0) && r.timestamp > -0x8000_0000_0000_0000
    ensures RecordEncodable(base, maxTs, r)
  {
  }

  /** The batch the store writes: the encoding, with the records as reading will give them back. */
  ghost function StampedBatch(rs: seq<Record>, base: nat, timestamp: int64): Batch
    requires rs != [] && base + |rs| <= MAX_UINT64
  {
    var st := Stamped(rs, base, timestamp);
    EncodedSize(st);
    RawBatch(Normal(st), Encode(st))
  }

  lemma StampedValid(rs: seq<Record>, base: nat, timestamp: int64)
    requires rs != [] && base + |rs| <= MAX_UINT64 && timestamp > -0x8000_0000_0000_0000
    requires |StampedBatch(rs, base, timestamp).bytes| <= 0x8000_0000
    ensures ValidBatch(StampedBatch(rs, base, timestamp), base)
    ensures |StampedBatch(rs, base, timestamp).records| == |rs|
  {
    hide BatchWire, NormalRecord;
    var st := Stamped(rs, base, timestamp);
    StampedEncodable(rs, base, timestamp);
    NormalValid(st);
    NormalOffsets(st);
  }

  lemma NormalOffsets(st: seq<StoredRecord>)
    ensures forall i | 0 <= i < |st| :: Normal(st)[i].offset == st[i].offset
  {
  }

  lemma NormalValid(st: seq<StoredRecord>)
    requires st != [] && Encodable(st)
    ensures Encode(Normal(st)) == Encode(st) && Encodable(Normal(st)) && Normal(Normal(st)) == Normal(st)
  {
    hide BatchWire, BatchFits, Encodable, NormalRecord;
    var (base, maxTs) := (st[0].offset, MaxTimestamp(st));
    NormalOffsets(st);
    NormalTimestamp(st);
    NormalTwice(st);
    NormalBatchWire(base, maxTs, st);
    FitsExact(st);
    FitsExact(Normal(st));
  }

  /** The batch has the client's records, in order. */
  lemma StampedCarries(rs: seq<Record>, base: nat, timestamp: int64, i: nat)
    requires i < |rs| && base + |rs| <= MAX_UINT64
    ensures var b := StampedBatch(rs, base, timestamp);
            |b.records| == |rs| && Carries(b.records[i], rs[i], base + i, timestamp)
  {
    hide Encode;
  }

  /** The log is as before, and then has the client's records, in order. */
  ghost predicate Delivered(before: seq<StoredRecord>, flat: seq<StoredRecord>, rs: seq<Record>, timestamp: int64) {
    && before <= flat && |flat| == |before| + |rs|
    && forall i | 0 <= i < |rs| :: Carries(flat[|before| + i], rs[i], |before| + i, timestamp)
  }

  lemma AppendDelivers(history: seq<Batch>, rs: seq<Record>, base: nat, timestamp: int64)
    requires rs != [] && Count(history) == base && base + |rs| <= MAX_UINT64
    ensures var (before, flat) := (Flatten(history), Flatten(history + [StampedBatch(rs, base, timestamp)]));
            |before| == base && Delivered(before, flat, rs, timestamp)
  {
    hide StampedBatch, Carries, Off;
    var b := StampedBatch(rs, base, timestamp);
    StampedCarries(rs, base, timestamp, 0);
    assert (history + [b])[..|history|] == history;
    var flat := Flatten(history + [b]);
    assert flat == Flatten(history) + b.records;
    forall i | 0 <= i < |rs|
      ensures Carries(flat[base + i], rs[i], base + i, timestamp)
    {
      StampedCarries(rs, base, timestamp, i);
    }
  }

  /** Its timestamp, as the segment keeps it: the running maximum starts at 0. */
  lemma StampedTimestamp(rs: seq<Record>, base: nat, timestamp: int64)
    requires rs != [] && base + |rs| <= MAX_UINT64
    ensures MaxTimestamp(StampedBatch(rs, base, timestamp).records) == if timestamp > 0 then timestamp else 0
  {
    hide NormalRecord, Encode;
    var st := Stamped(rs, base, timestamp);
    NormalTimestamp(st);
    SameTimestamp(st, timestamp);
  }

  /** The smallest record: no key, value or headers. */
  const BARE := Record(None, None, None, 0)

  lemma BareSize(base: nat)
    requires base < MAX_UINT64
    ensures |StampedBatch([BARE], base, 0).bytes| == 57
  {
    hide Put32, Put64, Crc32, ToUint32, ToUint64, Normal;
    var st := Stamped([BARE], base, 0);
    assert |RecordWire(base, MaxTimestamp(st), st[0])| == 24;
    assert st[1..] == [];
    assert RecordsWire(base, MaxTimestamp(st), st) == RecordWire(base, MaxTimestamp(st), st[0]) + [];
    assert |Encode(st)| == 57;
  }
}
