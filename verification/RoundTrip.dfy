/** When decoding undoes encoding, and when encoding undoes decoding. */
module RoundTrip {
  import opened Bytes
  import opened Checksum
  import opened Format
  import opened FormatProofs

  /** Decoding gives headers back with non-nil values, and no headers as nil. */
  function NormalHeaders(hs: seq<Header>): (n: seq<Header>)
    ensures |n| == |hs|
  {
    seq(|hs|, i requires 0 <= i < |hs| => Header(hs[i].key, Some(Contents(hs[i].value))))
  }

  function NormalRecord(r: StoredRecord): StoredRecord {
    r.(headers := if Contents(r.headers) == [] then None else Some(NormalHeaders(r.headers.value)))
  }

  function Normal(rs: seq<StoredRecord>): (n: seq<StoredRecord>)
    ensures |n| == |rs|
  {
    seq(|rs|, i requires 0 <= i < |rs| => NormalRecord(rs[i]))
  }

  /** The batches that survive encoding: the size fits the length field, offsets and timestamps
      are near enough to the first offset and the largest timestamp, keys and values have int32 lengths. */
  predicate Encodable(rs: seq<StoredRecord>)
    requires rs != []
  {
    && |Encode(rs)| - 9 <= MAX_UINT32
    && forall r <- rs :: RecordEncodable(rs[0].offset, MaxTimestamp(rs), r)
  }

  predicate RecordEncodable(base: uint64, maxTs: int64, r: StoredRecord) {
    && ToUint64(r.offset - base) <= MAX_UINT32
    && maxTs - r.timestamp <= MAX_INT64
    && FieldFits(r.key) && FieldFits(r.value)
  }

  lemma {:induction false} NormalHeadersWire(hs: seq<Header>)
    ensures HeadersWire(NormalHeaders(hs)) == HeadersWire(hs)
    decreases |hs|
  {
    hide Put32;
    if hs != [] {
      NormalHeadersWire(hs[1..]);
      assert NormalHeaders(hs)[1..] == NormalHeaders(hs[1..]);
    }
  }

  lemma {:induction false} NormalWire(base: uint64, maxTs: int64, rs: seq<StoredRecord>)
    ensures RecordsWire(base, maxTs, Normal(rs)) == RecordsWire(base, maxTs, rs)
    decreases |rs|
  {
    hide Put32, Put64, FieldWire, HeadersWire, NormalHeaders;
    if rs != [] {
      var (r, n) := (rs[0], NormalRecord(rs[0]));
      if Contents(r.headers) != [] {
        NormalHeadersWire(r.headers.value);
      }
      assert HeaderListWire(n.headers) == HeaderListWire(r.headers);
      assert RecordWire(base, maxTs, n) == RecordWire(base, maxTs, r);
      NormalWire(base, maxTs, rs[1..]);
      assert Normal(rs)[1..] == Normal(rs[1..]);
    }
  }

  /** A header is no longer than the list it is in. */
  lemma {:induction false} HeaderWithin(hs: seq<Header>, i: nat)
    requires i < |hs|
    ensures |hs[i].key| + |Contents(hs[i].value)| + 8 <= |HeadersWire(hs)|
    decreases |hs|
  {
    hide Put32;
    if i > 0 {
      HeaderWithin(hs[1..], i - 1);
    }
  }

  /** A header list is no longer than the records it is in. */
  lemma {:induction false} HeadersWithin(base: uint64, maxTs: int64, rs: seq<StoredRecord>, i: nat)
    requires i < |rs|
    ensures |HeadersWire(Contents(rs[i].headers))| <= |RecordsWire(base, maxTs, rs)|
    decreases |rs|
  {
    hide Put32, Put64, FieldWire, HeadersWire;
    if i > 0 {
      HeadersWithin(base, maxTs, rs[1..], i - 1);
    }
  }

  lemma NormalHeadersFit(r: StoredRecord)
    requires |HeadersWire(Contents(r.headers))| <= MAX_UINT32
    ensures HeadersFit(NormalRecord(r).headers)
  {
    hide HeadersWire;
    var list := Contents(r.headers);
    HeadersAtLeast(list);
    forall i | 0 <= i < |list|
      ensures HeaderFits(NormalHeaders(list)[i])
    {
      HeaderWithin(list, i);
    }
  }

  lemma RecordFitsExact(base: uint64, maxTs: int64, r: StoredRecord)
    requires |HeadersWire(Contents(r.headers))| <= MAX_UINT32 && r.timestamp <= maxTs
    ensures RecordFits(base, maxTs, NormalRecord(r)) <==> RecordEncodable(base, maxTs, r)
  {
    hide HeadersFit, HeadersWire, FieldFits, ToUint64;
    NormalHeadersFit(r);
  }

  lemma NormalBatchWire(base: uint64, maxTs: int64, rs: seq<StoredRecord>)
    ensures BatchWire(base, maxTs, Normal(rs)) == BatchWire(base, maxTs, rs)
    ensures |Body(base, maxTs, Normal(rs))| == |BatchWire(base, maxTs, rs)| - 13 >= |RecordsWire(base, maxTs, rs)|
  {
    hide Put32, Put64, Crc32, RecordsWire, Normal, Frame;
    NormalWire(base, maxTs, rs);
    var body := Body(base, maxTs, rs);
    FrameLength(body, Crc32(body));
  }

  /** What the format can carry is what is encodable, seen after normalisation. */
  lemma FitsExact(rs: seq<StoredRecord>)
    requires rs != []
    ensures BatchFits(rs[0].offset, MaxTimestamp(rs), Normal(rs)) <==> Encodable(rs)
  {
    hide BatchWire, Body, RecordsWire, NormalRecord, RecordFits, RecordEncodable;
    var (base, maxTs, n) := (rs[0].offset, MaxTimestamp(rs), Normal(rs));
    NormalBatchWire(base, maxTs, rs);
    if |Encode(rs)| - 9 <= MAX_UINT32 {
      forall i | 0 <= i < |rs|
        ensures RecordFits(base, maxTs, n[i]) <==> RecordEncodable(base, maxTs, rs[i])
      {
        HeadersWithin(base, maxTs, rs, i);
        RecordFitsExact(base, maxTs, rs[i]);
      }
      assert forall i | 0 <= i < |rs| :: rs[i] in rs && n[i] in n;
    }
  }

  /** The header fields of data that begins with a batch, whether or not its length fits. */
  lemma HeaderOf(data: seq<byte>, base: uint64, maxTs: int64, rs: seq<StoredRecord>)
    requires BatchWire(base, maxTs, rs) <= data
    ensures |data| >= BATCH_HEADER_SIZE
    ensures HeaderBase(data) == base && HeaderTimestamp(data) == maxTs
  {
    hide Put32, Get32, Put64, Get64, Crc32, RecordsWire, Frame, Spells, HeaderBase, HeaderTimestamp, HeaderLength;
    var body := Body(base, maxTs, rs);
    var total := |BatchWire(base, maxTs, rs)|;
    assert total == 13 + |body| by { FrameLength(body, Crc32(body)); }
    SpellsBytes(data, 0, total, Frame(body, Crc32(body)));
    FrameExact(data, total, body, Crc32(body));
    BodyExact(data, total, base, maxTs, rs);
  }

  lemma FrameLength(body: seq<byte>, checksum: uint32)
    ensures |Frame(body, checksum)| == 13 + |body|
  {
    hide Put32;
  }

  /** Decoding undoes encoding, up to normal form, exactly for the encodable batches. */
  lemma DecodeEncode(rs: seq<StoredRecord>)
    requires rs != []
    ensures Decode(Encode(rs)) == Records(Normal(rs)) <==> Encodable(rs)
  {
    hide BatchFits, BatchWire, Encodable, Decode, HeaderBase, HeaderTimestamp, NormalRecord;
    var (base, maxTs) := (rs[0].offset, MaxTimestamp(rs));
    FitsExact(rs);
    NormalBatchWire(base, maxTs, rs);
    if Encodable(rs) {
      DecodeComplete(Encode(rs), base, maxTs, Normal(rs));
    }
    if Decode(Encode(rs)) == Records(Normal(rs)) {
      DecodeSound(Encode(rs));
      HeaderOf(Encode(rs), base, maxTs, rs);
    }
  }

  /** It does fail: two records whose offsets are 2^32 apart are encoded, but not read back. */
  lemma FarApart() returns (rs: seq<StoredRecord>)
    ensures rs == [StoredRecord(0, 0, None, None, None), StoredRecord(0x1_0000_0000, 0, None, None, None)]
    ensures Decode(Encode(rs)) != Records(Normal(rs))
  {
    hide Decode, Encode, MaxTimestamp;
    rs := [StoredRecord(0, 0, None, None, None), StoredRecord(0x1_0000_0000, 0, None, None, None)];
    assert rs[1] in rs && !RecordEncodable(0, MaxTimestamp(rs), rs[1]);
    DecodeEncode(rs);
  }

  /** Encoding undoes decoding exactly for the batches whose header says what an encoder would
      have written: the first record's own offset, and the largest timestamp but at least 0. */
  lemma EncodeDecode(data: seq<byte>)
    requires var d := Decode(data); d.Records? && d.records != []
    ensures
      var rs := Decode(data).records;
      && |Encode(rs)| == 9 + HeaderLength(data) && Encode(rs) == data[..9 + HeaderLength(data)]
      <==>
      HeaderBase(data) == rs[0].offset && HeaderTimestamp(data) == MaxTimestamp(rs)
  {
    hide BatchFits, BatchWire, Decode, HeaderBase, HeaderTimestamp, HeaderLength;
    var rs := Decode(data).records;
    DecodeSound(data);
    if Encode(rs) <= data {
      HeaderOf(data, rs[0].offset, MaxTimestamp(rs), rs);
    }
  }

  /** So two encoder-made batches that decode alike are the same bytes. */
  lemma CanonicalUnique(d1: seq<byte>, d2: seq<byte>)
    requires Decode(d1).Records? && Decode(d1) == Decode(d2) && Decode(d1).records != []
    requires forall d <- [d1, d2] ::
               HeaderBase(d) == Decode(d).records[0].offset && HeaderTimestamp(d) == MaxTimestamp(Decode(d).records)
    ensures HeaderLength(d1) == HeaderLength(d2) && d1[..9 + HeaderLength(d1)] == d2[..9 + HeaderLength(d2)]
  {
    assert d1 in [d1, d2] && d2 in [d1, d2];
    EncodeDecode(d1);
    EncodeDecode(d2);
  }
}
