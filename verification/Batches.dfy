/** The contents of a log file: encoded batches, one after another, with consecutive offsets. */
module Batches {
  import opened Bytes
  import opened Checksum
  import opened Format
  import opened FormatProofs
  import opened RoundTrip

  /** A batch in a file: its records and its bytes, at least a header and one record long. */
  datatype RawBatch = RawBatch(records: seq<StoredRecord>, bytes: seq<byte>)

  type Batch = b: RawBatch | b.records != [] && |b.bytes| >= BATCH_HEADER_SIZE + MINIMUM_RECORD_SIZE
    witness RawBatch([StoredRecord(0, 0, None, None, None)], seq(57, _ => 0))

  /** A batch as the store writes it: the encoding of records that are encodable, in the form
      decoding gives back, with offsets from `start` on. */
  ghost predicate ValidBatch(b: Batch, start: nat) {
    && b.bytes == Encode(b.records)
    && Encodable(b.records) && Normal(b.records) == b.records
    && forall j | 0 <= j < |b.records| :: b.records[j].offset == start + j
  }

  /** Byte position of batch `k`, with the bytes before it; and the number of records before it. */
  function LogPrefix(bs: seq<Batch>, k: nat): seq<byte>
    requires k <= |bs|
  {
    if k == 0 then [] else LogPrefix(bs, k - 1) + bs[k - 1].bytes
  }

  function Pos(bs: seq<Batch>, k: nat): nat
    requires k <= |bs|
  {
    if k == 0 then 0 else Pos(bs, k - 1) + |bs[k - 1].bytes|
  }

  function Off(bs: seq<Batch>, k: nat): nat
    requires k <= |bs|
  {
    if k == 0 then 0 else Off(bs, k - 1) + |bs[k - 1].records|
  }

  function LogBytes(bs: seq<Batch>): seq<byte> { LogPrefix(bs, |bs|) }

  function Size(bs: seq<Batch>): nat { Pos(bs, |bs|) }

  function Count(bs: seq<Batch>): nat { Off(bs, |bs|) }

  function Flatten(bs: seq<Batch>): (rs: seq<StoredRecord>)
    ensures |rs| == Count(bs)
  {
    if bs == [] then [] else
      Agree(bs, bs[..|bs| - 1], |bs| - 1);
      Flatten(bs[..|bs| - 1]) + bs[|bs| - 1].records
  }

  /** Batches written one after another from offset `base` on. */
  ghost predicate Run(bs: seq<Batch>, base: nat) {
    forall k | 0 <= k < |bs| :: ValidBatch(bs[k], base + Off(bs, k))
  }

  lemma RunAt(bs: seq<Batch>, base: nat, k: nat)
    requires Run(bs, base) && k < |bs|
    ensures ValidBatch(bs[k], base + Off(bs, k))
  {
    hide ValidBatch;
  }

  /** Positions depend only on the batches before. */
  lemma {:induction false} Agree(bs: seq<Batch>, cs: seq<Batch>, k: nat)
    requires k <= |bs| && k <= |cs| && forall i | 0 <= i < k :: bs[i] == cs[i]
    ensures Pos(bs, k) == Pos(cs, k) && Off(bs, k) == Off(cs, k) && LogPrefix(bs, k) == LogPrefix(cs, k)
  {
    if k > 0 {
      Agree(bs, cs, k - 1);
    }
  }

  lemma AgreeAll(bs: seq<Batch>, cs: seq<Batch>)
    requires bs <= cs
    ensures forall k | 0 <= k <= |bs| ::
              Pos(bs, k) == Pos(cs, k) && Off(bs, k) == Off(cs, k) && LogPrefix(bs, k) == LogPrefix(cs, k)
  {
    forall k | 0 <= k <= |bs|
      ensures Pos(bs, k) == Pos(cs, k) && Off(bs, k) == Off(cs, k) && LogPrefix(bs, k) == LogPrefix(cs, k)
    {
      Agree(bs, cs, k);
    }
  }

  lemma {:induction false} PrefixLength(bs: seq<Batch>, k: nat)
    requires k <= |bs|
    ensures |LogPrefix(bs, k)| == Pos(bs, k)
  {
    if k > 0 {
      PrefixLength(bs, k - 1);
    }
  }

  lemma Next(bs: seq<Batch>, k: nat)
    requires k < |bs|
    ensures Pos(bs, k + 1) == Pos(bs, k) + |bs[k].bytes| && Off(bs, k + 1) == Off(bs, k) + |bs[k].records|
  {
  }

  lemma LogLength(bs: seq<Batch>)
    ensures |LogBytes(bs)| == Size(bs)
  {
    PrefixLength(bs, |bs|);
  }

  /** Later batches start later, in the file and in the offsets. */
  lemma {:induction false} Increasing(bs: seq<Batch>, j: nat, k: nat)
    requires j <= k <= |bs|
    ensures Pos(bs, j) + 57 * (k - j) <= Pos(bs, k) && Off(bs, j) + (k - j) <= Off(bs, k)
    ensures LogPrefix(bs, j) <= LogPrefix(bs, k)
    decreases k - j
  {
    if j < k {
      Increasing(bs, j, k - 1);
    }
  }

  lemma {:induction false} Same(bs: seq<Batch>, j: nat, k: nat)
    requires j <= |bs| && k <= |bs|
    ensures Pos(bs, j) == Pos(bs, k) <==> j == k
    ensures Off(bs, j) == Off(bs, k) <==> j == k
    ensures Pos(bs, j) < Pos(bs, k) <==> j < k
    ensures Off(bs, j) < Off(bs, k) <==> j < k
  {
    if j <= k {
      Increasing(bs, j, k);
    } else {
      Increasing(bs, k, j);
    }
  }

  /** The bytes at the position of batch `k` are its encoding. */
  lemma BatchAt(bs: seq<Batch>, k: nat)
    requires k < |bs|
    ensures Pos(bs, k) <= Pos(bs, k + 1) <= |LogBytes(bs)| == Size(bs)
    ensures LogBytes(bs)[Pos(bs, k)..Pos(bs, k + 1)] == bs[k].bytes
  {
    Increasing(bs, k + 1, |bs|);
    PrefixLength(bs, k);
    PrefixLength(bs, k + 1);
    PrefixLength(bs, |bs|);
    var (p, q) := (LogPrefix(bs, k), LogPrefix(bs, k + 1));
    assert LogBytes(bs)[..|q|] == q;
    assert LogBytes(bs)[|p|..|q|] == q[|p|..];
  }

  /** A log file cut anywhere: at the position of batch `k` it holds the batch, or a proper beginning of it. */
  lemma BatchAtCut(bs: seq<Batch>, bytes: seq<byte>, k: nat)
    requires k < |bs| && bytes <= LogBytes(bs) && Pos(bs, k) <= |bytes|
    ensures Pos(bs, k + 1) <= |bytes| ==> bytes[Pos(bs, k)..Pos(bs, k + 1)] == bs[k].bytes
    ensures |bytes| < Pos(bs, k + 1) ==> bytes[Pos(bs, k)..] == bs[k].bytes[..|bytes| - Pos(bs, k)]
  {
    BatchAt(bs, k);
    hide LogBytes;
    var (p, q) := (Pos(bs, k), Pos(bs, k + 1));
    if q <= |bytes| {
      assert bytes[p..q] == LogBytes(bs)[p..q];
    } else {
      assert bytes[p..] == LogBytes(bs)[p..q][..|bytes| - p];
    }
  }

  /** Record `j` of batch `k` sits at its place in the flat list. */
  lemma {:induction false} RecordAt(bs: seq<Batch>, k: nat, j: nat)
    requires k < |bs| && j < |bs[k].records|
    ensures Off(bs, k) + j < |Flatten(bs)| && Flatten(bs)[Off(bs, k) + j] == bs[k].records[j]
    decreases |bs|
  {
    hide Pos, LogPrefix;
    var front := bs[..|bs| - 1];
    Agree(bs, front, |front|);
    if k < |front| {
      Agree(bs, front, k);
      RecordAt(front, k, j);
    }
  }

  /** The number of whole batches in the first `length` bytes. */
  function WholeBatches(bs: seq<Batch>, n: nat, length: nat): (w: nat)
    requires n <= |bs|
    ensures w <= n && Pos(bs, w) <= length && (w < n ==> length < Pos(bs, w + 1))
  {
    if n == 0 || Pos(bs, n) <= length then n else WholeBatches(bs, n - 1, length)
  }

  lemma WholeBatchesExact(bs: seq<Batch>, length: nat, k: nat)
    requires k <= |bs| && Pos(bs, k) <= length && (k < |bs| ==> length < Pos(bs, k + 1))
    ensures WholeBatches(bs, |bs|, length) == k
  {
    var w := WholeBatches(bs, |bs|, length);
    if w < k {
      Increasing(bs, w + 1, k);
    } else if k < w {
      Increasing(bs, k + 1, w);
    }
  }

  lemma WholeBatchesAtLeast(bs: seq<Batch>, length: nat, k: nat)
    requires k <= |bs| && Pos(bs, k) <= length
    ensures k <= WholeBatches(bs, |bs|, length)
  {
    hide Pos;
    var w := WholeBatches(bs, |bs|, length);
    if w < k {
      Increasing(bs, w + 1, k);
    }
  }

  /** Encoding encodable records gives a batch. */
  lemma EncodedSize(rs: seq<StoredRecord>)
    requires rs != []
    ensures |Encode(rs)| >= BATCH_HEADER_SIZE + MINIMUM_RECORD_SIZE
  {
    hide Put32, Put64, Crc32, RecordsWire;
    RecordsAtLeast(rs[0].offset, MaxTimestamp(rs), rs);
    var body := Body(rs[0].offset, MaxTimestamp(rs), rs);
    FrameLength(body, Crc32(body));
  }

  /** What the header of a written batch says, and that the whole batch decodes to itself. */
  lemma BatchReads(b: Batch, start: nat, data: seq<byte>)
    requires ValidBatch(b, start) && b.bytes <= data
    ensures |data| >= BATCH_HEADER_SIZE && data[..4] == MAGIC && data[4] == VERSION
    ensures 9 + HeaderLength(data) == |b.bytes|
    ensures HeaderBase(data) == start && HeaderTimestamp(data) == MaxTimestamp(b.records)
    ensures Decode(data) == Records(b.records)
  {
    hide BatchWire, BatchFits, HeaderBase, HeaderTimestamp, HeaderLength, Encodable, NormalRecord;
    var (base, maxTs) := (b.records[0].offset, MaxTimestamp(b.records));
    FitsExact(b.records);
    DecodeComplete(data, base, maxTs, b.records);
  }

  /** The first nine bytes of a written batch are enough to know its size. */
  lemma PrefixReads(b: Batch, start: nat, data: seq<byte>)
    requires ValidBatch(b, start) && |data| >= 9 && data[..9] <= b.bytes
    ensures data[..4] == MAGIC && data[4] == VERSION
    ensures 9 + HeaderLength(data) == |b.bytes|
  {
    hide ValidBatch, Decode, Get32, HeaderBase, HeaderTimestamp;
    BatchReads(b, start, b.bytes);
    assert data[..9][..4] == data[..4] == b.bytes[..4];
    assert data[..9][5..9] == data[5..9] == b.bytes[5..9];
  }
}
