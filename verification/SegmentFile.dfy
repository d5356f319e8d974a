/** A segment: a log file, its index file, and what the store keeps in memory about them
    (internal/storage/segment.go). */
module SegmentFile {
  import opened Bytes
  import opened Files
  import opened Format
  import opened Batches
  import opened Recovery
  import opened Index
  import opened IndexRecovery

  /** The configuration of a store, as internal/config admits it; batches stay below 2 GiB. */
  datatype AnyLimits = AnyLimits(segmentMax: nat, maxBatch: nat, interval: nat)

  type Limits = l: AnyLimits | l.maxBatch <= l.segmentMax <= MAX_INT64 && l.maxBatch <= 0x8000_0000 && 0 < l.interval
    witness AnyLimits(1, 1, 1)

  /** The fields of a segment (`dirty`: the index has changed since it was synced), the batches its log holds,
      and whether its index is known to be the greedy one: it is, unless it was read back from a file. */
  datatype SegState = SegState(
    base: nat, next: nat, size: nat, log: File, index: File,
    entries: seq<IndexEntry>, lastIndexed: int, indexSize: nat, dirty: bool, latest: int64,
    batches: seq<Batch>, exact: bool)

  function LastPosition(es: seq<IndexEntry>): int {
    if es == [] then -1 else es[|es| - 1].position
  }

  /** Batches that fit one segment: consecutive, none too large, all indexable. */
  ghost predicate Fitting(bs: seq<Batch>, base: nat, lim: Limits) {
    && Run(bs, base) && Indexable(bs) && Size(bs) <= lim.segmentMax
    && forall b <- bs :: |b.bytes| <= lim.maxBatch
  }

  /** Whole entries of an index file, each on a batch start. */
  ghost predicate EntriesOn(bytes: seq<byte>, bs: seq<Batch>) {
    forall i | 0 <= i < |bytes| / 12 :: OnBatch(EntryOf(bytes, i), bs)
  }

  /** What holds of every segment between operations. The log may have part of a further batch
      after the `size` bytes in use; the index file may have part of an entry after `indexSize`. */
  ghost predicate ValidSeg(s: SegState, lim: Limits) {
    && Fitting(s.batches, s.base, lim)
    && s.next == s.base + Count(s.batches) && s.size == Size(s.batches)
    && LogBytes(s.batches) <= s.log.bytes && s.log.synced <= |s.log.bytes|
    && Sound(s.entries, s.batches) && s.lastIndexed == LastPosition(s.entries)
    && s.latest == Latest(s.batches)
    && s.indexSize % 12 == 0 && s.indexSize <= |s.index.bytes| < s.indexSize + 12
    && s.index.synced <= |s.index.bytes|
    && EntriesOn(s.index.bytes, s.batches)
    && (s.exact ==> GreedyEntries(s.entries, s.batches, lim.interval))
  }

  ghost predicate GreedyEntries(es: seq<IndexEntry>, bs: seq<Batch>, interval: nat) {
    Indexable(bs) && es == Greedy(bs, |bs|, interval)
  }

  /** The index file holds exactly the index in memory. */
  ghost predicate IndexWhole(s: SegState) { s.index.bytes == IndexBytes(s.entries) }

  /** The newest timestamp of a segment is that of its records. */
  lemma NewestRecord(s: SegState, lim: Limits)
    requires ValidSeg(s, lim)
    ensures Newest(Flatten(s.batches), s.latest)
  {
    hide Fitting, Sound, EntriesOn, GreedyEntries, Latest, Flatten, LogBytes, Newest;
    LatestNewest(s.batches);
  }

  /** The number of batches known to be on stable storage. */
  ghost function Durable(s: SegState): nat {
    WholeBatches(s.batches, |s.batches|, s.log.synced)
  }

  /** The log and index files of a segment after a crash: the log is the written log cut somewhere
      (nowhere, unless the segment was the last), the index has only entries the store wrote. */
  ghost predicate CutFiles(log: seq<byte>, index: seq<byte>, all: seq<Batch>, base: nat, lim: Limits, last: bool) {
    && Fitting(all, base, lim)
    && log <= LogBytes(all) && (last || |log| == Size(all))
    && EntriesOn(index, all)
  }

  /** The log is a written one cut off inside a batch. */
  ghost predicate EndsInside(log: seq<byte>, all: seq<Batch>, base: nat, lim: Limits) {
    Fitting(all, base, lim) && log <= LogBytes(all) && exists k :: CutInside(all, k, |log|)
  }

  ghost predicate CutInside(all: seq<Batch>, k: nat, length: nat) {
    k < |all| && Pos(all, k) < length < Pos(all, k + 1)
  }

  lemma InsideRefused(log: seq<byte>, all: seq<Batch>, base: nat, lim: Limits)
    ensures EndsInside(log, all, base, lim) ==> Scan(log, 0, base, false, lim.maxBatch).Broken?
  {
    hide Scan, Run, Pos, LogBytes;
    if EndsInside(log, all, base, lim) {
      var k: nat :| CutInside(all, k, |log|);
      ClosedTorn(all, log, k, base, lim.maxBatch);
    }
  }

  /** The index recovery ends with: the file's, if it is in order and matches the log, or else the greedy one. */
  ghost predicate RecoveredIndex(es: seq<IndexEntry>, index: seq<byte>, log: seq<byte>, bs: seq<Batch>, base: nat,
                                 interval: nat)
    requires Size(bs) <= |log| && Indexable(bs)
  {
    es == if Readable(index) && IndexMatches(log, Entries(index), Size(bs), base) then Entries(index)
          else Greedy(bs, |bs|, interval)
  }

  lemma {:induction false} EntriesOfIndex(es: seq<IndexEntry>)
    ensures Entries(IndexBytes(es)) == es
  {
    hide EntryOf, IndexBytes;
    forall i | 0 <= i < |es|
      ensures EntryOf(IndexBytes(es), i) == es[i]
    {
      EntriesOfPrefix(es, IndexBytes(es), i);
    }
  }

  lemma EntriesOnSound(es: seq<IndexEntry>, bs: seq<Batch>)
    requires Sound(es, bs)
    ensures EntriesOn(IndexBytes(es), bs)
  {
    hide EntryOf, IndexBytes, OnBatch;
    EntriesOfIndex(es);
    forall i | 0 <= i < |es|
      ensures OnBatch(EntryOf(IndexBytes(es), i), bs)
    {
      EntriesAt(IndexBytes(es), i);
    }
  }

  /** The first batches of a fitting log fit. */
  lemma FittingPrefix(all: seq<Batch>, n: nat, base: nat, lim: Limits)
    requires Fitting(all, base, lim) && n <= |all|
    ensures Fitting(all[..n], base, lim) && Size(all[..n]) == Pos(all, n) && LogBytes(all[..n]) == LogPrefix(all, n)
  {
    hide ValidBatch, Pos, Off, LogPrefix;
    AgreeAll(all[..n], all);
    Increasing(all, n, |all|);
  }

  lemma {:induction false} IndexOfEntries(bytes: seq<byte>, es: seq<IndexEntry>)
    requires |bytes| == 12 * |es| && forall i | 0 <= i < |es| :: EntryOf(bytes, i) == es[i]
    ensures IndexBytes(es) == bytes
    decreases |es|
  {
    hide EntryOf, EntryBytes;
    if es != [] {
      var n := |es| - 1;
      var (front, last) := (bytes[..12 * n], bytes[12 * n..]);
      assert bytes == front + last;
      forall i | 0 <= i < n
        ensures EntryOf(front, i) == es[..n][i]
      {
        EntryOfBytes(bytes, i, es[i]);
        assert front[12 * i..12 * i + 12] == bytes[12 * i..12 * i + 12];
        EntryOfBytes(front, i, es[i]);
      }
      IndexOfEntries(front, es[..n]);
      EntryOfBytes(bytes, n, es[n]);
    }
  }

  /** A written log, cut to its first `n` batches, with a sound index: everything a valid segment needs. */
  lemma CutValid(log: seq<byte>, index: seq<byte>, all: seq<Batch>, base: nat, lim: Limits, last: bool, n: nat,
                 s: SegState)
    requires CutFiles(log, index, all, base, lim, last) && n <= |all| && Pos(all, n) <= |log|
    requires s.base == base && s.batches == all[..n] && s.next == base + Off(all, n) && s.size == Pos(all, n)
    requires s.log.bytes == log[..Pos(all, n)] && s.log.synced <= |s.log.bytes|
    requires Sound(s.entries, all[..n]) && s.lastIndexed == LastPosition(s.entries) && s.latest == Latest(all[..n])
    requires s.index.bytes == IndexBytes(s.entries) && s.indexSize == |s.index.bytes|
             && s.index.synced <= |s.index.bytes|
    requires s.exact ==> GreedyEntries(s.entries, all[..n], lim.interval)
    ensures ValidSeg(s, lim)
  {
    hide ValidBatch, Pos, Off, LogPrefix, IndexBytes, Sound, Latest, Fitting, EntriesOn, GreedyEntries;
    FittingPrefix(all, n, base, lim);
    Agree(all, all[..n], n);
    Increasing(all, n, |all|);
    PrefixLength(all, n);
    EntriesOnSound(s.entries, all[..n]);
  }

  /** A written log, cut, scans to its whole batches. */
  lemma CutScan(log: seq<byte>, index: seq<byte>, all: seq<Batch>, base: nat, lim: Limits, last: bool, n: nat)
    requires CutFiles(log, index, all, base, lim, last) && n == WholeBatches(all, |all|, |log|)
    ensures Scan(log, 0, base, last, lim.maxBatch) == Intact(all[..n], Pos(all, n))
    ensures Written(all[..n], base, log[..Pos(all, n)]) && Size(all[..n]) == Pos(all, n)
            && Count(all[..n]) == Off(all, n)
  {
    hide ValidBatch, Run, Pos, Off, LogBytes, LogPrefix, EntriesOn, WholeBatches, Indexable, Scan;
    LogLength(all);
    PosZero(all);
    if !last {
      WholeBatchesExact(all, |log|, |all|);
    }
    Increasing(all, 0, n);
    ScanCut(all, log, 0, n, base, last, lim.maxBatch);
    assert all[0..n] == all[..n];
    FittingPrefix(all, n, base, lim);
    Agree(all, all[..n], n);
    CutPrefix(all, n, log);
  }

  lemma CutPrefix(all: seq<Batch>, n: nat, log: seq<byte>)
    requires n <= |all| && log <= LogBytes(all) && Pos(all, n) <= |log|
    ensures log[..Pos(all, n)] == LogPrefix(all, n)
  {
    Increasing(all, n, |all|);
    PrefixLength(all, n);
    PrefixLength(all, |all|);
    hide Pos, LogPrefix;
  }

  /** The index recovery ends with is sound. */
  lemma RecoveredSound(log: seq<byte>, index: seq<byte>, all: seq<Batch>, base: nat, n: nat, interval: nat,
                       es: seq<IndexEntry>)
    requires n <= |all| && Pos(all, n) <= |log| && EntriesOn(index, all)
    requires Indexable(all[..n]) && Size(all[..n]) == Pos(all, n)
    requires RecoveredIndex(es, index, log, all[..n], base, interval)
    ensures Sound(es, all[..n])
  {
    hide Pos, Off, OnBatch, IndexMatches, Greedy, Sound, Indexable, Ordered;
    var bs := all[..n];
    if Readable(index) && IndexMatches(log, Entries(index), Size(bs), base) {
      forall i | 0 <= i < |es|
        ensures OnBatch(es[i], all)
      {
        EntriesAt(index, i);
      }
      MatchesSound(log, es, all, n, base);
    } else {
      assert bs[..|bs|] == bs;
      GreedySound(bs, |bs|, interval);
    }
  }

  lemma CutEntries(log: seq<byte>, index: seq<byte>, all: seq<Batch>, base: nat, lim: Limits, last: bool)
    requires CutFiles(log, index, all, base, lim, last)
    ensures EntriesOn(index, all)
  {
  }

  lemma RecoveryValid(log: seq<byte>, index: seq<byte>, all: seq<Batch>, base: nat, lim: Limits, last: bool, n: nat,
                      s: SegState)
    requires CutFiles(log, index, all, base, lim, last) && n <= |all| && Pos(all, n) <= |log|
    requires s.base == base && s.batches == all[..n] && s.next == base + Off(all, n) && s.size == Pos(all, n)
    requires s.log.bytes == log[..Pos(all, n)] && s.log.synced <= |s.log.bytes|
    requires Indexable(all[..n]) && Size(all[..n]) == Pos(all, n) && s.latest == Latest(all[..n])
    requires RecoveredIndex(s.entries, index, s.log.bytes, all[..n], base, lim.interval)
    requires s.lastIndexed == LastPosition(s.entries) && s.index.bytes == IndexBytes(s.entries)
    requires s.indexSize == |s.index.bytes| && s.index.synced <= |s.index.bytes|
    requires s.exact ==> GreedyEntries(s.entries, all[..n], lim.interval)
    ensures ValidSeg(s, lim)
  {
    hide CutFiles, ValidSeg, RecoveredIndex, Pos, Off, IndexBytes, Sound, Latest, EntriesOn, GreedyEntries, Indexable,
         LastPosition;
    CutEntries(log, index, all, base, lim, last);
    RecoveredSound(s.log.bytes, index, all, base, n, lim.interval, s.entries);
    CutValid(log, index, all, base, lim, last, n, s);
  }

  // ------------------------------------------------------------------ appending

  lemma Push(bs: seq<Batch>, b: Batch)
    ensures Size(bs + [b]) == Size(bs) + |b.bytes| && Count(bs + [b]) == Count(bs) + |b.records|
    ensures LogBytes(bs + [b]) == LogBytes(bs) + b.bytes
    ensures Pos(bs + [b], |bs|) == Size(bs) && Off(bs + [b], |bs|) == Count(bs)
  {
    Agree(bs + [b], bs, |bs|);
  }

  lemma FittingPush(bs: seq<Batch>, base: nat, lim: Limits, b: Batch)
    requires Fitting(bs, base, lim) && ValidBatch(b, base + Count(bs)) && |b.bytes| <= lim.maxBatch
    requires Count(bs) <= MAX_UINT32 && Size(bs) + |b.bytes| <= lim.segmentMax
    ensures Fitting(bs + [b], base, lim)
  {
    hide ValidBatch, Pos, Off, LogPrefix;
    Push(bs, b);
    AgreeAll(bs, bs + [b]);
  }

  /** Writing at the end of the index file in use, completely or in part, keeps its whole entries on batches. */
  lemma IndexWrite(bytes: seq<byte>, size: nat, e: IndexEntry, n: nat, bs: seq<Batch>)
    requires size % 12 == 0 && size <= |bytes| < size + 12 && n <= 12
    requires EntriesOn(bytes, bs) && (n == 12 ==> OnBatch(e, bs))
    ensures var (w, end) := (WriteAt(bytes, size, EntryBytes(e)[..n]), if n == 12 then size + 12 else size);
            end <= |w| < end + 12 && EntriesOn(w, bs)
  {
    hide EntryBytes, EntryOf, OnBatch;
    var w := WriteAt(bytes, size, EntryBytes(e)[..n]);
    forall i | 0 <= i < |w| / 12
      ensures OnBatch(EntryOf(w, i), bs)
    {
      if i < size / 12 {
        assert w[12 * i..12 * i + 12] == bytes[12 * i..12 * i + 12];
        EntryOfBytes(bytes, i, EntryOf(bytes, i));
        EntryOfBytes(w, i, EntryOf(bytes, i));
      } else {
        assert w[12 * i..12 * i + 12] == EntryBytes(e)[..12] == EntryBytes(e);
        EntryOfBytes(w, i, e);
      }
    }
  }

  lemma EntriesOnGrow(bytes: seq<byte>, bs: seq<Batch>, b: Batch)
    requires EntriesOn(bytes, bs)
    ensures EntriesOn(bytes, bs + [b])
  {
    hide EntryOf, OnBatch;
    forall i | 0 <= i < |bytes| / 12
      ensures OnBatch(EntryOf(bytes, i), bs + [b])
    {
      MarksGrow(EntryOf(bytes, i), bs, bs + [b]);
    }
  }

  /** The segment after a batch has been written at the end of its log, before the index is looked at. */
  ghost function WithBatch(s: SegState, b: Batch): SegState {
    s.(batches := s.batches + [b], log := File(s.log.bytes + b.bytes, s.log.synced),
       size := s.size + |b.bytes|, next := s.next + |b.records|, latest := Later(s.latest, MaxTimestamp(b.records)))
  }

  /** The segment after an entry for the batch at `position` has been added, with `n` of its 12 bytes written. */
  ghost function WithEntry(s: SegState, e: IndexEntry, n: nat): SegState
    requires s.indexSize <= |s.index.bytes| && n <= 12
  {
    s.(entries := s.entries + [e], lastIndexed := e.position, dirty := true,
       index := File(WriteAt(s.index.bytes, s.indexSize, EntryBytes(e)[..n]),
                     SyncedAfter(s.index.synced, s.indexSize, EntryBytes(e)[..n])),
       indexSize := if n == 12 then s.indexSize + 12 else s.indexSize)
  }

  /** A segment after a complete write, with an index entry if one was due. */
  ghost function GrownSeg(s: SegState, b: Batch, n: nat, interval: nat): SegState
    requires s.base <= s.next <= s.base + MAX_UINT32 && s.size <= MAX_INT64 && s.indexSize <= |s.index.bytes| && n <= 12
  {
    if Due(s.entries, s.size, interval) then WithEntry(WithBatch(s, b), IndexEntry(s.next - s.base, s.size), n)
    else WithBatch(s, b)
  }

  /** The index kept up while appending is the index rebuilt from the whole log. */
  lemma GreedyPush(es: seq<IndexEntry>, bs: seq<Batch>, b: Batch, interval: nat, e: IndexEntry)
    requires Indexable(bs + [b]) && GreedyEntries(es, bs, interval)
    requires e.relative == Count(bs) && e.position == Size(bs)
    ensures GreedyEntries(if Due(es, e.position, interval) then es + [e] else es, bs + [b], interval)
  {
    hide Pos, Off, Greedy;
    GreedyAgree(bs, bs + [b], |bs|, interval);
    GreedyStep(bs + [b], |bs|, interval);
    Push(bs, b);
  }

  lemma FittingIndexable(bs: seq<Batch>, base: nat, lim: Limits)
    requires Fitting(bs, base, lim)
    ensures Indexable(bs)
  {
  }

  /** Appending keeps a segment valid, with the entry written, partly written, or not due. */
  lemma AppendValid(s: SegState, b: Batch, lim: Limits, indexed: bool, n: nat, s': SegState)
    requires ValidSeg(s, lim) && |s.log.bytes| == s.size && n <= 12
    requires ValidBatch(b, s.next) && |b.bytes| <= lim.maxBatch
    requires s.next - s.base <= MAX_UINT32 && s.size + |b.bytes| <= lim.segmentMax
    requires indexed == Due(s.entries, s.size, lim.interval)
    requires s' == if indexed then WithEntry(WithBatch(s, b), IndexEntry(s.next - s.base, s.size), n)
             else WithBatch(s, b)
    ensures ValidSeg(s', lim)
  {
    hide ValidBatch, Pos, Off, LogBytes, Sound, Fitting, EntriesOn, Latest, MaxTimestamp, EntryBytes, WriteAt,
         GreedyEntries;
    var bs := s.batches;
    var e := IndexEntry(s.next - s.base, s.size);
    FittingPush(bs, s.base, lim, b);
    Push(bs, b);
    LogLength(bs);
    LatestPush(bs, b);
    EntriesOnGrow(s.index.bytes, bs, b);
    if s.exact {
      FittingIndexable(bs + [b], s.base, lim);
      GreedyPush(s.entries, bs, b, lim.interval, e);
    }
    SoundAppend(s.entries, bs, b, s'.entries);
    if indexed {
      OnBatchAt(e, bs + [b], |bs|);
      IndexWrite(s.index.bytes, s.indexSize, e, n, bs + [b]);
      WriteLength(s.index.bytes, s.indexSize, EntryBytes(e)[..n]);
    }
  }

  // -------------------------------------------------------------------- flushing

  datatype FlushOutcome = Flushed | LogSyncFailed | IndexSyncFailed

  /** An index that has not changed is not synced, so that cannot fail. */
  predicate FlushOk(s: SegState, io: FlushOutcome) {
    io.Flushed? || (io.IndexSyncFailed? && !s.dirty)
  }

  /** The segment after a flush: the log is synced first, then the index if it has changed. */
  function FlushedSeg(s: SegState, io: FlushOutcome): SegState {
    if io.LogSyncFailed? then s
    else
      var t := s.(log := File(s.log.bytes, |s.log.bytes|));
      if s.dirty && io.Flushed? then t.(index := File(s.index.bytes, |s.index.bytes|), dirty := false) else t
  }
}
