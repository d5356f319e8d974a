/** Checking an index file against the recovered log, and rebuilding it from the log
    (internal/storage/store.go:562-690). */
module IndexRecovery {
  import opened Bytes
  import opened Format
  import opened Batches
  import opened Recovery
  import opened Index

  /** The entry points inside the log at something that begins like a batch with the entry's offset. */
  predicate EntryMatches(bytes: seq<byte>, e: IndexEntry, valid: nat, base: nat)
    requires valid <= |bytes|
  {
    && e.position + BATCH_HEADER_SIZE <= valid
    && bytes[e.position..e.position + 4] == MAGIC
    && HeaderBase(bytes[e.position..e.position + BATCH_HEADER_SIZE]) == ToUint64(base + e.relative)
  }

  predicate IndexMatches(bytes: seq<byte>, es: seq<IndexEntry>, valid: nat, base: nat)
    requires valid <= |bytes|
  {
    && (es == [] ==> valid == 0)
    && Ordered(es) && forall i | 0 <= i < |es| :: EntryMatches(bytes, es[i], valid, base)
  }

  method ValidateIndexEntries(bytes: seq<byte>, es: seq<IndexEntry>, valid: nat, base: nat) returns (ok: bool)
    requires valid <= |bytes|
    ensures ok == IndexMatches(bytes, es, valid, base)
  {
    if es == [] {
      return valid == 0;
    }
    hide HeaderBase, ToUint64;
    if es[0].relative != 0 || es[0].position != 0 {
      assert !InPlace(es, 0);
      return false;
    }
    var last := IndexEntry(0, 0);
    for i := 0 to |es|
      invariant i > 0 ==> last == es[i - 1]
      invariant forall j | 0 <= j < i :: InPlace(es, j)
      invariant forall j | 0 <= j < i :: EntryMatches(bytes, es[j], valid, base)
    {
      var e := es[i];
      if i > 0 {
        if e.relative <= last.relative {
          assert !InPlace(es, i);
          return false;
        }
        if e.position <= last.position {
          assert !InPlace(es, i);
          return false;
        }
      }
      if e.position >= valid {
        return false;
      }
      if e.position + 9 > |bytes| || bytes[e.position..e.position + 4] != MAGIC {
        return false;
      }
      if e.position + BATCH_HEADER_SIZE > valid {
        return false;
      }
      var header := bytes[e.position..e.position + BATCH_HEADER_SIZE];
      if HeaderBase(header) != ToUint64(base + e.relative) {
        return false;
      }
      assert InPlace(es, i);
      last := e;
    }
    return true;
  }

  /** Entries the store wrote for a longer log are sound for the recovered part if they pass the check. */
  lemma MatchesSound(bytes: seq<byte>, es: seq<IndexEntry>, all: seq<Batch>, n: nat, base: nat)
    requires n <= |all| && Pos(all, n) <= |bytes|
    requires IndexMatches(bytes, es, Pos(all, n), base)
    requires forall e <- es :: OnBatch(e, all)
    ensures Sound(es, all[..n])
  {
    hide OnBatch, HeaderBase, Pos;
    forall i | 0 <= i < |es|
      ensures OnBatch(es[i], all[..n])
    {
      assert EntryMatches(bytes, es[i], Pos(all, n), base);
      MarksShrink(es[i], all, n);
    }
    Same(all, 0, n);
    PosZero(all);
    if es != [] {
      assert EntryMatches(bytes, es[0], Pos(all, n), base);
    }
  }

  /** The header of a written batch at its place in the file. */
  lemma HeaderAt(bs: seq<Batch>, base: nat, bytes: seq<byte>, k: nat)
    requires Run(bs, base) && k < |bs| && LogBytes(bs) <= bytes
    ensures Pos(bs, k) + BATCH_HEADER_SIZE <= Pos(bs, k + 1) <= Size(bs) <= |bytes|
    ensures bytes[Pos(bs, k)..Pos(bs, k) + 4] == MAGIC
    ensures var header := bytes[Pos(bs, k)..Pos(bs, k) + BATCH_HEADER_SIZE];
            && HeaderBase(header) == base + Off(bs, k)
            && HeaderTimestamp(header) == MaxTimestamp(bs[k].records)
            && 9 + HeaderLength(header) == |bs[k].bytes|
  {
    hide ValidBatch, Decode, Get32, Get64, ToInt64, LogBytes, Run;
    RunAt(bs, base, k);
    BatchAt(bs, k);
    Next(bs, k);
    LogLength(bs);
    var (p, q, data) := (Pos(bs, k), Pos(bs, k + 1), bs[k].bytes);
    hide Pos;
    BatchReads(bs[k], base + Off(bs, k), data);
    assert bytes[p..q] == LogBytes(bs)[p..q] == data;
    var header := bytes[p..p + BATCH_HEADER_SIZE];
    assert header == data[..33];
    assert header[5..9] == data[5..9] && header[13..21] == data[13..21] && header[25..33] == data[25..33];
    assert bytes[p..p + 4] == data[..4];
  }

  /** A sound index passes the check against its own log. */
  lemma SoundMatches(bytes: seq<byte>, es: seq<IndexEntry>, bs: seq<Batch>, base: nat)
    requires Run(bs, base) && Sound(es, bs) && LogBytes(bs) <= bytes && Size(bs) <= |bytes|
    ensures IndexMatches(bytes, es, Size(bs), base)
  {
    hide Run, ValidBatch, LogBytes, HeaderBase, Pos, Off, HeaderLength, HeaderTimestamp, MaxTimestamp;
    PosZero(bs);
    forall i | 0 <= i < |es|
      ensures EntryMatches(bytes, es[i], Size(bs), base)
    {
      assert es[i] in es;
      var k :| Marks(es[i], bs, k);
      HeaderAt(bs, base, bytes, k);
    }
  }

  lemma LatestSnoc(bs: seq<Batch>, k: nat)
    requires k < |bs|
    ensures Latest(bs[..k + 1]) == Later(Latest(bs[..k]), MaxTimestamp(bs[k].records))
  {
    assert bs[..k + 1] == bs[..k] + [bs[k]];
    LatestPush(bs[..k], bs[k]);
  }

  /** Whoever wrote an index, an entry that passes the check and stands at a batch is that of the batch. */
  lemma MatchedMarks(bytes: seq<byte>, e: IndexEntry, bs: seq<Batch>, base: nat, k: nat)
    requires Run(bs, base) && LogBytes(bs) <= bytes && k < |bs| && e.position == Pos(bs, k)
    ensures Size(bs) <= |bytes| && (EntryMatches(bytes, e, Size(bs), base) <==> Marks(e, bs, k))
  {
    hide Run, LogBytes, Pos, Off, HeaderBase;
    HeaderAt(bs, base, bytes, k);
  }

  /** The log as the store wrote it, ready to be indexed. */
  ghost predicate Written(bs: seq<Batch>, base: nat, bytes: seq<byte>) {
    Run(bs, base) && Indexable(bs) && LogBytes(bs) <= bytes && Size(bs) <= |bytes|
  }

  /** What the header at batch `k` says, and what it adds to the greedy index. */
  lemma RebuildStep(bs: seq<Batch>, base: nat, bytes: seq<byte>, k: nat, pos: nat, interval: nat)
    requires Written(bs, base, bytes) && k <= |bs| && pos == Pos(bs, k) < Size(bs)
    ensures k < |bs| && pos + BATCH_HEADER_SIZE <= |bytes| && Off(bs, k) <= MAX_UINT32 && pos <= MAX_INT64
    ensures var header := bytes[pos..pos + BATCH_HEADER_SIZE];
            && ToUint64(HeaderBase(header) - base) == Off(bs, k)
            && pos + 9 + HeaderLength(header) == Pos(bs, k + 1) <= Size(bs)
            && Latest(bs[..k + 1]) == Later(Latest(bs[..k]), HeaderTimestamp(header))
  {
    hide ValidBatch, LogBytes, HeaderBase, Pos, Off, HeaderLength, HeaderTimestamp, MaxTimestamp, Latest, Run;
    Same(bs, k, |bs|);
    HeaderAt(bs, base, bytes, k);
    Next(bs, k);
    LatestSnoc(bs, k);
  }

  lemma GreedyStep(bs: seq<Batch>, k: nat, interval: nat)
    requires Indexable(bs) && k < |bs|
    ensures Off(bs, k) <= MAX_UINT32 && Pos(bs, k) <= MAX_INT64
    ensures var g := Greedy(bs, k, interval);
            Greedy(bs, k + 1, interval) ==
              if Due(g, Pos(bs, k), interval) then g + [IndexEntry(Off(bs, k), Pos(bs, k))] else g
  {
    hide Pos, Off;
  }

  /** What the header at the position of an entry says, whatever the log. */
  ghost predicate FromHeader(bytes: seq<byte>, e: IndexEntry, valid: nat, base: nat) {
    && e.position < valid && e.position + BATCH_HEADER_SIZE <= |bytes|
    && e.relative == ToUint64(HeaderBase(bytes[e.position..e.position + BATCH_HEADER_SIZE]) - base)
  }

  /** The first header has an entry, later ones only an interval on, and every entry is from a header. */
  ghost predicate Rebuilt(bytes: seq<byte>, es: seq<IndexEntry>, valid: nat, base: nat, interval: nat) {
    && (if valid == 0 then es == [] else es != [] && es[0].position == 0)
    && (forall i | 0 <= i < |es| :: FromHeader(bytes, es[i], valid, base))
    && forall i | 0 < i < |es| :: es[i].position - es[i - 1].position >= interval
  }

  /** One more entry for a header further on. */
  lemma RebuiltMore(bytes: seq<byte>, es: seq<IndexEntry>, e: IndexEntry, valid: nat, base: nat, interval: nat)
    requires FromHeader(bytes, e, valid, base)
    requires if es == [] then e.position == 0
             else Rebuilt(bytes, es, valid, base, interval) && e.position - es[|es| - 1].position >= interval
    ensures Rebuilt(bytes, es + [e], valid, base, interval)
  {
    hide HeaderBase, ToUint64;
  }

  lemma NothingRebuilt(bytes: seq<byte>, base: nat, interval: nat)
    ensures Rebuilt(bytes, [], 0, base, interval)
  {
  }

  /** A header that can have an entry: all of it is there, and its base offset is within reach of the segment's. */
  ghost predicate GoodHeader(bytes: seq<byte>, pos: nat, base: nat) {
    && pos + BATCH_HEADER_SIZE <= |bytes|
    && ToUint64(HeaderBase(bytes[pos..pos + BATCH_HEADER_SIZE]) - base) <= MAX_UINT32
  }

  /** Following the lengths from a position on, every header is good. */
  ghost predicate Walkable(bytes: seq<byte>, valid: nat, base: nat, pos: nat)
    decreases valid - pos
  {
    pos < valid ==>
      && GoodHeader(bytes, pos, base)
      && Walkable(bytes, valid, base, pos + 9 + HeaderLength(bytes[pos..pos + BATCH_HEADER_SIZE]))
  }

  /** Walks the batch headers of the recovered log; given a log the store wrote, the result is the greedy index. */
  method RebuildIndex(bytes: seq<byte>, valid: nat, base: nat, interval: nat, newest: int64, ghost bs: seq<Batch>)
    returns (r: Option<seq<IndexEntry>>, latest: int64)
    requires valid <= |bytes| && valid <= MAX_INT64 && newest >= 0
    ensures Written(bs, base, bytes) && valid == Size(bs) ==>
              r == Some(Greedy(bs, |bs|, interval)) && latest == Later(newest, Latest(bs))
    ensures r.Some? <==> Walkable(bytes, valid, base, 0)
    ensures r.Some? ==> Rebuilt(bytes, r.value, valid, base, interval)
  {
    hide Written, HeaderBase, Rebuilt, Pos, Off, HeaderLength, HeaderTimestamp, MaxTimestamp, Latest, ToUint64,
         Indexable;
    PosZero(bs);
    ghost var written := Written(bs, base, bytes) && valid == Size(bs);
    var es: seq<IndexEntry> := [];
    var last: int := -1;
    var pos: nat := 0;
    ghost var k: nat := 0;
    latest := newest;
    WrittenIndexable(bs, base, bytes);
    while pos < valid
      invariant written ==> k <= |bs| && pos == Pos(bs, k) && es == Greedy(bs, k, interval)
      invariant es != [] ==> last == es[|es| - 1].position && Rebuilt(bytes, es, valid, base, interval)
      invariant es == [] ==> pos == 0
      invariant Walkable(bytes, valid, base, 0) == Walkable(bytes, valid, base, pos)
      invariant latest >= 0 && (written ==> latest == Later(newest, Latest(bs[..k])))
      decreases valid - pos
    {
      hide Greedy;
      if written {
        RebuildStep(bs, base, bytes, k, pos, interval);
        GreedyStep(bs, k, interval);
      }
      if pos + BATCH_HEADER_SIZE > |bytes| {
        return None, latest;
      }
      var header := bytes[pos..pos + BATCH_HEADER_SIZE];
      latest := Later(latest, HeaderTimestamp(header));
      var relative := ToUint64(HeaderBase(header) - base);
      if relative > MAX_UINT32 {
        return None, latest;
      }
      if |es| == 0 || pos - last >= interval {
        RebuiltMore(bytes, es, IndexEntry(relative, pos), valid, base, interval);
        es, last := es + [IndexEntry(relative, pos)], pos;
      }
      pos, k := pos + 9 + HeaderLength(header), k + 1;
    }
    if written {
      Same(bs, k, |bs|);
      assert bs[..k] == bs;
    }
    NothingRebuilt(bytes, base, interval);
    r := Some(es);
  }

  lemma WrittenIndexable(bs: seq<Batch>, base: nat, bytes: seq<byte>)
    ensures Written(bs, base, bytes) ==> Indexable(bs)
  {
  }
}
