/** The sparse offset index of a segment: its file form, when it is sound for a log,
    and the greedy index that appending builds and rebuilding recomputes. */
module Index {
  import opened Bytes
  import opened Format
  import opened Batches

  datatype IndexEntry = IndexEntry(relative: uint32, position: uint64)

  const MAX_INDEX_SIZE := 64 * 1024 * 1024

  function EntryBytes(e: IndexEntry): (s: seq<byte>)
    ensures |s| == 12
  {
    Put32(e.relative) + Put64(e.position)
  }

  function IndexBytes(es: seq<IndexEntry>): (s: seq<byte>)
    ensures |s| == 12 * |es|
  {
    hide EntryBytes;
    if es == [] then [] else IndexBytes(es[..|es| - 1]) + EntryBytes(es[|es| - 1])
  }

  function EntryOf(bytes: seq<byte>, i: nat): IndexEntry
    requires 12 * i + 12 <= |bytes|
  {
    var at := 12 * i;
    IndexEntry(Get32(bytes[at..at + 4]), Get64(bytes[at + 4..at + 12]))
  }

  /** The whole entries of an index file. */
  function Entries(bytes: seq<byte>): (es: seq<IndexEntry>)
    ensures |es| == |bytes| / 12
  {
    seq(|bytes| / 12, i requires 0 <= i < |bytes| / 12 => EntryOf(bytes, i))
  }

  lemma EntryOfBytes(bytes: seq<byte>, i: nat, e: IndexEntry)
    requires 12 * i + 12 <= |bytes|
    ensures bytes[12 * i..12 * i + 12] == EntryBytes(e) <==> EntryOf(bytes, i) == e
  {
    hide Put32, Put64, Get32, Get64;
    var at := 12 * i;
    SplitSlice(bytes, at, Put32(e.relative), Put64(e.position));
    Slice32(bytes, at, e.relative);
    Slice64(bytes, at + 4, e.position);
  }

  /** A file that begins like the file of `es` holds the entries of `es`, as far as it goes. */
  lemma {:induction false} EntriesOfPrefix(es: seq<IndexEntry>, bytes: seq<byte>, i: nat)
    requires i < |es| && 12 * i + 12 <= |bytes|
    requires bytes <= IndexBytes(es) || IndexBytes(es) <= bytes
    ensures EntryOf(bytes, i) == es[i]
    decreases |es|
  {
    hide EntryBytes, EntryOf;
    var front := es[..|es| - 1];
    if i < |front| {
      if |bytes| <= |IndexBytes(front)| {
        assert bytes <= IndexBytes(front);
      } else {
        assert IndexBytes(front) <= bytes;
      }
      EntriesOfPrefix(front, bytes, i);
    } else {
      var at := 12 * i;
      assert bytes[at..at + 12] == EntryBytes(es[i]);
      EntryOfBytes(bytes, i, es[i]);
    }
  }

  /** First entry {0, 0}, then strictly increasing in both fields. */
  predicate InPlace(es: seq<IndexEntry>, i: nat)
    requires i < |es|
  {
    if i == 0 then es[0] == IndexEntry(0, 0)
    else es[i - 1].relative < es[i].relative && es[i - 1].position < es[i].position
  }

  predicate Ordered(es: seq<IndexEntry>) {
    forall i | 0 <= i < |es| :: InPlace(es, i)
  }

  lemma {:induction false} OrderedApart(es: seq<IndexEntry>, i: nat, j: nat)
    requires Ordered(es) && i < j < |es|
    ensures es[i].relative < es[j].relative && es[i].position < es[j].position
    decreases j
  {
    assert InPlace(es, j);
    if i < j - 1 {
      OrderedApart(es, i, j - 1);
    }
  }

  lemma OrderedSnoc(es: seq<IndexEntry>, e: IndexEntry)
    requires Ordered(es) && InPlace(es + [e], |es|)
    ensures Ordered(es + [e])
  {
    forall i | 0 <= i < |es|
      ensures InPlace(es + [e], i)
    {
      assert InPlace(es, i);
    }
  }

  /** Which index files are usable at all. */
  predicate Readable(bytes: seq<byte>) {
    && |bytes| % 12 == 0 && |bytes| <= MAX_INDEX_SIZE
    && Ordered(Entries(bytes)) && forall i | 0 <= i < |bytes| / 12 :: Entries(bytes)[i].position <= MAX_INT64
  }

  /** ReadIndexEntries: the entries of a usable index file, in one pass that stops at the first disorder. */
  method ReadIndexEntries(bytes: seq<byte>) returns (r: Option<seq<IndexEntry>>)
    ensures r == if Readable(bytes) then Some(Entries(bytes)) else None
  {
    hide Entries, EntryOf;
    if |bytes| == 0 {
      return Some([]);
    }
    if |bytes| % 12 != 0 || |bytes| > MAX_INDEX_SIZE {
      return None;
    }
    var n := |bytes| / 12;
    var es: seq<IndexEntry> := [];
    var last := IndexEntry(0, 0);
    ghost var all := Entries(bytes);
    for i := 0 to n
      invariant es == all[..i]
      invariant i > 0 ==> last == all[i - 1]
      invariant forall j | 0 <= j < i :: InPlace(all, j)
      invariant forall j | 0 <= j < i :: all[j].position <= MAX_INT64
    {
      var e := EntryOf(bytes, i);
      EntriesAt(bytes, i);
      if i > 0 && (e.relative <= last.relative || e.position <= last.position) {
        assert !InPlace(all, i);
        return None;
      }
      if i == 0 && e != IndexEntry(0, 0) {
        assert !InPlace(all, i);
        return None;
      }
      if e.position > MAX_INT64 {
        return None;
      }
      assert InPlace(all, i);
      es, last := es + [e], e;
    }
    assert es == all;
    r := Some(es);
  }

  lemma EntriesAt(bytes: seq<byte>, i: nat)
    requires i < |bytes| / 12
    ensures Entries(bytes)[i] == EntryOf(bytes, i)
  {
    hide EntryOf;
  }

  // ------------------------------------------------------------- soundness

  ghost predicate Marks(e: IndexEntry, bs: seq<Batch>, k: nat) {
    k < |bs| && e.relative == Off(bs, k) && e.position == Pos(bs, k)
  }

  /** The entry is the start of some batch. */
  ghost predicate OnBatch(e: IndexEntry, bs: seq<Batch>) {
    exists k :: Marks(e, bs, k)
  }

  /** An index fit for searching: in order, every entry on a batch start, and present if there is a log. */
  ghost predicate Sound(es: seq<IndexEntry>, bs: seq<Batch>) {
    && (es == [] <==> bs == []) && Ordered(es)
    && forall e <- es :: OnBatch(e, bs)
  }

  /** Every batch start can be an entry. */
  ghost predicate Indexable(bs: seq<Batch>) {
    forall k | 0 <= k < |bs| :: Off(bs, k) <= MAX_UINT32 && Pos(bs, k) <= MAX_INT64
  }

  function EntryAt(bs: seq<Batch>, k: nat): (e: IndexEntry)
    requires k < |bs| && Off(bs, k) <= MAX_UINT32 && Pos(bs, k) <= MAX_INT64
    ensures Marks(e, bs, k)
  {
    IndexEntry(Off(bs, k), Pos(bs, k))
  }

  lemma MarksGrow(e: IndexEntry, bs: seq<Batch>, cs: seq<Batch>)
    requires bs <= cs && OnBatch(e, bs)
    ensures OnBatch(e, cs)
  {
    var k :| Marks(e, bs, k);
    Agree(bs, cs, k);
    assert Marks(e, cs, k);
  }

  /** An entry that lies before the end of a shorter log is on one of its batches. */
  lemma MarksShrink(e: IndexEntry, bs: seq<Batch>, n: nat)
    requires n <= |bs| && OnBatch(e, bs) && e.position < Pos(bs, n)
    ensures OnBatch(e, bs[..n])
  {
    var k :| Marks(e, bs, k);
    Same(bs, k, n);
    Agree(bs, bs[..n], k);
    assert Marks(e, bs[..n], k);
  }

  /** Appending a batch, with an entry for it or, unless it is the first, without. */
  lemma SoundAppend(es: seq<IndexEntry>, bs: seq<Batch>, b: Batch, es': seq<IndexEntry>)
    requires Sound(es, bs)
    requires Off(bs, |bs|) <= MAX_UINT32 && Pos(bs, |bs|) <= MAX_INT64
    requires es' == es + [IndexEntry(Off(bs, |bs|), Pos(bs, |bs|))] || (es' == es && es != [])
    ensures Sound(es', bs + [b])
  {
    var cs := bs + [b];
    hide Sound, OnBatch;
    SoundParts(es, bs);
    forall e | e in es
      ensures OnBatch(e, cs)
    {
      MarksGrow(e, bs, cs);
    }
    Agree(bs, cs, |bs|);
    var e := IndexEntry(Off(bs, |bs|), Pos(bs, |bs|));
    OnBatchAt(e, cs, |bs|);
    if es != [] {
      BeforeEnd(es[|es| - 1], bs);
    }
    if es' == es + [e] {
      assert InPlace(es', |es|);
      OrderedSnoc(es, e);
    }
    SoundWhole(es', cs);
  }

  lemma SoundParts(es: seq<IndexEntry>, bs: seq<Batch>)
    requires Sound(es, bs)
    ensures (es == [] <==> bs == []) && Ordered(es) && forall e <- es :: OnBatch(e, bs)
  {
  }

  lemma SoundWhole(es: seq<IndexEntry>, bs: seq<Batch>)
    requires (es == [] <==> bs == []) && Ordered(es) && forall e <- es :: OnBatch(e, bs)
    ensures Sound(es, bs)
  {
  }

  lemma OnBatchAt(e: IndexEntry, bs: seq<Batch>, k: nat)
    requires Marks(e, bs, k)
    ensures OnBatch(e, bs)
  {
  }

  lemma BeforeEnd(e: IndexEntry, bs: seq<Batch>)
    requires OnBatch(e, bs)
    ensures e.relative < Off(bs, |bs|) && e.position < Pos(bs, |bs|)
  {
    var k :| Marks(e, bs, k);
    Same(bs, k, |bs|);
  }

  // --------------------------------------------------------- the greedy index

  /** Should a batch at `position` get an entry? The first always, a later one if it is far enough on. */
  predicate Due(es: seq<IndexEntry>, position: nat, interval: nat) {
    es == [] || position - es[|es| - 1].position >= interval
  }

  /** The index of the first `n` batches, deciding each in turn. */
  ghost function Greedy(bs: seq<Batch>, n: nat, interval: nat): seq<IndexEntry>
    requires n <= |bs| && Indexable(bs)
  {
    if n == 0 then [] else
      var g := Greedy(bs, n - 1, interval);
      if Due(g, Pos(bs, n - 1), interval) then g + [EntryAt(bs, n - 1)] else g
  }

  lemma {:induction false} GreedyAgree(bs: seq<Batch>, cs: seq<Batch>, n: nat, interval: nat)
    requires n <= |bs| && n <= |cs| && Indexable(bs) && Indexable(cs)
    requires forall i | 0 <= i < n :: bs[i] == cs[i]
    ensures Greedy(bs, n, interval) == Greedy(cs, n, interval)
  {
    hide Indexable, Pos, Off;
    if n > 0 {
      GreedyAgree(bs, cs, n - 1, interval);
      Agree(bs, cs, n - 1);
    }
  }

  lemma {:induction false} GreedySound(bs: seq<Batch>, n: nat, interval: nat)
    requires n <= |bs| && Indexable(bs)
    ensures Sound(Greedy(bs, n, interval), bs[..n])
  {
    if n == 0 {
      SoundWhole([], []);
    } else {
      hide Sound, Pos, Off, OnBatch, Marks, Ordered;
      GreedySound(bs, n - 1, interval);
      var (front, g) := (bs[..n - 1], Greedy(bs, n - 1, interval));
      assert bs[..n] == front + [bs[n - 1]];
      Agree(bs, front, n - 1);
      SoundParts(g, front);
      SoundAppend(g, front, bs[n - 1], Greedy(bs, n, interval));
    }
  }

  /** Entries are at least an interval apart, so all but the first fit into the log at one per interval. */
  lemma {:induction false} GreedySparse(bs: seq<Batch>, n: nat, interval: nat)
    requires n <= |bs| && Indexable(bs)
    ensures var g := Greedy(bs, n, interval);
            g != [] ==> (|g| - 1) * interval <= g[|g| - 1].position < Pos(bs, n)
  {
    if n > 0 {
      GreedySparse(bs, n - 1, interval);
      Next(bs, n - 1);
      var g := Greedy(bs, n - 1, interval);
      hide Pos, Off;
      if Due(g, Pos(bs, n - 1), interval) {
        assert |g| * interval == (|g| - 1) * interval + interval;
      }
    }
  }

  /** From the last entry at or before a batch, the scan to that batch is shorter than an interval. */
  lemma {:induction false} GreedyNear(bs: seq<Batch>, n: nat, interval: nat, k: nat, i: nat)
    requires n <= |bs| && Indexable(bs) && interval > 0 && k < n
    requires var g := Greedy(bs, n, interval);
             i < |g| && g[i].position <= Pos(bs, k) && (i + 1 < |g| ==> Pos(bs, k) < g[i + 1].position)
    ensures Pos(bs, k) - Greedy(bs, n, interval)[i].position < interval
  {
    var (g, h) := (Greedy(bs, n - 1, interval), Greedy(bs, n, interval));
    if k < n - 1 {
      Same(bs, k, n - 1);
      GreedyNear(bs, n - 1, interval, k, i);
    } else {
      GreedySound(bs, n, interval);
      SoundParts(h, bs[..n]);
      GreedySparse(bs, n - 1, interval);
      hide Sound, Pos, Ordered, Greedy;
      if i + 1 < |h| - 1 {
        OrderedApart(h, i + 1, |h| - 1);
      }
    }
  }
}
