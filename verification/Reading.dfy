/** Reading from an offset under a byte budget (internal/storage/store.go:292-400): the result asked for,
    the two binary searches, and the forward scan of a segment. */
module Reading {
  import opened Bytes
  import opened Checksum
  import opened Format
  import opened Codec
  import opened Batches
  import opened Index
  import opened Recovery

  function HeadersSize(hs: seq<Header>): nat {
    if hs == [] then 0 else |hs[0].key| + |Contents(hs[0].value)| + HeadersSize(hs[1..])
  }

  /** recordSize: what a record counts against the budget. */
  function RecordBytes(r: StoredRecord): nat {
    |Contents(r.key)| + |Contents(r.value)| + HeadersSize(Contents(r.headers)) + 16
  }

  function Total(rs: seq<StoredRecord>): nat {
    if rs == [] then 0 else Total(rs[..|rs| - 1]) + RecordBytes(rs[|rs| - 1])
  }

  /** The longest beginning of `rest` that fits the budget, but never nothing if there is something. */
  ghost predicate LongestRun(rest: seq<StoredRecord>, budget: int, out: seq<StoredRecord>) {
    && out <= rest && (rest != [] ==> out != [])
    && (|out| > 1 ==> Total(out) <= budget)
    && forall n | |out| < n <= |rest| :: Total(rest[..n]) > budget
  }

  lemma {:induction false} TotalGrows(rs: seq<StoredRecord>, m: nat, n: nat)
    requires m <= n <= |rs|
    ensures Total(rs[..m]) <= Total(rs[..n])
    decreases n
  {
    hide RecordBytes;
    if m < n {
      TotalGrows(rs, m, n - 1);
      assert rs[..n][..n - 1] == rs[..n - 1];
    }
  }

  /** There is only one such result. */
  lemma LongestRunUnique(rest: seq<StoredRecord>, budget: int, a: seq<StoredRecord>, b: seq<StoredRecord>)
    requires LongestRun(rest, budget, a) && LongestRun(rest, budget, b)
    ensures a == b
  {
    hide Total;
    assert a == rest[..|a|] && b == rest[..|b|];
  }

  // ------------------------------------------------- the budget and the wire format

  function HeaderCount(rs: seq<StoredRecord>): nat {
    if rs == [] then 0 else |Contents(rs[0].headers)| + HeaderCount(rs[1..])
  }

  lemma {:induction false} HeadersOnWire(hs: seq<Header>)
    ensures |HeadersWire(hs)| == HeadersSize(hs) + 8 * |hs|
  {
    hide Put32;
    if hs != [] {
      HeadersOnWire(hs[1..]);
    }
  }

  /** What a record counts is its size on the wire but for 8 bytes, and 8 for every header. */
  lemma RecordOnWire(base: uint64, ts: int64, r: StoredRecord)
    ensures |RecordWire(base, ts, r)| == RecordBytes(r) + 8 + 8 * |Contents(r.headers)|
  {
    hide Put32, Put64, HeadersWire, HeadersSize;
    HeadersOnWire(Contents(r.headers));
  }

  lemma {:induction false} TotalFront(rs: seq<StoredRecord>)
    requires rs != []
    ensures Total(rs) == RecordBytes(rs[0]) + Total(rs[1..])
    decreases |rs|
  {
    hide RecordBytes;
    if |rs| == 1 {
      assert rs[..0] == [] && rs[1..] == [];
    } else {
      var n := |rs| - 1;
      TotalFront(rs[..n]);
      assert rs[..n][1..] == rs[1..][..n - 1];
    }
  }

  lemma {:induction false} RecordsOnWire(base: uint64, ts: int64, rs: seq<StoredRecord>)
    ensures |RecordsWire(base, ts, rs)| == Total(rs) + 8 * |rs| + 8 * HeaderCount(rs)
  {
    hide RecordBytes, RecordWire, Total;
    if rs == [] {
      TotalNone();
    } else {
      RecordOnWire(base, ts, rs[0]);
      RecordsOnWire(base, ts, rs[1..]);
      TotalFront(rs);
    }
  }

  lemma TotalNone()
    ensures Total([]) == 0
  {
  }

  /** The size of an encoded page. */
  lemma PageOnWire(rs: seq<StoredRecord>)
    requires rs != []
    ensures |Encode(rs)| == 33 + Total(rs) + 8 * |rs| + 8 * HeaderCount(rs)
  {
    hide Put32, Put64, Crc32, RecordsWire, Total, HeaderCount, MaxTimestamp;
    RecordsOnWire(rs[0].offset, MaxTimestamp(rs), rs);
  }

  lemma {:induction false} TotalAtLeast(rs: seq<StoredRecord>)
    ensures Total(rs) >= 16 * |rs|
    decreases |rs|
  {
    hide HeadersSize;
    if rs != [] {
      TotalAtLeast(rs[..|rs| - 1]);
    }
  }

  /** Encoded, a page of more than one record has at most half as many bytes more than the budget, 33, and 8 for every
      header. */
  ghost predicate WithinBound(page: seq<StoredRecord>, budget: int) {
    |page| > 1 ==> 16 * |page| <= budget && |Encode(page)| <= 33 + budget + budget / 2 + 8 * HeaderCount(page)
  }

  lemma PageBound(rest: seq<StoredRecord>, budget: int, out: seq<StoredRecord>)
    requires LongestRun(rest, budget, out)
    ensures WithinBound(out, budget)
  {
    hide Encode, Total, HeaderCount;
    if |out| > 1 {
      PageOnWire(out);
      TotalAtLeast(out);
    }
  }

  // --------------------------------------------------------------- collecting

  /** `out` is what lies between the requested offset and the current one, and it fits. */
  ghost predicate Collected(flat: seq<StoredRecord>, offset: nat, curr: nat, out: seq<StoredRecord>, used: nat,
                            budget: int) {
    && offset <= curr <= |flat| && out == flat[offset..curr]
    && used == Total(out) && (|out| > 1 ==> used <= budget)
  }

  /** The next record no longer fits. */
  ghost predicate Full(flat: seq<StoredRecord>, curr: nat, out: seq<StoredRecord>, used: nat, budget: int) {
    out != [] && curr < |flat| && used + RecordBytes(flat[curr]) > budget
  }

  lemma CollectOne(flat: seq<StoredRecord>, offset: nat, curr: nat, out: seq<StoredRecord>, used: nat, budget: int)
    requires Collected(flat, offset, curr, out, used, budget) && curr < |flat| && !Full(flat, curr, out, used, budget)
    ensures Collected(flat, offset, curr + 1, out + [flat[curr]], used + RecordBytes(flat[curr]), budget)
  {
    hide RecordBytes;
    assert (out + [flat[curr]])[..|out|] == out;
  }

  lemma CollectDone(flat: seq<StoredRecord>, offset: nat, curr: nat, out: seq<StoredRecord>, used: nat, budget: int)
    requires Collected(flat, offset, curr, out, used, budget)
    requires curr == |flat| || Full(flat, curr, out, used, budget)
    ensures LongestRun(flat[offset..], budget, out)
  {
    hide RecordBytes;
    var rest := flat[offset..];
    assert out <= rest;
    if curr < |flat| {
      assert rest[..|out| + 1] == out + [flat[curr]];
      assert (out + [flat[curr]])[..|out|] == out;
      forall n | |out| < n <= |rest|
        ensures Total(rest[..n]) > budget
      {
        TotalGrows(rest, |out| + 1, n);
      }
    }
  }

  lemma CollectNone(flat: seq<StoredRecord>, offset: nat, budget: int)
    requires offset <= |flat|
    ensures Collected(flat, offset, offset, [], 0, budget)
  {
  }

  lemma NothingLeft(flat: seq<StoredRecord>, budget: int)
    ensures LongestRun(flat[|flat|..], budget, [])
  {
  }

  /** Takes the records of one batch, skipping those before the current offset. */
  method CollectBatch(recs: seq<StoredRecord>, curr: nat, out: seq<StoredRecord>, used: nat, budget: int,
                      ghost flat: seq<StoredRecord>, ghost offset: nat, ghost start: nat)
    returns (curr': nat, out': seq<StoredRecord>, used': nat, full: bool)
    requires Collected(flat, offset, curr, out, used, budget) && start <= curr
    requires start + |recs| <= |flat| && recs == flat[start..start + |recs|]
    requires forall i | 0 <= i < |flat| :: flat[i].offset == i
    ensures Collected(flat, offset, curr', out', used', budget) && curr <= curr'
    ensures full ==> Full(flat, curr', out', used', budget)
    ensures !full ==> start + |recs| <= curr'
  {
    hide RecordBytes, Collected, Full;
    curr', out', used' := curr, out, used;
    for i := 0 to |recs|
      invariant Collected(flat, offset, curr', out', used', budget)
      invariant curr <= curr' && start + i <= curr' && (curr < curr' ==> curr' == start + i)
    {
      var r := recs[i];
      assert r == flat[start + i];
      if r.offset < curr' {
        continue;
      }
      CollectedBounds(flat, offset, curr', out', used', budget);
      var size := RecordBytes(r);
      if |out'| > 0 && used' + size > budget {
        FullAt(flat, curr', out', used', budget);
        return curr', out', used', true;
      }
      NotFull(flat, curr', out', used', budget);
      CollectOne(flat, offset, curr', out', used', budget);
      out', used', curr' := out' + [r], used' + size, r.offset + 1;
    }
    full := false;
  }

  lemma CollectedBounds(flat: seq<StoredRecord>, offset: nat, curr: nat, out: seq<StoredRecord>, used: nat, budget: int)
    requires Collected(flat, offset, curr, out, used, budget)
    ensures offset <= curr <= |flat|
  {
  }

  lemma FullAt(flat: seq<StoredRecord>, curr: nat, out: seq<StoredRecord>, used: nat, budget: int)
    requires out != [] && curr < |flat| && used + RecordBytes(flat[curr]) > budget
    ensures Full(flat, curr, out, used, budget)
  {
  }

  lemma NotFull(flat: seq<StoredRecord>, curr: nat, out: seq<StoredRecord>, used: nat, budget: int)
    requires curr < |flat| && (out == [] || used + RecordBytes(flat[curr]) <= budget)
    ensures !Full(flat, curr, out, used, budget)
  {
  }

  // ------------------------------------------------------------------ searching

  predicate Sorted(keys: seq<nat>) {
    forall i, j | 0 <= i < j < |keys| :: keys[i] <= keys[j]
  }

  /** sort.Search for the first key greater than `x`. */
  method FindFirst(keys: seq<nat>, x: nat) returns (i: nat)
    requires Sorted(keys)
    ensures i <= |keys|
    ensures forall j | 0 <= j < i :: keys[j] <= x
    ensures forall j | i <= j < |keys| :: keys[j] > x
  {
    i := 0;
    var hi := |keys|;
    while i < hi
      invariant i <= hi <= |keys|
      invariant forall j | 0 <= j < i :: keys[j] <= x
      invariant forall j | hi <= j < |keys| :: keys[j] > x
    {
      var mid := (i + hi) / 2;
      if keys[mid] > x {
        hi := mid;
      } else {
        i := mid + 1;
      }
    }
  }

  // ------------------------------------------------------- scanning a segment

  /** A segment's log and index, and the place of its records in the flat list. */
  ghost predicate Placed(bytes: seq<byte>, size: nat, base: nat, entries: seq<IndexEntry>, bs: seq<Batch>,
                         flat: seq<StoredRecord>) {
    && Run(bs, base) && LogBytes(bs) <= bytes && size == Size(bs) && Sound(entries, bs)
    && base + Count(bs) <= |flat| && flat[base..base + Count(bs)] == Flatten(bs)
    && forall i | 0 <= i < |flat| :: flat[i].offset == i
  }

  lemma {:induction false} FlattenAt(bs: seq<Batch>, k: nat)
    requires k < |bs|
    ensures Off(bs, k) <= Off(bs, k + 1) <= |Flatten(bs)|
    ensures Flatten(bs)[Off(bs, k)..Off(bs, k + 1)] == bs[k].records
  {
    Next(bs, k);
    Increasing(bs, k + 1, |bs|);
    hide Off, Flatten;
    forall j | 0 <= j < |bs[k].records|
      ensures Flatten(bs)[Off(bs, k) + j] == bs[k].records[j]
    {
      RecordAt(bs, k, j);
    }
  }

  /** A written batch in the file: what its prefix says, and what it decodes to. */
  lemma ScanAt(bytes: seq<byte>, b: Batch, start: nat, pos: nat)
    requires ValidBatch(b, start) && pos + |b.bytes| <= |bytes| && bytes[pos..pos + |b.bytes|] == b.bytes
    ensures 9 + HeaderLength(bytes[pos..pos + 9]) == |b.bytes|
    ensures Decode(bytes[pos..pos + |b.bytes|]) == Records(b.records)
  {
    hide ValidBatch, Decode, HeaderLength, HeaderBase, HeaderTimestamp, MaxTimestamp;
    assert bytes[pos..pos + 9] == b.bytes[..9];
    PrefixReads(b, start, bytes[pos..pos + 9]);
    BatchReads(b, start, b.bytes);
  }

  /** Batch `k` in the file, and its records in the flat list. */
  lemma PlaceAt(bytes: seq<byte>, size: nat, base: nat, entries: seq<IndexEntry>, bs: seq<Batch>,
                flat: seq<StoredRecord>, k: nat, pos: nat)
    requires Placed(bytes, size, base, entries, bs, flat) && k <= |bs| && pos == Pos(bs, k) < size
    ensures k < |bs| && ValidBatch(bs[k], base + Off(bs, k))
    ensures pos + |bs[k].bytes| == Pos(bs, k + 1) <= size <= |bytes| && bytes[pos..pos + |bs[k].bytes|] == bs[k].bytes
    ensures var start := base + Off(bs, k);
            && start + |bs[k].records| == base + Off(bs, k + 1) <= |flat|
            && flat[start..start + |bs[k].records|] == bs[k].records
  {
    hide Off, Flatten, Run, ValidBatch, LogBytes, Pos, Sound;
    Same(bs, k, |bs|);
    LogLength(bs);
    RunAt(bs, base, k);
    Next(bs, k);
    BatchAt(bs, k);
    assert bytes[pos..Pos(bs, k + 1)] == LogBytes(bs)[pos..Pos(bs, k + 1)];
    FlattenAt(bs, k);
    SubSlice(flat, base, Count(bs), Off(bs, k), Off(bs, k + 1));
  }

  lemma SubSlice<T>(s: seq<T>, base: nat, n: nat, lo: nat, hi: nat)
    requires lo <= hi <= n && base + n <= |s|
    ensures s[base..base + n][lo..hi] == s[base + lo..base + hi]
  {
    var (t, u) := (s[base..base + n][lo..hi], s[base + lo..base + hi]);
    assert |t| == |u| && forall i | 0 <= i < |t| :: t[i] == u[i];
  }

  /** `pos` is the position of the last entry not past a relative offset. */
  ghost predicate Nearest(entries: seq<IndexEntry>, relative: nat, pos: nat) {
    && (entries != [] ==>
          exists i :: 0 <= i < |entries| && entries[i].position == pos && entries[i].relative <= relative)
    && forall j | 0 <= j < |entries| && entries[j].relative <= relative :: entries[j].position <= pos
  }

  lemma EntryBefore(e: IndexEntry, bs: seq<Batch>, k: nat, relative: nat)
    requires OnBatch(e, bs) && k < |bs| && Off(bs, k) <= relative < Off(bs, k + 1)
    ensures e.relative <= relative <==> e.position <= Pos(bs, k)
  {
    var m: nat :| Marks(e, bs, m);
    if m <= k { Increasing(bs, m, k); } else { Increasing(bs, k + 1, m); Next(bs, k); }
  }

  /** With the greedy index, the scan for an offset starts less than an interval before the batch that holds it. */
  lemma ShortScan(entries: seq<IndexEntry>, bs: seq<Batch>, interval: nat, k: nat, relative: nat, pos: nat)
    requires Indexable(bs) && interval > 0 && entries == Greedy(bs, |bs|, interval)
    requires k < |bs| && Off(bs, k) <= relative < Off(bs, k + 1) && Nearest(entries, relative, pos)
    ensures pos <= Pos(bs, k) < pos + interval
  {
    hide Off, Pos, Greedy, Indexable, OnBatch, Sound, Ordered;
    GreedySound(bs, |bs|, interval);
    assert bs[..|bs|] == bs;
    SoundParts(entries, bs);
    var i :| 0 <= i < |entries| && entries[i].position == pos && entries[i].relative <= relative;
    EntryBefore(entries[i], bs, k, relative);
    if i + 1 < |entries| {
      EntryBefore(entries[i + 1], bs, k, relative);
      OrderedApart(entries, i, i + 1);
    }
    GreedyNear(bs, |bs|, interval, k, i);
  }

  /** Where the scan starts: at the batch of the last index entry not past the current offset. */
  method StartOf(size: nat, base: nat, entries: seq<IndexEntry>, curr: nat,
                 ghost bytes: seq<byte>, ghost bs: seq<Batch>, ghost flat: seq<StoredRecord>)
    returns (pos: nat, ghost k: nat)
    requires Placed(bytes, size, base, entries, bs, flat) && base <= curr
    ensures k <= |bs| && pos == Pos(bs, k) && base + Off(bs, k) <= curr
    ensures Nearest(entries, curr - base, pos)
  {
    hide Placed, Pos, Off;
    PlacedIndex(bytes, size, base, entries, bs, flat);
    var keys := seq(|entries|, j requires 0 <= j < |entries| => base + entries[j].relative);
    forall i, j | 0 <= i < j < |keys|
      ensures keys[i] <= keys[j]
    {
      OrderedApart(entries, i, j);
    }
    if entries != [] {
      assert InPlace(entries, 0);
      assert keys[0] <= curr;
    }
    var idx := FindFirst(keys, curr);
    PosZero(bs);
    if idx > 0 {
      pos := entries[idx - 1].position;
      assert keys[idx - 1] <= curr;
      k :| Marks(entries[idx - 1], bs, k);
      forall j | 0 <= j < idx - 1
        ensures entries[j].position <= pos
      {
        OrderedApart(entries, j, idx - 1);
      }
      assert forall j | idx <= j < |entries| :: keys[j] == base + entries[j].relative;
    } else {
      pos, k := 0, 0;
    }
  }

  lemma PlacedIndex(bytes: seq<byte>, size: nat, base: nat, entries: seq<IndexEntry>, bs: seq<Batch>,
                    flat: seq<StoredRecord>)
    requires Placed(bytes, size, base, entries, bs, flat)
    ensures Ordered(entries) && (forall i | 0 <= i < |entries| :: OnBatch(entries[i], bs)) && size == Size(bs)
    ensures base + Count(bs) <= |flat| && size <= |bytes| && forall i | 0 <= i < |flat| :: flat[i].offset == i
  {
    hide Run, Pos, Off, Flatten, LogBytes, OnBatch;
    LogLength(bs);
  }

  /** Scans forward from the index entry, batch by batch, to the end of the segment or of the budget. */
  method ReadSegment(bytes: seq<byte>, size: nat, base: nat, entries: seq<IndexEntry>,
                     curr: nat, out: seq<StoredRecord>, used: nat, budget: int,
                     ghost bs: seq<Batch>, ghost flat: seq<StoredRecord>, ghost offset: nat)
    returns (ok: bool, curr': nat, out': seq<StoredRecord>, used': nat, full: bool)
    requires Placed(bytes, size, base, entries, bs, flat) && base <= curr
    requires Collected(flat, offset, curr, out, used, budget)
    ensures ok && Collected(flat, offset, curr', out', used', budget)
    ensures full ==> Full(flat, curr', out', used', budget)
    ensures !full ==> base + Count(bs) <= curr'
  {
    hide Placed, Collected, Full, Decode, HeaderLength, Pos, Off, ValidBatch;
    PlacedIndex(bytes, size, base, entries, bs, flat);
    ok, curr', out', used', full := true, curr, out, used, false;
    var pos: nat;
    ghost var k: nat;
    pos, k := StartOf(size, base, entries, curr, bytes, bs, flat);
    while pos < size
      invariant k <= |bs| && pos == Pos(bs, k) && base + Off(bs, k) <= curr'
      invariant Collected(flat, offset, curr', out', used', budget) && ok && !full
      decreases size - pos
    {
      PlaceAt(bytes, size, base, entries, bs, flat, k, pos);
      ScanAt(bytes, bs[k], base + Off(bs, k), pos);
      if pos + 9 > size {
        return false, curr', out', used', false;
      }
      var total := 9 + HeaderLength(bytes[pos..pos + 9]);
      if pos + total > size {
        return false, curr', out', used', false;
      }
      var d := DecodeBatch(bytes[pos..pos + total]);
      if !d.Records? {
        return false, curr', out', used', false;
      }
      curr', out', used', full := CollectBatch(d.records, curr', out', used', budget, flat, offset, base + Off(bs, k));
      if full {
        return;
      }
      pos, k := pos + total, k + 1;
    }
    EndOfLog(bs, k, size);
  }

  lemma EndOfLog(bs: seq<Batch>, k: nat, size: nat)
    requires k <= |bs| && size == Size(bs) <= Pos(bs, k)
    ensures Off(bs, k) == Count(bs)
  {
    Same(bs, k, |bs|);
  }
}
