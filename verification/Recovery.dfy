/** Scanning a log file batch by batch, as recoverSegment does (internal/storage/store.go:447-538). */
module Recovery {
  import opened Bytes
  import opened Format
  import opened RoundTrip
  import opened Batches

  datatype ScanError =
    | TornHeader | TornPayload | WrongMagic | WrongVersion | ShortLength | TooLarge
    | Undecodable | NoRecords | Discontinuity

  /** The batches of a file and the size they fill, or why the file is refused. */
  datatype Scanned = Intact(batches: seq<Batch>, size: nat) | Broken(error: ScanError)

  predicate Continuous(rs: seq<StoredRecord>, start: nat) {
    forall j | 0 <= j < |rs| :: rs[j].offset == start + j
  }

  /** The largest timestamp in the batches, but at least 0. */
  function Latest(bs: seq<Batch>): (m: int64)
    ensures m >= 0
  {
    if bs == [] then 0 else
      var (m, t) := (Latest(bs[..|bs| - 1]), MaxTimestamp(bs[|bs| - 1].records));
      if t > m then t else m
  }

  /** A batch at a position: its records, the end of the usable file, or an error. */
  datatype Step = Found(batch: Batch) | Tail | Stop(error: ScanError)

  function ScanBatch(bytes: seq<byte>, pos: nat, expected: nat, active: bool, maxBatch: nat): Step
    requires pos < |bytes|
  {
    if pos + 9 > |bytes| then if active then Tail else Stop(TornHeader)
    else
      var head := bytes[pos..pos + 9];
      var total := 9 + HeaderLength(head);
      if head[..4] != MAGIC then Stop(WrongMagic)
      else if head[4] != VERSION then Stop(WrongVersion)
      else if HeaderLength(head) < MINIMUM_BATCH_REMAINDER then Stop(ShortLength)
      else if total > maxBatch then Stop(TooLarge)
      else if pos + total > |bytes| then if active then Tail else Stop(TornPayload)
      else
        var d := Decode(bytes[pos..pos + total]);
        if !d.Records? then Stop(Undecodable)
        else if d.records == [] then Stop(NoRecords)
        else if !Continuous(d.records, expected) then Stop(Discontinuity)
        else if total < BATCH_HEADER_SIZE + MINIMUM_RECORD_SIZE then assert false; Tail
        else Found(RawBatch(d.records, bytes[pos..pos + total]))
  }

  /** The rest of a file from a position on. Only the active segment may end in a torn batch. */
  function Scan(bytes: seq<byte>, pos: nat, expected: nat, active: bool, maxBatch: nat): (s: Scanned)
    requires pos <= |bytes|
    ensures s.Intact? ==> pos <= s.size <= |bytes|
    decreases |bytes| - pos
  {
    if pos == |bytes| then Intact([], pos)
    else
      match ScanBatch(bytes, pos, expected, active, maxBatch)
      case Tail => Intact([], pos)
      case Stop(e) => Broken(e)
      case Found(b) => (
        match Scan(bytes, pos + |b.bytes|, expected + |b.records|, active, maxBatch)
        case Intact(bs, end) => Intact([b] + bs, end)
        case Broken(e) => Broken(e))
  }

  /** At a written batch, whole or cut short, the scan finds the batch or the tail. */
  lemma ScanWhole(b: Batch, start: nat, bytes: seq<byte>, pos: nat, active: bool, maxBatch: nat)
    requires ValidBatch(b, start) && |b.bytes| <= maxBatch
    requires pos + |b.bytes| <= |bytes| && bytes[pos..pos + |b.bytes|] == b.bytes
    ensures ScanBatch(bytes, pos, start, active, maxBatch) == Found(b)
  {
    hide Decode, HeaderLength, HeaderBase, HeaderTimestamp, Encode, Encodable, Normal;
    var head := bytes[pos..pos + 9];
    assert head[..9] == head == b.bytes[..9];
    PrefixReads(b, start, head);
    BatchReads(b, start, b.bytes);
  }

  lemma ScanTorn(b: Batch, start: nat, bytes: seq<byte>, pos: nat, maxBatch: nat)
    requires ValidBatch(b, start) && |b.bytes| <= maxBatch
    requires pos < |bytes| < pos + |b.bytes| && bytes[pos..] == b.bytes[..|bytes| - pos]
    ensures ScanBatch(bytes, pos, start, true, maxBatch) == Tail
  {
    hide ValidBatch, Decode, HeaderLength;
    if pos + 9 <= |bytes| {
      var head := bytes[pos..pos + 9];
      assert head[..9] == head == bytes[pos..][..9] == b.bytes[..9];
      PrefixReads(b, start, head);
    }
  }

  lemma ScanEnd(bytes: seq<byte>, expected: nat, active: bool, maxBatch: nat)
    ensures Scan(bytes, |bytes|, expected, active, maxBatch) == Intact([], |bytes|)
  {
  }

  /** What is scanned so far, in front of the rest. */
  function AfterScan(done: seq<Batch>, s: Scanned): Scanned {
    match s
    case Intact(bs, size) => Intact(done + bs, size)
    case Broken(e) => Broken(e)
  }

  /** One step of the scan. */
  lemma ScanStep(bytes: seq<byte>, pos: nat, expected: nat, active: bool, maxBatch: nat)
    requires pos < |bytes|
    ensures match ScanBatch(bytes, pos, expected, active, maxBatch)
            case Tail => Scan(bytes, pos, expected, active, maxBatch) == Intact([], pos)
            case Stop(e) => Scan(bytes, pos, expected, active, maxBatch) == Broken(e)
            case Found(b) =>
              && pos + |b.bytes| <= |bytes|
              && Scan(bytes, pos, expected, active, maxBatch) ==
                 AfterScan([b], Scan(bytes, pos + |b.bytes|, expected + |b.records|, active, maxBatch))
  {
    hide Decode, HeaderLength, Continuous;
  }

  /** A log file cut anywhere scans to its whole batches, from any of them on. */
  lemma {:induction false} ScanCut(bs: seq<Batch>, bytes: seq<byte>, k: nat, n: nat, base: nat, active: bool,
                                   maxBatch: nat)
    requires Run(bs, base) && bytes <= LogBytes(bs)
    requires forall b <- bs :: |b.bytes| <= maxBatch
    requires k <= n <= |bs| && Pos(bs, k) <= Pos(bs, n) <= |bytes|
    requires n < |bs| ==> |bytes| < Pos(bs, n + 1)
    requires active || |bytes| == Pos(bs, n)
    ensures Scan(bytes, Pos(bs, k), base + Off(bs, k), active, maxBatch) == Intact(bs[k..n], Pos(bs, n))
    decreases |bs| - k
  {
    hide ValidBatch, Run, LogBytes, ScanBatch, Pos, Off, Scan;
    LogLength(bs);
    if Pos(bs, k) < |bytes| {
      ScanStep(bytes, Pos(bs, k), base + Off(bs, k), active, maxBatch);
    } else {
      ScanEnd(bytes, base + Off(bs, k), active, maxBatch);
    }
    if k < n {
      RunAt(bs, base, k);
      Next(bs, k);
      Increasing(bs, k + 1, n);
      BatchAtCut(bs, bytes, k);
      ScanWhole(bs[k], base + Off(bs, k), bytes, Pos(bs, k), active, maxBatch);
      ScanCut(bs, bytes, k + 1, n, base, active, maxBatch);
      assert bs[k..n] == [bs[k]] + bs[k + 1..n];
    } else if Pos(bs, n) < |bytes| {
      RunAt(bs, base, n);
      BatchAtCut(bs, bytes, n);
      Next(bs, n);
      ScanTorn(bs[n], base + Off(bs, n), bytes, Pos(bs, n), maxBatch);
    }
  }

  /** What the scan of any file at all says of a batch it found. */
  ghost predicate Checked(b: Batch, start: nat, maxBatch: nat) {
    Decode(b.bytes) == Records(b.records) && Continuous(b.records, start) && |b.bytes| <= maxBatch
  }

  lemma FoundChecked(bytes: seq<byte>, pos: nat, expected: nat, active: bool, maxBatch: nat)
    requires pos < |bytes| && ScanBatch(bytes, pos, expected, active, maxBatch).Found?
    ensures var b := ScanBatch(bytes, pos, expected, active, maxBatch).batch;
            && pos + |b.bytes| <= |bytes| && b.bytes == bytes[pos..pos + |b.bytes|] && Checked(b, expected, maxBatch)
  {
    hide Decode, Continuous, HeaderLength;
  }

  lemma TailActive(bytes: seq<byte>, pos: nat, expected: nat, active: bool, maxBatch: nat)
    requires pos < |bytes| && ScanBatch(bytes, pos, expected, active, maxBatch).Tail?
    ensures active
  {
    hide Continuous;
  }

  /** From `pos` to `size` the file is these batches: each decodes, and the offsets are consecutive. */
  ghost predicate Intactly(bytes: seq<byte>, pos: nat, size: nat, bs: seq<Batch>, expected: nat, maxBatch: nat) {
    && size == pos + Size(bs) && size <= |bytes| && bytes[pos..size] == LogBytes(bs)
    && forall k | 0 <= k < |bs| :: Checked(bs[k], expected + Off(bs, k), maxBatch)
  }

  lemma IntactlyMore(bytes: seq<byte>, pos: nat, size: nat, b: Batch, bs: seq<Batch>, expected: nat, maxBatch: nat)
    requires pos + |b.bytes| <= |bytes| && b.bytes == bytes[pos..pos + |b.bytes|] && Checked(b, expected, maxBatch)
    requires Intactly(bytes, pos + |b.bytes|, size, bs, expected + |b.records|, maxBatch)
    ensures Intactly(bytes, pos, size, [b] + bs, expected, maxBatch)
  {
    hide Checked, Pos, Off, LogPrefix, Size, LogBytes;
    FrontLog(b, bs);
    assert bytes[pos..size] == bytes[pos..pos + |b.bytes|] + bytes[pos + |b.bytes|..size];
    forall k | 0 <= k < |[b] + bs|
      ensures Checked(([b] + bs)[k], expected + Off([b] + bs, k), maxBatch)
    {
      FrontAt(b, bs, k);
    }
  }

  lemma IntactlyNone(bytes: seq<byte>, pos: nat, expected: nat, maxBatch: nat)
    requires pos <= |bytes|
    ensures Intactly(bytes, pos, pos, [], expected, maxBatch)
  {
  }

  /** An accepted file, whoever wrote it, is its batches; only in the active segment is anything left over. */
  lemma {:induction false} ScanSound(bytes: seq<byte>, pos: nat, expected: nat, active: bool, maxBatch: nat)
    requires pos <= |bytes| && Scan(bytes, pos, expected, active, maxBatch).Intact?
    ensures var s := Scan(bytes, pos, expected, active, maxBatch);
            Intactly(bytes, pos, s.size, s.batches, expected, maxBatch) && (!active ==> s.size == |bytes|)
    decreases |bytes| - pos
  {
    hide ScanBatch, Checked, Scan, Intactly;
    if pos == |bytes| {
      ScanEnd(bytes, expected, active, maxBatch);
      IntactlyNone(bytes, pos, expected, maxBatch);
    } else {
      ScanStep(bytes, pos, expected, active, maxBatch);
      var step := ScanBatch(bytes, pos, expected, active, maxBatch);
      if step.Tail? {
        TailActive(bytes, pos, expected, active, maxBatch);
        IntactlyNone(bytes, pos, expected, maxBatch);
      } else {
        var b := step.batch;
        FoundChecked(bytes, pos, expected, active, maxBatch);
        ScanSound(bytes, pos + |b.bytes|, expected + |b.records|, active, maxBatch);
        var rest := Scan(bytes, pos + |b.bytes|, expected + |b.records|, active, maxBatch);
        IntactlyMore(bytes, pos, rest.size, b, rest.batches, expected, maxBatch);
      }
    }
  }

  /** Positions and offsets behind a further first batch. */
  lemma {:induction false} FrontAt(b: Batch, bs: seq<Batch>, k: nat)
    requires k <= |bs| + 1
    ensures var all := [b] + bs;
            && Off(all, k) == (if k == 0 then 0 else |b.records| + Off(bs, k - 1))
            && Pos(all, k) == (if k == 0 then 0 else |b.bytes| + Pos(bs, k - 1))
            && LogPrefix(all, k) == (if k == 0 then [] else b.bytes + LogPrefix(bs, k - 1))
  {
    if k > 0 {
      FrontAt(b, bs, k - 1);
      if k == 1 {
        assert [] + b.bytes == b.bytes + [];
      } else {
        assert ([b] + bs)[k - 1] == bs[k - 2];
        assert b.bytes + LogPrefix(bs, k - 2) + bs[k - 2].bytes == b.bytes + (LogPrefix(bs, k - 2) + bs[k - 2].bytes);
      }
    }
  }

  lemma FrontLog(b: Batch, bs: seq<Batch>)
    ensures Size([b] + bs) == |b.bytes| + Size(bs) && LogBytes([b] + bs) == b.bytes + LogBytes(bs)
  {
    hide Pos, Off, LogPrefix;
    FrontAt(b, bs, |bs| + 1);
  }

  lemma PosZero(bs: seq<Batch>)
    ensures Pos(bs, 0) == 0 && Off(bs, 0) == 0 && Latest(bs[..0]) == 0
  {
  }

  /** A scan that fails behind whole batches fails. */
  lemma {:induction false} ScanReach(bs: seq<Batch>, bytes: seq<byte>, j: nat, k: nat, base: nat, active: bool,
                                     maxBatch: nat)
    requires Run(bs, base) && (forall b <- bs :: |b.bytes| <= maxBatch) && j <= k <= |bs|
    requires Pos(bs, j) <= Pos(bs, k) <= |bytes| && bytes[..Pos(bs, k)] <= LogBytes(bs)
    requires Scan(bytes, Pos(bs, k), base + Off(bs, k), active, maxBatch).Broken?
    ensures Scan(bytes, Pos(bs, j), base + Off(bs, j), active, maxBatch).Broken?
    decreases k - j
  {
    hide ValidBatch, Run, LogBytes, ScanBatch, Pos, Off, Scan;
    if j < k {
      var cut := bytes[..Pos(bs, k)];
      RunAt(bs, base, j);
      Next(bs, j);
      Increasing(bs, j + 1, k);
      BatchAtCut(bs, cut, j);
      assert cut[Pos(bs, j)..Pos(bs, j + 1)] == bytes[Pos(bs, j)..Pos(bs, j + 1)];
      ScanWhole(bs[j], base + Off(bs, j), bytes, Pos(bs, j), active, maxBatch);
      ScanStep(bytes, Pos(bs, j), base + Off(bs, j), active, maxBatch);
      ScanReach(bs, bytes, j + 1, k, base, active, maxBatch);
    }
  }

  /** A closed segment that ends inside a batch is refused. */
  lemma ClosedTorn(bs: seq<Batch>, bytes: seq<byte>, k: nat, base: nat, maxBatch: nat)
    requires Run(bs, base) && (forall b <- bs :: |b.bytes| <= maxBatch) && bytes <= LogBytes(bs)
    requires k < |bs| && Pos(bs, k) < |bytes| < Pos(bs, k + 1)
    ensures Scan(bytes, 0, base, false, maxBatch).Broken?
  {
    hide ValidBatch, Run, LogBytes, ScanBatch, Pos, Off, Scan;
    RunAt(bs, base, k);
    Next(bs, k);
    BatchAtCut(bs, bytes, k);
    TornStops(bs[k], base + Off(bs, k), bytes, Pos(bs, k), maxBatch);
    ScanStep(bytes, Pos(bs, k), base + Off(bs, k), false, maxBatch);
    PosZero(bs);
    Increasing(bs, 0, k);
    ScanReach(bs, bytes, 0, k, base, false, maxBatch);
  }

  lemma TornStops(b: Batch, start: nat, bytes: seq<byte>, pos: nat, maxBatch: nat)
    requires ValidBatch(b, start) && |b.bytes| <= maxBatch
    requires pos < |bytes| < pos + |b.bytes| && bytes[pos..] == b.bytes[..|bytes| - pos]
    ensures ScanBatch(bytes, pos, start, false, maxBatch).Stop?
  {
    hide ValidBatch, Decode, HeaderLength;
    if pos + 9 <= |bytes| {
      var head := bytes[pos..pos + 9];
      assert head[..9] == head == bytes[pos..][..9] == b.bytes[..9];
      PrefixReads(b, start, head);
    }
  }

  function Later(a: int64, b: int64): int64 { if b > a then b else a }

  lemma LatestPush(bs: seq<Batch>, b: Batch)
    ensures Latest(bs + [b]) == Later(Latest(bs), MaxTimestamp(b.records))
  {
    assert (bs + [b])[..|bs|] == bs;
  }

  /** No record is newer, and one is that new unless none is from after 0. */
  ghost predicate Newest(rs: seq<StoredRecord>, m: int) {
    m >= 0 && (forall r <- rs :: r.timestamp <= m) && (m == 0 || exists r <- rs :: r.timestamp == m)
  }

  lemma NewestBoth(rs: seq<StoredRecord>, m: int, more: seq<StoredRecord>, n: int)
    requires Newest(rs, m) && Newest(more, n)
    ensures Newest(rs + more, if n > m then n else m)
  {
    var top := if n > m then n else m;
    if top > 0 {
      var r :| r in (if n > m then more else rs) && r.timestamp == top;
      assert r in rs + more;
    }
  }

  /** What a segment keeps as its newest timestamp is that of its records. */
  lemma {:induction false} LatestNewest(bs: seq<Batch>)
    ensures Newest(Flatten(bs), Latest(bs))
    decreases |bs|
  {
    hide Newest, MaxTimestamp;
    if bs == [] {
      assert Newest([], 0) by { NewestNone(); }
    } else {
      var (front, last) := (bs[..|bs| - 1], bs[|bs| - 1]);
      LatestNewest(front);
      MaxNewest(last.records);
      NewestBoth(Flatten(front), Latest(front), last.records, MaxTimestamp(last.records));
    }
  }

  lemma NewestNone()
    ensures Newest([], 0)
  {
  }

  lemma MaxNewest(rs: seq<StoredRecord>)
    ensures Newest(rs, MaxTimestamp(rs))
  {
  }

  lemma AfterScanTwice(done: seq<Batch>, b: Batch, s: Scanned)
    ensures AfterScan(done, AfterScan([b], s)) == AfterScan(done + [b], s)
  {
    if s.Intact? {
      assert done + ([b] + s.batches) == done + [b] + s.batches;
    }
  }

  /** The scanning loop, with the largest timestamp seen. */
  method ScanLog(bytes: seq<byte>, base: nat, active: bool, maxBatch: nat) returns (s: Scanned, latest: int64)
    ensures s == Scan(bytes, 0, base, active, maxBatch)
    ensures latest >= 0 && (s.Intact? ==> latest == Latest(s.batches) && Newest(Flatten(s.batches), latest))
  {
    hide ScanBatch, Scan, AfterScan, Latest, MaxTimestamp, Newest, Flatten;
    var bs: seq<Batch> := [];
    var pos: nat, expected: nat := 0, base;
    latest := 0;
    LatestNone();
    AfterNothing(Scan(bytes, 0, base, active, maxBatch));
    while pos < |bytes|
      invariant pos <= |bytes|
      invariant latest == Latest(bs)
      invariant Scan(bytes, 0, base, active, maxBatch) == AfterScan(bs, Scan(bytes, pos, expected, active, maxBatch))
      decreases |bytes| - pos
    {
      var step := ScanBatch(bytes, pos, expected, active, maxBatch);
      ScanStep(bytes, pos, expected, active, maxBatch);
      if step.Tail? {
        AfterNone(bs, pos);
        LatestNewest(bs);
        return Intact(bs, pos), latest;
      }
      if step.Stop? {
        AfterBroken(bs, step.error);
        return Broken(step.error), latest;
      }
      var b := step.batch;
      LatestPush(bs, b);
      AfterScanTwice(bs, b, Scan(bytes, pos + |b.bytes|, expected + |b.records|, active, maxBatch));
      latest := Later(latest, MaxTimestamp(b.records));
      bs, pos, expected := bs + [b], pos + |b.bytes|, expected + |b.records|;
    }
    ScanEnd(bytes, expected, active, maxBatch);
    AfterNone(bs, pos);
    LatestNewest(bs);
    s := Intact(bs, pos);
  }

  lemma AfterNothing(s: Scanned)
    ensures AfterScan([], s) == s
  {
    if s.Intact? {
      assert [] + s.batches == s.batches;
    }
  }

  lemma LatestNone()
    ensures Latest([]) == 0
  {
  }

  lemma AfterNone(bs: seq<Batch>, size: nat)
    ensures AfterScan(bs, Intact([], size)) == Intact(bs, size)
  {
    assert bs + [] == bs;
  }

  lemma AfterBroken(bs: seq<Batch>, e: ScanError)
    ensures AfterScan(bs, Broken(e)) == Broken(e)
  {
  }
}
