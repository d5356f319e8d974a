/** Restarts without a loss: the store afterwards is the store before, and decides the same. */
module Restart {
  import opened Bytes
  import opened Batches
  import opened Recovery
  import opened Index
  import opened IndexRecovery
  import opened SegmentFile
  import opened StoreState
  import opened StoreSteps
  import opened Appending
  import opened Placement
  import opened Crash
  import LogSpec

  /** All that later operations look at, except what is known to be synced. */
  function Working(g: SegState): (nat, nat, nat, seq<byte>, seq<byte>, seq<IndexEntry>, int, nat, int64) {
    (g.base, g.next, g.size, g.log.bytes, g.index.bytes, g.entries, g.lastIndexed, g.indexSize, g.latest)
  }

  /** The same segments, index entries and offsets; what is synced, and the flags, may differ. */
  ghost predicate SameState(s: Store, s': Store) {
    && |s.front| == |s'.front| && s.logEnd == s'.logEnd && s.earliest == s'.earliest
    && forall i | 0 <= i <= |s.front| :: Working(Seg(s, i)) == Working(Seg(s', i))
  }

  // ------------------------------------------------------------------ reopening

  /** The index is small enough to be read back, or as a rebuild makes it. */
  ghost predicate Reread(g: SegState, lim: Limits) {
    |g.index.bytes| <= MAX_INDEX_SIZE || GreedyEntries(g.entries, g.batches, lim.interval)
  }

  lemma WholeMatches(g: SegState, lim: Limits)
    requires ValidSeg(g, lim) && IndexWhole(g) && |g.index.bytes| <= MAX_INDEX_SIZE
    ensures Size(g.batches) <= |g.log.bytes| && Readable(g.index.bytes) && Entries(g.index.bytes) == g.entries
    ensures IndexMatches(g.log.bytes, g.entries, Size(g.batches), g.base)
  {
    hide Run, EntriesOn, Latest, Greedy, GreedyEntries, IndexMatches, Pos, Off, LogBytes, Sound, IndexBytes;
    EntriesOfIndex(g.entries);
    SoundParts(g.entries, g.batches);
    LogLength(g.batches);
    forall i | 0 <= i < |g.entries|
      ensures g.entries[i].position <= MAX_INT64
    {
      BeforeEnd(g.entries[i], g.batches);
    }
    SoundMatches(g.log.bytes, g.entries, g.batches, g.base);
  }

  /** An index file in sync is read back, or else rebuilt: the same if and only if it can be reread. */
  lemma IndexKept(g: SegState, r: SegState, lim: Limits)
    requires ValidSeg(g, lim) && IndexWhole(g) && IndexRecovered(r, g.index.bytes, lim)
    requires r.batches == g.batches && r.base == g.base && r.log.bytes == g.log.bytes
    ensures r.entries == g.entries <==> Reread(g, lim)
    ensures Reread(g, lim) ==> r.index.bytes == g.index.bytes
  {
    hide ValidSeg, IndexMatches, Greedy, IndexBytes, Entries, Pos, Off;
    if |g.index.bytes| <= MAX_INDEX_SIZE {
      WholeMatches(g, lim);
    }
  }

  /** A valid segment with nothing after its batches and a whole index file has no other freedom. */
  lemma WorkingDetermined(g: SegState, r: SegState, lim: Limits)
    requires ValidSeg(g, lim) && ValidSeg(r, lim) && r.batches == g.batches && r.base == g.base
    requires r.entries == g.entries && r.index.bytes == g.index.bytes && |g.index.bytes| % 12 == 0
    requires r.log.bytes == g.log.bytes
    ensures Working(r) == Working(g)
  {
    hide Fitting, EntriesOn, GreedyEntries, Latest, Pos, Off, LogBytes, Sound;
    LogLength(g.batches);
  }

  lemma SameLog(g: SegState, r: SegState, lim: Limits)
    requires ValidSeg(g, lim) && ValidSeg(r, lim) && r.batches == g.batches
    requires |g.log.bytes| == g.size && |r.log.bytes| == r.size
    ensures r.log.bytes == g.log.bytes
  {
    hide Fitting, EntriesOn, GreedyEntries, Latest, Pos, Off, LogBytes, Sound;
    LogLength(g.batches);
  }

  /** One segment of a clean restart. */
  lemma SegKept(g: SegState, dir: Directory, last: bool, r: SegState, lim: Limits)
    requires ValidSeg(g, lim) && |g.log.bytes| == g.size && IndexWhole(g)
    requires g.base in dir && dir[g.base].log.bytes == g.log.bytes && dir[g.base].index.bytes == g.index.bytes
    requires RecoveredSeg(Image(g.base, g.batches), dir, r, last, lim)
    ensures Working(r) == Working(g) <==> Reread(g, lim)
    ensures r.batches == g.batches
  {
    hide ValidSeg, WholeBatches, IndexRecovered, Pos, Reread;
    SegSizes(g, lim);
    WholeBatchesExact(g.batches, |g.log.bytes|, |g.batches|);
    assert g.batches[..|g.batches|] == g.batches;
    SameLog(g, r, lim);
    IndexKept(g, r, lim);
    if Reread(g, lim) {
      WorkingDetermined(g, r, lim);
    }
  }

  lemma CleanRestart(s: Store, dir: Directory, rec: seq<SegState>, i: nat, lim: Limits)
    requires ValidStore(s, lim) && !s.poisoned && Untouched(s, dir) && i <= |s.front| && IndexWhole(Seg(s, i))
    requires RecoveredSegs(s, dir, rec, lim)
    ensures |rec| == |s.front| + 1 && (Working(rec[i]) == Working(Seg(s, i)) <==> Reread(Seg(s, i), lim))
  {
    hide ValidSeg, Run, RecoveredSeg, ValidTail, IndexWhole, Working, Reread;
    var g := Seg(s, i);
    assert Images(s)[i].base == g.base;
    assert s.active.batches + [] == s.active.batches;
    assert Images(s)[i] == Image(g.base, g.batches);
    assert RecoveredSeg(Images(s)[i], dir, rec[i], i == |rec| - 1, lim);
    SegValid(s, i, lim);
    if i < |s.front| {
      FrontUpTo(s.front, s.active.base, i, lim);
    } else {
      Healthy(s, lim);
    }
    SegKept(g, dir, i == |rec| - 1, rec[i], lim);
  }

  lemma MirroredAt(s: Store, i: nat)
    requires Mirrored(s) && i <= |s.front|
    ensures IndexWhole(Seg(s, i))
  {
    hide IndexWhole;
  }

  ghost predicate AllReread(s: Store, lim: Limits) {
    forall i | 0 <= i <= |s.front| :: Reread(Seg(s, i), lim)
  }

  /** A clean restart of a store whose index writes were all complete gives the whole state back if and only if
      no index is both too large to be read back and other than a rebuild makes it. */
  lemma CleanReopen(s: Store, dir: Directory, rec: seq<SegState>, lim: Limits)
    requires ValidStore(s, lim) && !s.poisoned && Mirrored(s) && Untouched(s, dir) && RecoveredSegs(s, dir, rec, lim)
    ensures rec != [] && LogSpec.KillStep(Model(s), Model(Reopened(s, rec)))
    ensures SameState(s, Reopened(s, rec)) <==> AllReread(s, lim)
  {
    hide ValidStore, Untouched, RecoveredSegs, IndexWhole, Model, Working, Reread, Mirrored, Reopened;
    MirroredAt(s, 0);
    CleanRestart(s, dir, rec, 0, lim);
    forall i | 0 <= i <= |s.front|
      ensures Working(rec[i]) == Working(Seg(s, i)) <==> Reread(Seg(s, i), lim)
    {
      MirroredAt(s, i);
      CleanRestart(s, dir, rec, i, lim);
    }
    SameWhole(s, rec, lim);
    UntouchedLog(s, dir);
    ReopenedModel(s, dir, rec, lim);
  }

  lemma SameWhole(s: Store, rec: seq<SegState>, lim: Limits)
    requires ValidStore(s, lim) && |rec| == |s.front| + 1
    ensures SameState(s, Reopened(s, rec)) <==> forall i | 0 <= i <= |s.front| :: Working(rec[i]) == Working(Seg(s, i))
  {
    hide ValidStore;
    var r := Reopened(s, rec);
    assert forall i | 0 <= i <= |s.front| :: Seg(r, i) == rec[i];
    if forall i | 0 <= i <= |s.front| :: Working(rec[i]) == Working(Seg(s, i)) {
      assert Working(rec[0]) == Working(Seg(s, 0)) && Working(rec[|s.front|]) == Working(Seg(s, |s.front|));
      FirstSegment(s, lim);
      SegValid(s, |s.front|, lim);
    }
  }

  /** What recovery leaves can be reread. */
  lemma RecoveredReread(m: Image, dir: Directory, g: SegState, last: bool, lim: Limits)
    requires RecoveredSeg(m, dir, g, last, lim)
    ensures Reread(g, lim)
  {
    hide ValidSeg, WholeBatches, Greedy, IndexMatches, IndexBytes, Pos, Off, EntryOf;
  }

  /** Whatever the first recovery found, a second one changes nothing. */
  lemma SecondReopen(s: Store, dir: Directory, rec: seq<SegState>, dir': Directory, rec': seq<SegState>, lim: Limits)
    requires ValidStore(s, lim) && RecoveredSegs(s, dir, rec, lim) && rec != []
    requires Untouched(Reopened(s, rec), dir') && RecoveredSegs(Reopened(s, rec), dir', rec', lim)
    ensures rec' != [] && SameState(Reopened(s, rec), Reopened(Reopened(s, rec), rec'))
  {
    hide ValidStore, Untouched, Mirrored, Reread, RecoveredSeg, Images;
    var s1 := Reopened(s, rec);
    ReopenedValid(s, dir, rec, lim);
    ReopenedMirrors(s, dir, rec, lim);
    forall i | 0 <= i <= |s1.front|
      ensures Reread(Seg(s1, i), lim)
    {
      assert RecoveredSeg(Images(s)[i], dir, rec[i], i == |rec| - 1, lim);
      RecoveredReread(Images(s)[i], dir, rec[i], i == |rec| - 1, lim);
    }
    CleanReopen(s1, dir', rec', lim);
  }
}
