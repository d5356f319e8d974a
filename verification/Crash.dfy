/** The files a crash may leave behind, and the store that recovery makes of them. */
module Crash {
  import opened Bytes
  import opened Files
  import opened Format
  import opened Batches
  import opened Recovery
  import opened Index
  import opened SegmentFile
  import opened StoreState
  import opened StoreSteps
  import opened Appending
  import opened Placement
  import LogSpec

  datatype SegFiles = SegFiles(log: File, index: File)

  /** A partition directory: the files of each segment, by base offset. A missing index file counts as empty. */
  type Directory = map<nat, SegFiles>

  /** What was written to each segment file, whole or in part: base offset and batches. */
  datatype Image = Image(base: nat, all: seq<Batch>)

  ghost function Tried(s: Store): seq<Batch> {
    s.active.batches + if s.torn.Some? then [s.torn.value] else []
  }

  /** The segment files there are: one per segment, and the empty one a failed rollover left. */
  ghost function Images(s: Store): seq<Image> {
    seq(|s.front|, i requires 0 <= i < |s.front| => Image(s.front[i].base, s.front[i].batches))
    + [Image(s.active.base, Tried(s))] + if s.spare then [Image(s.logEnd, [])] else []
  }

  ghost predicate Bases(s: Store, dir: Directory) {
    forall b :: b in dir <==> exists i | 0 <= i < |Images(s)| :: b == Images(s)[i].base
  }

  /** The directories a crash at this state may leave. */
  ghost predicate MayLeave(s: Store, dir: Directory) {
    && Bases(s, dir)
    && (forall i | 0 <= i <= |s.front| :: Seg(s, i).base in dir ==>
          CutFile(Seg(s, i).log, dir[Seg(s, i).base].log) && CutFile(Seg(s, i).index, dir[Seg(s, i).base].index))
    && (s.spare && s.logEnd in dir ==> dir[s.logEnd] == SegFiles(File([], 0), File([], 0)))
  }

  lemma EntriesOnCut(bytes: seq<byte>, cut: seq<byte>, bs: seq<Batch>)
    requires EntriesOn(bytes, bs) && cut <= bytes
    ensures EntriesOn(cut, bs)
  {
    hide EntryOf, OnBatch;
    forall i | 0 <= i < |cut| / 12
      ensures OnBatch(EntryOf(cut, i), bs)
    {
      assert cut[12 * i..12 * i + 12] == bytes[12 * i..12 * i + 12];
      EntryOfBytes(bytes, i, EntryOf(bytes, i));
      EntryOfBytes(cut, i, EntryOf(bytes, i));
    }
  }

  /** A closed segment loses nothing. */
  lemma ClosedCut(g: SegState, f: SegFiles, lim: Limits)
    requires ValidSeg(g, lim) && ClosedSeg(g) && CutFile(g.log, f.log) && CutFile(g.index, f.index)
    ensures CutFiles(f.log.bytes, f.index.bytes, g.batches, g.base, lim, false)
    ensures f.log == g.log
  {
    hide Fitting, Sound, GreedyEntries, EntriesOn, Latest, Pos;
    LogLength(g.batches);
    EntriesOnCut(g.index.bytes, f.index.bytes, g.batches);
  }

  /** The active segment may lose its unsynced end. */
  lemma ActiveCut(s: Store, f: SegFiles, lim: Limits)
    requires ValidStore(s, lim) && CutFile(s.active.log, f.log) && CutFile(s.active.index, f.index)
    ensures CutFiles(f.log.bytes, f.index.bytes, Tried(s), s.active.base, lim, true)
  {
    hide ValidFront, Run, Fitting, Sound, GreedyEntries, EntriesOn, Latest, Pos, LogBytes, ClosedSeg;
    var g := s.active;
    EntriesOnCut(g.index.bytes, f.index.bytes, g.batches);
    LogLength(g.batches);
    if s.torn.Some? {
      EntriesOnGrow(f.index.bytes, g.batches, s.torn.value);
    } else {
      assert g.batches + [] == g.batches;
    }
  }

  /** Every file a crash leaves is a written log, cut at most in the last one. */
  lemma ImageCut(s: Store, dir: Directory, i: nat, lim: Limits)
    requires ValidStore(s, lim) && MayLeave(s, dir) && i < |Images(s)|
    ensures var m := Images(s)[i];
            && m.base in dir
            && CutFiles(dir[m.base].log.bytes, dir[m.base].index.bytes, m.all, m.base, lim, i == |Images(s)| - 1)
            && dir[m.base].log.synced <= |dir[m.base].log.bytes|
            && dir[m.base].index.synced <= |dir[m.base].index.bytes|
            && (i < |Images(s)| - 1 ==> m.all != [] && dir[m.base].log.synced == |dir[m.base].log.bytes|)
  {
    hide ValidSeg, Run, CutFiles, ValidTail;
    var m := Images(s)[i];
    assert m.base in dir;
    if i < |s.front| {
      FrontUpTo(s.front, s.active.base, i, lim);
      assert m == Image(Seg(s, i).base, Seg(s, i).batches);
      ClosedCut(s.front[i], dir[m.base], lim);
    } else if i == |s.front| {
      assert m == Image(Seg(s, i).base, Tried(s));
      if s.spare {
        ClosedCut(s.active, dir[m.base], lim);
        assert s.active.batches + [] == s.active.batches;
      } else {
        ActiveCut(s, dir[m.base], lim);
      }
    } else {
      EmptyCut(s.logEnd, lim);
    }
  }

  lemma EmptyCut(base: nat, lim: Limits)
    ensures CutFiles([], [], [], base, lim, true)
  {
  }

  /** Segment files tile the log, and their names are in order. */
  lemma ImagesTile(s: Store, i: nat, lim: Limits)
    requires ValidStore(s, lim) && i + 1 < |Images(s)|
    ensures Images(s)[i].base + Count(Images(s)[i].all) == Images(s)[i + 1].base
    ensures Images(s)[i].base < Images(s)[i + 1].base
  {
    hide ValidSeg, Run, Off, ValidTail, Pos;
    SegValid(s, i, lim);
    SegRun(Seg(s, i), lim);
    if i < |s.front| {
      assert Images(s)[i] == Image(s.front[i].base, s.front[i].batches);
    } else {
      assert s.active.batches + [] == s.active.batches;
      Same(s.active.batches, 0, |s.active.batches|);
      PosZero(s.active.batches);
    }
  }

  /** What recovery made of the files: every segment whole, the last cut to its whole batches. */
  ghost predicate RecoveredSegs(s: Store, dir: Directory, rec: seq<SegState>, lim: Limits) {
    && |rec| == |Images(s)|
    && forall i | 0 <= i < |rec| :: RecoveredSeg(Images(s)[i], dir, rec[i], i == |rec| - 1, lim)
  }

  ghost predicate RecoveredSeg(m: Image, dir: Directory, g: SegState, last: bool, lim: Limits) {
    && m.base in dir && g.base == m.base && ValidSeg(g, lim) && g.size == |g.log.bytes| && !g.dirty
    && var f := dir[m.base].log;
       && g.batches == m.all[..WholeBatches(m.all, |m.all|, |f.bytes|)]
       && g.log.synced == (if f.synced < g.size then f.synced else g.size)
       && (!last ==> g.batches == m.all && m.all != [] && g.log.synced == g.size)
       && IndexRecovered(g, dir[m.base].index.bytes, lim)
  }

  ghost predicate IndexRecovered(g: SegState, index: seq<byte>, lim: Limits) {
    && Indexable(g.batches) && Size(g.batches) <= |g.log.bytes|
    && RecoveredIndex(g.entries, index, g.log.bytes, g.batches, g.base, lim.interval)
    && g.index.bytes == IndexBytes(g.entries)
  }

  lemma RecoveredWhole(m: Image, dir: Directory, g: SegState, lim: Limits)
    requires RecoveredSeg(m, dir, g, false, lim)
    ensures g.base == m.base && ValidSeg(g, lim) && g.batches == m.all
  {
    hide ValidSeg, WholeBatches, IndexRecovered;
  }

  /** The store after recovery. */
  function Reopened(s: Store, rec: seq<SegState>): Store
    requires rec != []
  {
    var last := rec[|rec| - 1];
    Store(rec[..|rec| - 1], last, last.next, rec[0].base, false, false, s.gone, None, false)
  }

  lemma ReopenedFront(s: Store, dir: Directory, rec: seq<SegState>, lim: Limits)
    requires ValidStore(s, lim) && RecoveredSegs(s, dir, rec, lim)
    ensures ValidFront(rec[..|rec| - 1], rec[|rec| - 1].base, lim)
  {
    hide ValidStore, ValidSeg, Run, Off;
    var front := rec[..|rec| - 1];
    forall i | 0 <= i < |front|
      ensures ValidSeg(front[i], lim) && ClosedSeg(front[i])
              && front[i].next == NextBase(front, rec[|rec| - 1].base, i + 1)
    {
      assert RecoveredSeg(Images(s)[i], dir, rec[i], false, lim);
      assert RecoveredSeg(Images(s)[i + 1], dir, rec[i + 1], i + 1 == |rec| - 1, lim);
      ImagesTile(s, i, lim);
      SegRun(front[i], lim);
    }
  }

  lemma {:induction false} ChainSame(a: seq<SegState>, b: seq<SegState>)
    requires |a| == |b| && forall i | 0 <= i < |a| :: a[i].batches == b[i].batches
    ensures Chain(a) == Chain(b)
    decreases |a|
  {
    if a != [] {
      ChainSame(a[..|a| - 1], b[..|b| - 1]);
    }
  }

  lemma ReopenedValid(s: Store, dir: Directory, rec: seq<SegState>, lim: Limits)
    requires ValidStore(s, lim) && RecoveredSegs(s, dir, rec, lim)
    ensures rec != [] && ValidStore(Reopened(s, rec), lim)
  {
    hide ValidSeg, Run, Off, ValidFront, ClosedSeg, Fitting, RecoveredSeg;
    var n := |rec| - 1;
    ReopenedFront(s, dir, rec, lim);
    assert RecoveredSeg(Images(s)[n], dir, rec[n], true, lim);
    assert RecoveredSeg(Images(s)[0], dir, rec[0], 0 == n, lim);
    RecoveredParts(Images(s)[n], dir, rec[n], true, lim);
    RecoveredParts(Images(s)[0], dir, rec[0], 0 == n, lim);
    FirstSegment(s, lim);
    assert Images(s)[0].base == s.earliest;
  }

  lemma RecoveredParts(m: Image, dir: Directory, g: SegState, last: bool, lim: Limits)
    requires RecoveredSeg(m, dir, g, last, lim)
    ensures m.base in dir && g.base == m.base && ValidSeg(g, lim) && g.size == |g.log.bytes|
    ensures !g.dirty && IndexWhole(g)
  {
    hide ValidSeg;
  }

  /** Recovery leaves every index file in sync and synced. */
  lemma ReopenedMirrors(s: Store, dir: Directory, rec: seq<SegState>, lim: Limits)
    requires RecoveredSegs(s, dir, rec, lim) && rec != []
    ensures Mirrored(Reopened(s, rec)) && forall g <- rec :: !g.dirty
  {
    hide ValidSeg, IndexWhole, RecoveredSeg, Images;
    forall i | 0 <= i < |rec|
      ensures IndexWhole(rec[i]) && !rec[i].dirty
    {
      assert RecoveredSeg(Images(s)[i], dir, rec[i], i == |rec| - 1, lim);
      RecoveredParts(Images(s)[i], dir, rec[i], i == |rec| - 1, lim);
    }
  }

  /** Recovery keeps what was durable, and knows how much is. */
  lemma DurableKept(bs: seq<Batch>, all: seq<Batch>, synced: nat, f: File, g: SegState)
    requires bs <= all && synced <= f.synced <= |f.bytes|
    requires g.batches == all[..WholeBatches(all, |all|, |f.bytes|)]
    requires g.size == Size(g.batches) && g.log.synced == if f.synced < g.size then f.synced else g.size
    ensures WholeBatches(bs, |bs|, synced) <= Durable(g) <= |g.batches|
    ensures f.synced == |f.bytes| ==> Durable(g) == |g.batches|
    ensures Size(bs) <= |f.bytes| ==> bs <= g.batches
  {
    hide Pos, WholeBatches, Off, LogPrefix;
    var (w, d) := (WholeBatches(all, |all|, |f.bytes|), WholeBatches(bs, |bs|, synced));
    Agree(bs, all, d);
    Agree(bs, all, |bs|);
    WholeBatchesAtLeast(all, |f.bytes|, d);
    Agree(all[..w], all, d);
    Agree(all[..w], all, w);
    Increasing(all, d, w);
    WholeBatchesAtLeast(g.batches, g.log.synced, d);
    if f.synced == |f.bytes| {
      WholeBatchesAtLeast(g.batches, g.log.synced, w);
    }
    if Size(bs) <= |f.bytes| {
      WholeBatchesAtLeast(all, |f.bytes|, |bs|);
    }
  }

  /** The last file, when it is the active segment's. */
  lemma ReopenedActive(s: Store, dir: Directory, g: SegState, lim: Limits)
    requires ValidStore(s, lim) && MayLeave(s, dir) && !s.spare
    requires RecoveredSeg(Image(s.active.base, Tried(s)), dir, g, true, lim)
    ensures g.batches <= Tried(s) && Durable(s.active) <= Durable(g) <= |g.batches|
    ensures var f := dir[s.active.base].log;
            && (f.synced == |f.bytes| ==> Durable(g) == |g.batches|)
            && (f.bytes == s.active.log.bytes ==> s.active.batches <= g.batches)
  {
    hide ValidSeg, ValidFront, Run, Off, WholeBatches, ValidTail, Pos;
    assert Seg(s, |s.front|) == s.active;
    SegSizes(g, lim);
    SegSizes(s.active, lim);
    DurableKept(s.active.batches, Tried(s), s.active.log.synced, dir[s.active.base].log, g);
  }

  lemma ReopenedBefore(s: Store, dir: Directory, rec: seq<SegState>, lim: Limits)
    requires ValidStore(s, lim) && RecoveredSegs(s, dir, rec, lim)
    ensures rec != []
    ensures Chain(rec[..|rec| - 1]) == if s.spare then Chain(s.front) + s.active.batches else Chain(s.front)
  {
    hide ValidSeg, ValidFront, Run, Off, Chain, ValidTail;
    var front := if s.spare then s.front + [s.active] else s.front;
    forall i | 0 <= i < |front|
      ensures rec[i].batches == front[i].batches
    {
      assert RecoveredSeg(Images(s)[i], dir, rec[i], false, lim);
      if i == |s.front| {
        assert s.active.batches + [] == s.active.batches;
      }
    }
    ChainSame(rec[..|rec| - 1], front);
    ChainPush(s.front, s.active);
  }

  /** Recovery is a restart of the log: a beginning of what was attempted, with all that was durable.
      After a power loss all of it is durable; if nothing was lost, the whole history is there. */
  lemma ReopenedModel(s: Store, dir: Directory, rec: seq<SegState>, lim: Limits)
    requires ValidStore(s, lim) && MayLeave(s, dir) && RecoveredSegs(s, dir, rec, lim)
    ensures rec != [] && LogSpec.RestartStep(Model(s), Model(Reopened(s, rec)))
    ensures s.active.base in dir
    ensures dir[s.active.base].log.synced == |dir[s.active.base].log.bytes| ==>
              LogSpec.PowerLossStep(Model(s), Model(Reopened(s, rec)))
    ensures dir[s.active.base].log.bytes == s.active.log.bytes ==>
              LogSpec.KillStep(Model(s), Model(Reopened(s, rec)))
  {
    hide ValidSeg, ValidFront, Run, Off, Chain, ValidTail, WholeBatches, Pos, RecoveredSeg, MayLeave, ClosedSeg;
    ReopenedBefore(s, dir, rec, lim);
    var n := |rec| - 1;
    var (l, l') := (Model(s), Model(Reopened(s, rec)));
    assert RecoveredSeg(Images(s)[n], dir, rec[n], true, lim);
    ActiveNamed(s, dir);
    if s.spare {
      SpareRestart(s, dir, rec[n], lim);
      assert Before(Reopened(s, rec)) + [] == s.gone + (Chain(s.front) + s.active.batches) == l.history;
    } else {
      ReopenedActive(s, dir, rec[n], lim);
      assert Before(Reopened(s, rec)) == Before(s);
      assert LogSpec.Attempted(l) == Before(s) + Tried(s);
    }
  }

  lemma ActiveNamed(s: Store, dir: Directory)
    requires MayLeave(s, dir)
    ensures s.active.base in dir
  {
    assert Images(s)[|s.front|].base == s.active.base;
  }

  lemma SpareRestart(s: Store, dir: Directory, g: SegState, lim: Limits)
    requires ValidStore(s, lim) && s.spare && RecoveredSeg(Image(s.logEnd, []), dir, g, true, lim)
    ensures g.batches == [] && Durable(g) == 0 && Durable(s.active) == |s.active.batches| && s.torn.None?
  {
    hide ValidSeg, ValidFront, Run, Off, Pos;
    SegSizes(s.active, lim);
    DurableAll(s.active);
  }

  // ------------------------------------------------------- listing the directory

  predicate Ascending(a: seq<nat>) {
    forall i, j | 0 <= i < j < |a| :: a[i] < a[j]
  }

  /** The base offsets in a directory, sorted. */
  ghost predicate Listing(dir: Directory, bases: seq<nat>) {
    Ascending(bases) && forall b :: b in bases <==> b in dir
  }

  lemma AscendingHead(a: seq<nat>, b: seq<nat>)
    requires Ascending(a) && Ascending(b) && a != [] && b != [] && a[0] in b && b[0] in a
    ensures a[0] == b[0]
  {
  }

  lemma TailElements(a: seq<nat>, x: nat)
    requires Ascending(a) && a != []
    ensures x in a[1..] <==> x in a && x != a[0]
  {
    assert a == [a[0]] + a[1..];
  }

  lemma {:induction false} AscendingUnique(a: seq<nat>, b: seq<nat>)
    requires Ascending(a) && Ascending(b) && forall x :: x in a <==> x in b
    ensures a == b
    decreases |a|
  {
    if b != [] {
      assert b[0] in b;
    }
    if a != [] {
      assert a[0] in a;
      AscendingHead(a, b);
      forall x
        ensures x in a[1..] <==> x in b[1..]
      {
        TailElements(a, x);
        TailElements(b, x);
      }
      AscendingUnique(a[1..], b[1..]);
      assert a == [a[0]] + a[1..] && b == [b[0]] + b[1..];
    }
  }

  ghost function ImageBases(s: Store): (bases: seq<nat>)
    ensures |bases| == |Images(s)|
  {
    seq(|Images(s)|, i requires 0 <= i < |Images(s)| => Images(s)[i].base)
  }

  lemma {:induction false} ImagesAscend(s: Store, i: nat, j: nat, lim: Limits)
    requires ValidStore(s, lim) && i < j < |Images(s)|
    ensures Images(s)[i].base < Images(s)[j].base
    decreases j - i
  {
    hide ValidStore, Images;
    if i < j - 1 {
      ImagesAscend(s, i, j - 1, lim);
    }
    ImagesTile(s, j - 1, lim);
  }

  lemma ImageSeg(s: Store, i: nat)
    requires i <= |s.front|
    ensures i < |Images(s)| && Images(s)[i].base == Seg(s, i).base
  {
  }

  lemma BasesApart(s: Store, i: nat, j: nat, lim: Limits)
    requires ValidStore(s, lim) && i < j <= |s.front|
    ensures Seg(s, i).base < Seg(s, j).base
  {
    hide ValidStore, Images;
    ImageSeg(s, i);
    ImageSeg(s, j);
    ImagesAscend(s, i, j, lim);
  }

  /** After a crash the listing is that of the segment files, in order. */
  lemma ListingIsImages(s: Store, dir: Directory, bases: seq<nat>, lim: Limits)
    requires ValidStore(s, lim) && MayLeave(s, dir)
    requires Listing(dir, bases)
    ensures bases == ImageBases(s)
  {
    hide ValidStore, Images;
    var expected := ImageBases(s);
    forall i, j | 0 <= i < j < |expected|
      ensures expected[i] < expected[j]
    {
      ImagesAscend(s, i, j, lim);
    }
    assert Bases(s, dir);
    forall x
      ensures x in expected <==> x in bases
    {
      if x in dir {
        var i :| 0 <= i < |Images(s)| && x == Images(s)[i].base;
        assert expected[i] == x;
      }
    }
    AscendingUnique(bases, expected);
  }

  /** The directory as the store has it, nothing lost. */
  ghost predicate Untouched(s: Store, dir: Directory) {
    && MayLeave(s, dir)
    && forall i | 0 <= i <= |s.front| :: Seg(s, i).base in dir ==>
         && dir[Seg(s, i).base].log.bytes == Seg(s, i).log.bytes
         && dir[Seg(s, i).base].index.bytes == Seg(s, i).index.bytes
  }

  lemma UntouchedLog(s: Store, dir: Directory)
    requires Untouched(s, dir)
    ensures MayLeave(s, dir) && s.active.base in dir && dir[s.active.base].log.bytes == s.active.log.bytes
  {
    hide MayLeave;
    ActiveNamed(s, dir);
    assert Seg(s, |s.front|) == s.active;
  }
}
