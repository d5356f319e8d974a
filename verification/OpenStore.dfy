/** OpenStore (internal/storage/store.go:54-171): a store from the files of a directory. */
module Opening {
  import opened Bytes
  import opened Files
  import opened Format
  import opened Batches
  import opened Recovery
  import opened Index
  import opened SegmentFile
  import opened SegmentClass
  import opened StoreSteps
  import opened Appending
  import opened Crash
  import opened PartitionStore
  import S = StoreState
  import LogSpec
  import LogRuns

  /** A store on an empty directory. */
  const EMPTY_STATE := S.Store([], FreshSeg(0), 0, 0, false, false, [], None, false)

  datatype OpenResult = Opened(store: Store) | OpenFailed

  /** Files as a file system has them. */
  predicate ProperFiles(dir: Directory) {
    forall b <- dir.Keys ::
      dir[b].log.synced <= |dir[b].log.bytes| <= MAX_INT64 && dir[b].index.synced <= |dir[b].index.bytes|
  }

  /** Opens the segment with this base, and recovers it. `m` is what the store had written to it, if `known`. */
  method OpenSegment(lim: Limits, dir: Directory, base: nat, active: bool, ghost known: bool, ghost m: Image)
    returns (ok: bool, seg: Segment)
    requires base in dir && ProperFiles(dir)
    requires known ==> m.base == base && CutFiles(dir[base].log.bytes, dir[base].index.bytes, m.all, base, lim, active)
    requires known && !active ==> m.all != [] && dir[base].log.synced == |dir[base].log.bytes|
    ensures fresh(seg) && seg.baseOffset == base
    ensures ok ==> Scan(dir[base].log.bytes, 0, base, active, lim.maxBatch) == Intact(seg.batches, seg.size)
    ensures ok ==> seg.nextOffset == base + Count(seg.batches) && seg.log.bytes == dir[base].log.bytes[..seg.size]
    ensures known ==> ok && RecoveredSeg(m, dir, seg.State(), active, lim)
  {
    hide CutFiles, ValidSeg, WholeBatches, Scan, RecoveredIndex, Pos, Off, IndexBytes, Indexable;
    seg := new Segment(base, dir[base].log, dir[base].index, active);
    ok := seg.Recover(active, lim, m.all);
    if known {
      SegSizes(seg.State(), lim);
      ValidIndexable(seg.State(), lim);
      if !active {
        CutWhole(dir[base].log.bytes, dir[base].index.bytes, m.all, base, lim);
      }
    }
  }

  lemma ValidIndexable(s: SegState, lim: Limits)
    requires ValidSeg(s, lim)
    ensures Indexable(s.batches)
  {
    hide Run, Sound, EntriesOn, GreedyEntries, Latest, Indexable;
  }

  lemma CutWhole(log: seq<byte>, index: seq<byte>, all: seq<Batch>, base: nat, lim: Limits)
    requires CutFiles(log, index, all, base, lim, false)
    ensures WholeBatches(all, |all|, |log|) == |all| && all[..|all|] == all && Size(all) == |log|
  {
    hide Run, Pos, LogBytes, Indexable, EntriesOn;
    WholeBatchesExact(all, |log|, |all|);
  }

  /** Segment `i` starts where segment `i - 1` ends. */
  ghost predicate Tiled(segs: seq<Segment>)
    reads segs
  {
    forall i | 0 < i < |segs| :: segs[i].baseOffset == segs[i - 1].nextOffset
  }

  /** Opens and recovers every segment, in the order of the listing. `img` is the state of the store
      that left the directory, if one did. */
  method OpenSegments(lim: Limits, dir: Directory, bases: seq<nat>, ghost img: S.Store)
    returns (ok: bool, segs: seq<Segment>)
    requires ProperFiles(dir) && Listing(dir, bases)
    ensures forall i | 0 <= i < |segs| :: fresh(segs[i])
    ensures forall i, j | 0 <= i < j < |segs| :: segs[i] != segs[j]
    ensures ok ==> |segs| == |bases| && Tiled(segs) && forall i | 0 <= i < |segs| :: segs[i].baseOffset == bases[i]
    ensures bases == [] ==> ok
    ensures S.ValidStore(img, lim) && MayLeave(img, dir) ==> ok && RecoveredSegs(img, dir, Snap(segs), lim)
  {
    hide S.ValidStore, MayLeave, RecoveredSeg, CutFiles, Images, Snap, RecoveredSegs, ImageBases, Listing, Scan, Off;
    ghost var known := S.ValidStore(img, lim) && MayLeave(img, dir);
    if known {
      ListingIsImages(img, dir, bases, lim);
    }
    segs := [];
    var expected := if |bases| > 0 then bases[0] else 0;
    for i := 0 to |bases|
      invariant |segs| == i && forall j | 0 <= j < i :: fresh(segs[j]) && segs[j].baseOffset == bases[j]
      invariant forall j, k | 0 <= j < k < i :: segs[j] != segs[k]
      invariant Tiled(segs) && (i > 0 ==> expected == segs[i - 1].nextOffset)
                && (i == 0 && |bases| > 0 ==> expected == bases[0])
      invariant known ==>
                forall j | 0 <= j < i :: RecoveredSeg(Images(img)[j], dir, segs[j].State(), j == |bases| - 1, lim)
    {
      var base := bases[i];
      Listed(dir, bases, i);
      if known {
        BaseOf(img, i);
        ImageCut(img, dir, i, lim);
        if i > 0 {
          ExpectedNext(img, dir, i, segs[i - 1].State(), lim);
        }
      }
      if base != expected {
        return false, segs;
      }
      ghost var image := if known then Images(img)[i] else Image(0, []);
      var good, seg := OpenSegment(lim, dir, base, i == |bases| - 1, known, image);
      if !good {
        return false, segs;
      }
      segs, expected := segs + [seg], seg.nextOffset;
    }
    ok := true;
    if known {
      AllRecovered(img, dir, segs, lim);
    }
  }

  lemma AllRecovered(img: S.Store, dir: Directory, segs: seq<Segment>, lim: Limits)
    requires |segs| == |Images(img)|
    requires forall j | 0 <= j < |segs| :: RecoveredSeg(Images(img)[j], dir, segs[j].State(), j == |segs| - 1, lim)
    ensures RecoveredSegs(img, dir, Snap(segs), lim)
  {
    hide RecoveredSeg, Images;
    forall j | 0 <= j < |segs|
      ensures RecoveredSeg(Images(img)[j], dir, Snap(segs)[j], j == |segs| - 1, lim)
    {
      SnapAt(segs, j);
    }
  }

  lemma BaseOf(img: S.Store, i: nat)
    requires i < |Images(img)|
    ensures ImageBases(img)[i] == Images(img)[i].base
  {
    hide Images;
  }

  lemma ExpectedNext(img: S.Store, dir: Directory, i: nat, g: SegState, lim: Limits)
    requires S.ValidStore(img, lim) && 0 < i < |Images(img)| && RecoveredSeg(Images(img)[i - 1], dir, g, false, lim)
    ensures g.next == Images(img)[i].base
  {
    hide S.ValidStore, ValidSeg, Off, Run, Images, RecoveredSeg;
    ImagesTile(img, i - 1, lim);
    RecoveredWhole(Images(img)[i - 1], dir, g, lim);
    S.SegRun(g, lim);
  }

  method OpenStore(lim: Limits, sync: bool, dir: Directory, bases: seq<nat>, ghost img: S.Store) returns (r: OpenResult)
    requires ProperFiles(dir) && Listing(dir, bases)
    ensures r.Opened? ==> fresh(r.store) && forall i | 0 <= i < |r.store.segments| :: fresh(r.store.segments[i])
    ensures r.Opened? ==> r.store.lim == lim && r.store.sync == sync && !r.store.closed && !r.store.writeFailed
    ensures r.Opened? ==> Tiled(r.store.segments)
    ensures dir == map[] ==>
              r.Opened? && r.store.Valid() && r.store.State() == EMPTY_STATE && r.store.Model() == LogSpec.EMPTY
    ensures S.ValidStore(img, lim) && MayLeave(img, dir) ==>
              && r.Opened? && r.store.Valid() && RecoveredSegs(img, dir, Snap(r.store.segments), lim)
              && r.store.State() == Reopened(img, Snap(r.store.segments))
              && Mirrored(r.store.State()) && !r.store.activeSegment.indexDirty
              && LogSpec.RestartStep(S.Model(img), r.store.Model())
              && LogRuns.AnyStep(S.Model(img), r.store.Model(), sync)
  {
    hide S.ValidStore, S.Model, MayLeave, RecoveredSegs, LogSpec.RestartStep, ValidSeg, Snap, FreshSeg, Mirrored,
         LogRuns.LiveStep;
    NoFiles(dir, bases);
    ghost var known := S.ValidStore(img, lim) && MayLeave(img, dir);
    var ok, segs := OpenSegments(lim, dir, bases, img);
    if !ok {
      return OpenFailed;
    }
    if known {
      ReopenedValid(img, dir, Snap(segs), lim);
      ReopenedModel(img, dir, Snap(segs), lim);
      ReopenedMirrors(img, dir, Snap(segs), lim);
      NoSegs();
    }
    if |segs| == 0 {
      var store := EmptyStore(lim, sync);
      return Opened(store);
    }
    SnapEnds(segs);
    var store := new Store(lim, sync, segs, bases[0], segs[|segs| - 1].nextOffset, if known then img.gone else []);
    r := Opened(store);
  }

  /** An empty directory gets an empty first segment. */
  method EmptyStore(lim: Limits, sync: bool) returns (store: Store)
    ensures fresh(store) && fresh(store.activeSegment) && store.segments == [store.activeSegment]
    ensures store.lim == lim && store.sync == sync && !store.closed && !store.writeFailed
    ensures store.Valid() && store.State() == EMPTY_STATE && store.Model() == LogSpec.EMPTY && Mirrored(store.State())
  {
    var seg := new Segment(0, File([], 0), File([], 0), true);
    store := new Store(lim, sync, [seg], 0, 0, []);
    hide ValidSeg, S.ValidStore, S.Model;
    EmptyStart(store.State(), lim);
  }

  lemma NoFiles(dir: Directory, bases: seq<nat>)
    requires Listing(dir, bases)
    ensures dir == map[] ==> bases == []
  {
    assert bases != [] ==> bases[0] in dir;
  }

  lemma Listed(dir: Directory, bases: seq<nat>, i: nat)
    requires Listing(dir, bases) && i < |bases|
    ensures bases[i] in dir
  {
    assert bases[i] in bases;
  }

  lemma NoSegs()
    ensures Snap([]) == []
  {
  }

  lemma SnapEnds(segs: seq<Segment>)
    requires segs != []
    ensures var snap := Snap(segs);
            && snap[0].base == segs[0].baseOffset && snap[|snap| - 1].next == segs[|segs| - 1].nextOffset
            && snap[..|snap| - 1] == Snap(segs[..|segs| - 1]) && snap[|snap| - 1] == segs[|segs| - 1].State()
  {
    SnapAt(segs, 0);
  }

  /** A store on an empty directory is an empty log. */
  lemma EmptyStart(s: S.Store, lim: Limits)
    requires s == EMPTY_STATE
    ensures S.ValidStore(s, lim) && S.Model(s) == LogSpec.EMPTY && Mirrored(s)
  {
    FreshValid(0, lim);
    hide ValidSeg;
  }

  // ------------------------------------------------------------------ any directory

  method Least(s: set<nat>) returns (m: nat)
    requires s != {}
    ensures m in s && forall x <- s :: m <= x
  {
    m :| m in s;
    var rest := s - {m};
    while rest != {}
      invariant m in s && forall x <- s :: x in rest || m <= x
      decreases rest
    {
      var x :| x in rest;
      if x < m {
        m := x;
      }
      rest := rest - {x};
    }
  }

  /** Lists the segment files of a directory in order. */
  method ListBases(dir: Directory) returns (bases: seq<nat>)
    ensures Listing(dir, bases)
  {
    bases := [];
    var rest := dir.Keys;
    while rest != {}
      invariant rest <= dir.Keys && Ascending(bases)
      invariant forall b :: b in bases <==> b in dir && b !in rest
      invariant forall i, x | 0 <= i < |bases| && x in rest :: bases[i] < x
      decreases rest
    {
      var m := Least(rest);
      bases, rest := bases + [m], rest - {m};
    }
  }

  /** A directory that a crash of a store left, or that was just made. */
  ghost predicate Sane(dir: Directory, img: S.Store, lim: Limits) {
    dir == map[] || (S.ValidStore(img, lim) && MayLeave(img, dir))
  }

  /** The store opened from it. */
  ghost predicate Back(store: Store, dir: Directory, img: S.Store, lim: Limits)
    reads store, store.segments, store.activeSegment
  {
    && store.Valid() && store.lim == lim && !store.closed && !store.writeFailed
    && if dir == map[] then store.Model() == LogSpec.EMPTY else LogSpec.RestartStep(S.Model(img), store.Model())
  }

  /** Lists a directory and opens the store on it. */
  method OpenLog(dir: Directory, lim: Limits, sync: bool, ghost img: S.Store) returns (r: OpenResult)
    requires ProperFiles(dir)
    ensures r.Opened? ==> fresh(r.store)
    ensures Sane(dir, img, lim) ==> r.Opened? && Back(r.store, dir, img, lim)
  {
    hide S.ValidStore, S.Model, MayLeave, RecoveredSegs, LogSpec.RestartStep, Listing, ProperFiles, Snap, Mirrored,
         LogRuns.AnyStep;
    var bases := ListBases(dir);
    r := OpenStore(lim, sync, dir, bases, img);
  }
}
