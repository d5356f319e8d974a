/** The worst power loss is a real one: there is a directory it leaves, from which recovery gets the durable
    beginning of the log and nothing more. */
module Losses {
  import opened Files
  import opened Format
  import opened Batches
  import opened Index
  import opened SegmentFile
  import opened StoreState
  import opened StoreSteps
  import opened Placement
  import opened Crash
  import opened LogRuns
  import LogSpec

  function Lost(f: File): File
    requires f.synced <= |f.bytes|
  {
    File(f.bytes[..f.synced], f.synced)
  }

  ghost predicate Named(s: Store, b: nat, i: nat) { i <= |s.front| && Seg(s, i).base == b }

  lemma SegSynced(s: Store, i: nat, lim: Limits)
    requires ValidStore(s, lim) && i <= |s.front|
    ensures Seg(s, i).log.synced <= |Seg(s, i).log.bytes| && Seg(s, i).index.synced <= |Seg(s, i).index.bytes|
  {
    hide ValidStore, Fitting, Sound, EntriesOn, GreedyEntries;
    SegValid(s, i, lim);
  }

  /** The files with this name after everything unsynced is lost. */
  ghost function LostFiles(s: Store, b: nat, lim: Limits): SegFiles
    requires ValidStore(s, lim)
  {
    if exists i :: Named(s, b, i) then
      var i: nat :| Named(s, b, i);
      SegSynced(s, i, lim);
      SegFiles(Lost(Seg(s, i).log), Lost(Seg(s, i).index))
    else SegFiles(File([], 0), File([], 0))
  }

  ghost function LostDirectory(s: Store, lim: Limits): Directory
    requires ValidStore(s, lim)
  {
    var bases := ImageBases(s);
    map b | b in bases :: LostFiles(s, b, lim)
  }

  lemma LostNamed(s: Store, i: nat, lim: Limits)
    requires ValidStore(s, lim) && i <= |s.front|
    ensures Seg(s, i).log.synced <= |Seg(s, i).log.bytes| && Seg(s, i).index.synced <= |Seg(s, i).index.bytes|
    ensures LostFiles(s, Seg(s, i).base, lim) == SegFiles(Lost(Seg(s, i).log), Lost(Seg(s, i).index))
  {
    hide ValidStore;
    SegSynced(s, i, lim);
    assert Named(s, Seg(s, i).base, i);
    forall j: nat | Named(s, Seg(s, i).base, j)
      ensures j == i
    {
      if i < j { BasesApart(s, i, j, lim); }
      if j < i { BasesApart(s, j, i, lim); }
    }
  }

  lemma SpareImage(s: Store)
    requires s.spare
    ensures |Images(s)| == |s.front| + 2 && Images(s)[|s.front| + 1].base == s.logEnd
  {
  }

  /** The name of the spare file is no segment's. */
  lemma SpareNamed(s: Store, lim: Limits)
    requires ValidStore(s, lim) && s.spare
    ensures LostFiles(s, s.logEnd, lim) == SegFiles(File([], 0), File([], 0))
  {
    hide ValidStore, Images;
    SpareImage(s);
    forall j: nat | j <= |s.front|
      ensures !Named(s, s.logEnd, j)
    {
      ImageSeg(s, j);
      ImagesAscend(s, j, |s.front| + 1, lim);
    }
  }

  lemma LostLeft(s: Store, lim: Limits)
    requires ValidStore(s, lim)
    ensures MayLeave(s, LostDirectory(s, lim))
  {
    hide ValidStore, LostFiles;
    var dir := LostDirectory(s, lim);
    forall b
      ensures b in dir <==> exists i | 0 <= i < |Images(s)| :: b == Images(s)[i].base
    {
      if i :| 0 <= i < |Images(s)| && b == Images(s)[i].base { assert ImageBases(s)[i] == b; }
    }
    forall i: nat | i <= |s.front|
      ensures Seg(s, i).base in dir ==>
                CutFile(Seg(s, i).log, dir[Seg(s, i).base].log) && CutFile(Seg(s, i).index, dir[Seg(s, i).base].index)
    {
      LostNamed(s, i, lim);
    }
    if s.spare { SpareNamed(s, lim); }
  }

  /** Nothing of a torn batch was synced, if anything of the log was not. */
  ghost predicate TornUnsynced(s: Store) {
    s.torn.None? || Model(s).durable < |Model(s).history|
  }

  lemma SyncedBelow(g: SegState)
    requires Durable(g) < |g.batches|
    ensures g.log.synced <= Size(g.batches)
  {
    hide Pos, WholeBatches;
    Increasing(g.batches, Durable(g) + 1, |g.batches|);
  }

  /** What is left of the active segment is what was durable. */
  lemma LostActive(s: Store, dir: Directory, g: SegState, lim: Limits)
    requires ValidStore(s, lim) && TornUnsynced(s) && s.active.base in dir
    requires s.active.log.synced <= |s.active.log.bytes| && dir[s.active.base].log == Lost(s.active.log)
    requires RecoveredSeg(Image(s.active.base, Tried(s)), dir, g, true, lim)
    ensures |g.batches| == Durable(s.active)
  {
    hide ValidStore, ValidSeg, WholeBatches, IndexRecovered, Before, Pos;
    if s.torn.None? {
      assert s.active.batches + [] == s.active.batches;
    } else {
      SyncedBelow(s.active);
      DurablePush(s.active.batches, s.torn.value, s.active.log.synced);
    }
  }

  lemma LostLength(s: Store, rec: seq<SegState>, lim: Limits)
    requires ValidStore(s, lim) && TornUnsynced(s) && RecoveredSegs(s, LostDirectory(s, lim), rec, lim)
    ensures rec != [] && |Model(Reopened(s, rec)).history| == Model(s).durable
  {
    hide ValidStore, RecoveredSeg, Durable, Chain, LostFiles, TornUnsynced;
    var (n, dir) := (|rec| - 1, LostDirectory(s, lim));
    ReopenedBefore(s, dir, rec, lim);
    assert RecoveredSeg(Images(s)[n], dir, rec[n], true, lim);
    if s.spare {
      SpareRestart(s, dir, rec[n], lim);
    } else {
      LostNamed(s, |s.front|, lim);
      assert ImageBases(s)[|s.front|] == s.active.base;
      LostActive(s, dir, rec[n], lim);
    }
  }

  /** Recovery from that directory finds the durable beginning of the log, unless all of the log is durable and
      a torn batch may be too. */
  lemma WorstReached(s: Store, rec: seq<SegState>, lim: Limits)
    requires ValidStore(s, lim) && TornUnsynced(s) && RecoveredSegs(s, LostDirectory(s, lim), rec, lim)
    ensures MayLeave(s, LostDirectory(s, lim)) && rec != [] && Model(s).durable <= |Model(s).history|
    ensures Model(Reopened(s, rec)) == Worst(Model(s))
  {
    hide ValidStore, MayLeave, RecoveredSegs, LostDirectory, Durable, Chain, TornUnsynced;
    LostLeft(s, lim);
    ReopenedModel(s, LostDirectory(s, lim), rec, lim);
    LostLength(s, rec, lim);
    DurableBound(s);
    var (l, l') := (Model(s), Model(Reopened(s, rec)));
    assert l'.history == LogSpec.Attempted(l)[..l.durable];
    assert l'.history == l.history[..l.durable];
  }
}
