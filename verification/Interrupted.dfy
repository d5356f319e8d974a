/** Crashes while a store is being opened: recovery may have been done for some files and not for others
    (internal/storage/store.go:128-150 and 447-560). */
module Interrupted {
  import opened Bytes
  import opened Files
  import opened Format
  import opened Batches
  import opened Recovery
  import opened Index
  import opened SegmentFile
  import opened StoreState
  import opened Placement
  import opened Crash
  import LogSpec

  // -------------------------------------------------- other index files on disk

  /** The segment with another index file, of which the whole entries are in use. */
  function Reindexed(g: SegState, f: File): SegState {
    g.(index := f, indexSize := 12 * (|f.bytes| / 12))
  }

  lemma ReindexedValid(g: SegState, f: File, lim: Limits)
    requires ValidSeg(g, lim) && f.synced <= |f.bytes| && EntriesOn(f.bytes, g.batches)
    ensures ValidSeg(Reindexed(g, f), lim)
  {
    hide Fitting, Sound, EntriesOn, GreedyEntries, Latest, LogBytes, Pos;
  }

  /** The store with the index files of a directory. */
  ghost function WithIndexes(t: Store, mid: Directory): Store
    requires forall i | 0 <= i <= |t.front| :: Seg(t, i).base in mid
  {
    t.(front := seq(|t.front|, i requires 0 <= i < |t.front| => IndexOf(t, mid, i)),
       active := IndexOf(t, mid, |t.front|))
  }

  ghost function IndexOf(t: Store, mid: Directory, i: nat): SegState
    requires i <= |t.front| && Seg(t, i).base in mid
  {
    Reindexed(Seg(t, i), mid[Seg(t, i).base].index)
  }

  /** The logs may be what a crash leaves of the store's, and the indexes only have entries on its batches. */
  ghost predicate FilesFit(t: Store, mid: Directory) {
    && Bases(t, mid)
    && (forall i | 0 <= i <= |t.front| :: Seg(t, i).base in mid && FileFits(Seg(t, i), mid[Seg(t, i).base]))
    && (t.spare ==> t.logEnd in mid && mid[t.logEnd] == SegFiles(File([], 0), File([], 0)))
  }

  ghost predicate FileFits(g: SegState, f: SegFiles) {
    CutFile(g.log, f.log) && f.index.synced <= |f.index.bytes| && EntriesOn(f.index.bytes, g.batches)
  }

  lemma IndexesValid(t: Store, mid: Directory, lim: Limits)
    requires ValidStore(t, lim) && FilesFit(t, mid)
    ensures ValidStore(WithIndexes(t, mid), lim)
  {
    hide ValidSeg, EntriesOn, Fitting, Run, LogBytes, Bases;
    var u := WithIndexes(t, mid);
    forall i | 0 <= i <= |t.front|
      ensures ValidSeg(IndexOf(t, mid, i), lim)
    {
      SegValid(t, i, lim);
      assert FileFits(Seg(t, i), mid[Seg(t, i).base]);
      ReindexedValid(Seg(t, i), mid[Seg(t, i).base].index, lim);
    }
    forall i | 0 <= i < |u.front|
      ensures ValidSeg(u.front[i], lim) && ClosedSeg(u.front[i])
              && u.front[i].next == NextBase(u.front, u.active.base, i + 1)
    {
      FrontUpTo(t.front, t.active.base, i, lim);
    }
  }

  lemma IndexesModel(t: Store, mid: Directory)
    requires FilesFit(t, mid)
    ensures Model(WithIndexes(t, mid)) == Model(t) && Images(WithIndexes(t, mid)) == Images(t)
  {
    hide EntriesOn, Bases, Chain, WholeBatches;
    var u := WithIndexes(t, mid);
    ChainSame(u.front, t.front);
    assert forall i | 0 <= i < |Images(t)| :: Images(u)[i] == Images(t)[i];
  }

  /** A directory that fits a valid store is one a crash of a valid store with the same log may leave. */
  lemma LeftBy(t: Store, mid: Directory, lim: Limits)
    requires ValidStore(t, lim) && FilesFit(t, mid)
    ensures var u := WithIndexes(t, mid);
            ValidStore(u, lim) && Model(u) == Model(t) && MayLeave(u, mid)
  {
    hide ValidStore, EntriesOn, Model, Images;
    var u := WithIndexes(t, mid);
    IndexesValid(t, mid, lim);
    IndexesModel(t, mid);
    forall i | 0 <= i <= |u.front|
      ensures Seg(u, i).base in mid
      ensures CutFile(Seg(u, i).log, mid[Seg(u, i).base].log) && CutFile(Seg(u, i).index, mid[Seg(u, i).base].index)
    {
      assert Seg(u, i) == IndexOf(t, mid, i);
      assert FileFits(Seg(t, i), mid[Seg(t, i).base]);
    }
  }

  // ------------------------------------------------------------ half-way through

  /** A segment's files while it is recovered: untouched, the torn tail of the last log cut off, or done. */
  ghost predicate SegBetween(f: SegFiles, g: SegState, m: SegFiles, last: bool) {
    || m == f
    || (last && m == SegFiles(g.log, f.index))
    || m == SegFiles(g.log, g.index)
  }

  /** A directory on the way from `dir` to the recovered segments. */
  ghost predicate Between(dir: Directory, rec: seq<SegState>, mid: Directory) {
    && rec != [] && mid.Keys == dir.Keys
    && forall i | 0 <= i < |rec| ::
         rec[i].base in dir && SegBetween(dir[rec[i].base], rec[i], mid[rec[i].base], i == |rec| - 1)
  }

  /** All files but the last log are as they were, and every index file has only entries on its batches. */
  lemma ClosedBetween(s: Store, dir: Directory, rec: seq<SegState>, mid: Directory, i: nat, lim: Limits)
    requires ValidStore(s, lim) && MayLeave(s, dir) && RecoveredSegs(s, dir, rec, lim) && Between(dir, rec, mid)
    requires i < |rec| - 1
    ensures var (b, m) := (Images(s)[i].base, Images(s)[i]);
            && rec[i].base == b && b in mid && b in dir && rec[i].batches == m.all
            && mid[b].log == dir[b].log == rec[i].log && rec[i].log.synced <= |rec[i].log.bytes|
            && mid[b].index.synced <= |mid[b].index.bytes| && EntriesOn(mid[b].index.bytes, m.all)
  {
    hide ValidStore, MayLeave, ValidSeg, Run, EntriesOn, WholeBatches, IndexRecovered, Images, Indexable, LogBytes, Pos;
    var m := Images(s)[i];
    ImageCut(s, dir, i, lim);
    assert RecoveredSeg(m, dir, rec[i], false, lim);
    LogWhole(rec[i], lim);
    LogLength(m.all);
    assert SegBetween(dir[m.base], rec[i], mid[m.base], false);
  }

  lemma LogWhole(g: SegState, lim: Limits)
    requires ValidSeg(g, lim) && g.size == |g.log.bytes|
    ensures g.log.bytes == LogBytes(g.batches) && g.size == Size(g.batches)
    ensures g.index.synced <= |g.index.bytes| && EntriesOn(g.index.bytes, g.batches) && g.log.synced <= |g.log.bytes|
  {
    hide Fitting, Sound, EntriesOn, GreedyEntries, Latest, Pos, LogBytes;
    LogLength(g.batches);
  }

  lemma ReopenedBases(s: Store, rec: seq<SegState>)
    requires rec != []
    ensures var r := Reopened(s, rec);
            |Images(r)| == |rec| && forall i | 0 <= i < |rec| :: Images(r)[i].base == rec[i].base
  {
  }

  lemma ReopenedImages(s: Store, dir: Directory, rec: seq<SegState>, mid: Directory, lim: Limits)
    requires Bases(s, dir) && RecoveredSegs(s, dir, rec, lim) && Between(dir, rec, mid)
    ensures Bases(Reopened(s, rec), mid)
  {
    hide RecoveredSeg, SegBetween, Images;
    var r := Reopened(s, rec);
    ReopenedBases(s, rec);
    forall i | 0 <= i < |rec|
      ensures rec[i].base == Images(s)[i].base
    {
      assert RecoveredSeg(Images(s)[i], dir, rec[i], i == |rec| - 1, lim);
      RecoveredParts(Images(s)[i], dir, rec[i], i == |rec| - 1, lim);
    }
    forall b
      ensures b in mid <==> exists i | 0 <= i < |Images(r)| :: b == Images(r)[i].base
    {
      if b in dir {
        var i :| 0 <= i < |Images(s)| && b == Images(s)[i].base;
        assert b == Images(r)[i].base;
      }
      if i :| 0 <= i < |Images(r)| && b == Images(r)[i].base {
        assert b == Images(s)[i].base;
      }
    }
  }

  /** The last file is done: the directory fits the recovered store. */
  lemma DoneFits(s: Store, dir: Directory, rec: seq<SegState>, mid: Directory, lim: Limits)
    requires ValidStore(s, lim) && MayLeave(s, dir) && RecoveredSegs(s, dir, rec, lim) && Between(dir, rec, mid)
    requires var g := rec[|rec| - 1]; mid[g.base] == SegFiles(g.log, g.index)
    ensures FilesFit(Reopened(s, rec), mid)
  {
    hide ValidStore, MayLeave, ValidSeg, EntriesOn, RecoveredSeg, Images, SegBetween, Bases;
    MayBases(s, dir);
    ReopenedImages(s, dir, rec, mid, lim);
    var n := |rec| - 1;
    forall i | 0 <= i <= n
      ensures rec[i].base in mid && FileFits(rec[i], mid[rec[i].base])
    {
      if i < n {
        ClosedBetween(s, dir, rec, mid, i, lim);
      } else {
        assert RecoveredSeg(Images(s)[n], dir, rec[n], true, lim);
        RecoveredParts(Images(s)[n], dir, rec[n], true, lim);
        LogWhole(rec[n], lim);
      }
    }
    assert forall i | 0 <= i <= n :: Seg(Reopened(s, rec), i) == rec[i];
  }

  lemma MayBases(s: Store, dir: Directory)
    requires MayLeave(s, dir)
    ensures Bases(s, dir)
  {
    hide Bases;
  }

  // ------------------------------------------------ the last file is not done yet

  /** The state in which less of the active log is known to be synced. */
  function Lowered(s: Store, synced: nat): Store {
    s.(active := s.active.(log := File(s.active.log.bytes, synced)))
  }

  lemma LoweredSame(s: Store, synced: nat, lim: Limits)
    requires ValidStore(s, lim) && Pos(s.active.batches, Durable(s.active)) <= synced <= s.active.log.synced
    requires s.spare ==> synced == s.active.log.synced
    ensures ValidStore(Lowered(s, synced), lim) && Model(Lowered(s, synced)) == Model(s)
    ensures Images(Lowered(s, synced)) == Images(s)
  {
    hide ValidFront, Run, Pos, LogBytes, Sound, EntriesOn, GreedyEntries, Latest, Chain, WholeBatches, Fitting;
    var t := Lowered(s, synced);
    WholeBatchesExact(s.active.batches, synced, Durable(s.active));
    assert Before(t) == Before(s);
  }

  /** Cutting off the torn tail leaves all that was durable synced. */
  lemma TailSynced(s: Store, dir: Directory, g: SegState, lim: Limits)
    requires ValidStore(s, lim) && MayLeave(s, dir) && !s.spare
    requires RecoveredSeg(Image(s.active.base, Tried(s)), dir, g, true, lim)
    ensures Pos(s.active.batches, Durable(s.active)) <= g.log.synced <= |g.log.bytes|
    ensures g.log.bytes <= dir[s.active.base].log.bytes
  {
    hide ValidStore, MayLeave, ValidSeg, IndexRecovered, Pos, WholeBatches, Run;
    ReopenedActive(s, dir, g, lim);
    var d := Durable(s.active);
    Agree(s.active.batches, Tried(s), d);
    Agree(g.batches, Tried(s), d);
    Increasing(g.batches, d, Durable(g));
    LogWhole(g, lim);
    ImageCut(s, dir, |s.front|, lim);
    assert Images(s)[|s.front|] == Image(s.active.base, Tried(s));
    CutBytes(dir[s.active.base].log.bytes, Tried(s), |g.batches|, g.batches);
  }

  lemma CutBytes(log: seq<byte>, all: seq<Batch>, n: nat, bs: seq<Batch>)
    requires log <= LogBytes(all) && n <= |all| && bs == all[..n] && Pos(all, n) <= |log|
    ensures LogBytes(bs) <= log
  {
    hide Pos, LogPrefix;
    Agree(bs, all, n);
    Increasing(all, n, |all|);
    LogLength(bs);
  }

  /** How much of the active log is known to be synced half-way. */
  function StillSynced(s: Store, mid: Directory): nat
    requires s.active.base in mid
  {
    var n := mid[s.active.base].log.synced;
    if n < s.active.log.synced then n else s.active.log.synced
  }

  /** The active segment, when its file is the last and its index is not written yet. */
  lemma ActiveFits(s: Store, dir: Directory, g: SegState, m: SegFiles, lim: Limits)
    requires ValidStore(s, lim) && MayLeave(s, dir) && !s.spare && s.active.base in dir
    requires RecoveredSeg(Image(s.active.base, Tried(s)), dir, g, true, lim)
    requires m == dir[s.active.base] || m == SegFiles(g.log, dir[s.active.base].index)
    ensures var k := if m.log.synced < s.active.log.synced then m.log.synced else s.active.log.synced;
            && Pos(s.active.batches, Durable(s.active)) <= k
            && FileFits(Lowered(s, k).active, m)
  {
    hide ValidStore, ValidSeg, RecoveredSeg, Pos, WholeBatches, Bases, EntriesOn;
    TailSynced(s, dir, g, lim);
    assert Seg(s, |s.front|) == s.active;
    SegValid(s, |s.front|, lim);
    ActiveIndex(s.active, lim);
    EntriesOnCut(s.active.index.bytes, m.index.bytes, s.active.batches);
    DurablePos(s.active);
  }

  lemma ActiveIndex(g: SegState, lim: Limits)
    requires ValidSeg(g, lim)
    ensures EntriesOn(g.index.bytes, g.batches)
  {
    hide Fitting, Sound, EntriesOn, GreedyEntries, Latest, LogBytes;
  }

  lemma DurablePos(g: SegState)
    ensures Pos(g.batches, Durable(g)) <= g.log.synced
  {
    hide Pos;
  }

  lemma LoweredSegs(s: Store, k: nat, i: nat)
    requires i <= |s.front|
    ensures var t := Lowered(s, k);
            && Seg(t, i).base == Seg(s, i).base && Seg(t, i).batches == Seg(s, i).batches
            && Seg(t, i).log.bytes == Seg(s, i).log.bytes
            && (i < |s.front| || k == s.active.log.synced ==> Seg(t, i).log == Seg(s, i).log)
  {
  }

  /** A segment that is closed, at whatever stage of its recovery. */
  lemma ClosedFits(s: Store, dir: Directory, rec: seq<SegState>, mid: Directory, i: nat, lim: Limits)
    requires ValidStore(s, lim) && MayLeave(s, dir) && RecoveredSegs(s, dir, rec, lim) && Between(dir, rec, mid)
    requires i < |rec| - 1 && i <= |s.front|
    ensures Seg(s, i).base in mid && FileFits(Seg(s, i), mid[Seg(s, i).base])
    ensures i == |s.front| ==> s.spare && StillSynced(s, mid) == s.active.log.synced
  {
    hide ValidStore, ValidSeg, EntriesOn, RecoveredSeg, SegBetween, Bases;
    ClosedBetween(s, dir, rec, mid, i, lim);
    if i == |s.front| {
      SpareNoTorn(s, lim);
      assert s.active.batches + [] == s.active.batches;
    }
    assert Images(s)[i] == Image(Seg(s, i).base, Seg(s, i).batches);
  }

  lemma SpareNoTorn(s: Store, lim: Limits)
    requires ValidStore(s, lim) && s.spare
    ensures s.torn.None?
  {
    hide ValidSeg, ValidFront, Run;
  }

  lemma SpareUntouched(s: Store, dir: Directory, g: SegState, m: SegFiles, lim: Limits)
    requires ValidStore(s, lim) && MayLeave(s, dir) && s.spare && s.logEnd in dir
    requires RecoveredSeg(Image(s.logEnd, []), dir, g, true, lim)
    requires m == dir[s.logEnd] || m == SegFiles(g.log, dir[s.logEnd].index)
    ensures m == SegFiles(File([], 0), File([], 0))
  {
    hide ValidStore, ValidSeg, Bases, IndexRecovered, WholeBatches, Pos;
    LogWhole(g, lim);
  }

  lemma ImageCount(s: Store)
    ensures |Images(s)| == |s.front| + if s.spare then 2 else 1
    ensures Images(s)[|s.front|] == Image(s.active.base, Tried(s))
    ensures s.spare ==> Images(s)[|s.front| + 1] == Image(s.logEnd, [])
  {
  }

  lemma LoweredBases(s: Store, k: nat, dir: Directory, mid: Directory)
    requires Bases(s, dir) && mid.Keys == dir.Keys && Images(Lowered(s, k)) == Images(s)
    ensures Bases(Lowered(s, k), mid)
  {
    hide Images;
    assert forall b :: b in mid <==> b in dir;
  }

  /** The last file is not done: the directory fits the store that crashed, with less of its log known to be synced. */
  lemma PendingFits(s: Store, dir: Directory, rec: seq<SegState>, mid: Directory, lim: Limits)
    requires ValidStore(s, lim) && MayLeave(s, dir) && RecoveredSegs(s, dir, rec, lim) && Between(dir, rec, mid)
    requires var g := rec[|rec| - 1]; mid[g.base] != SegFiles(g.log, g.index)
    ensures s.active.base in mid
    ensures var t := Lowered(s, StillSynced(s, mid));
            ValidStore(t, lim) && Model(t) == Model(s) && FilesFit(t, mid)
  {
    hide ValidStore, MayLeave, ValidSeg, EntriesOn, RecoveredSeg, Images, Bases, Model, Pos, Durable;
    var n := |rec| - 1;
    MayBases(s, dir);
    ActiveNamed(s, dir);
    ImageCount(s);
    assert RecoveredSeg(Images(s)[n], dir, rec[n], true, lim);
    RecoveredParts(Images(s)[n], dir, rec[n], true, lim);
    var k := StillSynced(s, mid);
    if s.spare {
      ClosedFits(s, dir, rec, mid, |s.front|, lim);
      SpareUntouched(s, dir, rec[n], mid[s.logEnd], lim);
      DurablePos(s.active);
    } else {
      ActiveFits(s, dir, rec[n], mid[s.active.base], lim);
    }
    LoweredSame(s, k, lim);
    LoweredBases(s, k, dir, mid);
    forall i | 0 <= i <= |s.front|
      ensures Seg(Lowered(s, k), i).base in mid && FileFits(Seg(Lowered(s, k), i), mid[Seg(Lowered(s, k), i).base])
    {
      LoweredSegs(s, k, i);
      if i < n {
        ClosedFits(s, dir, rec, mid, i, lim);
      }
    }
  }

  // ------------------------------------------------------------------- the result

  /** The same log, or what a restart makes of it. */
  ghost predicate Restarted(l: LogSpec.Log, l': LogSpec.Log) { l' == l || LogSpec.RestartStep(l, l') }

  lemma RestartTwice(l: LogSpec.Log, l1: LogSpec.Log, l2: LogSpec.Log)
    requires Restarted(l, l1) && LogSpec.RestartStep(l1, l2)
    ensures LogSpec.RestartStep(l, l2)
  {
    if l1 != l {
      assert LogSpec.Attempted(l1) == l1.history;
    }
  }

  ghost predicate AllNamed(t: Store, mid: Directory) {
    forall i | 0 <= i <= |t.front| :: Seg(t, i).base in mid
  }

  /** The state that stands for a half-recovered directory. */
  ghost function Resumed(s: Store, rec: seq<SegState>, mid: Directory): Store
    requires rec != [] && rec[|rec| - 1].base in mid && s.active.base in mid
  {
    var g := rec[|rec| - 1];
    var t := if mid[g.base] == SegFiles(g.log, g.index) then Reopened(s, rec) else Lowered(s, StillSynced(s, mid));
    if AllNamed(t, mid) then WithIndexes(t, mid) else t
  }

  /** A crash at any point of an opening leaves what a crash of some valid store may leave, and the log of that store
      is the old one or a restart of it. */
  lemma InterruptedOpen(s: Store, dir: Directory, rec: seq<SegState>, mid: Directory, lim: Limits)
    requires ValidStore(s, lim) && MayLeave(s, dir) && RecoveredSegs(s, dir, rec, lim) && Between(dir, rec, mid)
    ensures s.active.base in mid
    ensures var u := Resumed(s, rec, mid);
            ValidStore(u, lim) && MayLeave(u, mid) && Restarted(Model(s), Model(u))
  {
    hide ValidStore, MayLeave, RecoveredSegs, FilesFit, WithIndexes, Model, SegBetween, LogSpec.RestartStep;
    ActiveNamed(s, dir);
    var g := rec[|rec| - 1];
    if mid[g.base] == SegFiles(g.log, g.index) {
      DoneFits(s, dir, rec, mid, lim);
      ReopenedValid(s, dir, rec, lim);
      ReopenedModel(s, dir, rec, lim);
      FitNamed(Reopened(s, rec), mid);
      LeftBy(Reopened(s, rec), mid, lim);
    } else {
      PendingFits(s, dir, rec, mid, lim);
      FitNamed(Lowered(s, StillSynced(s, mid)), mid);
      LeftBy(Lowered(s, StillSynced(s, mid)), mid, lim);
    }
  }

  lemma FitNamed(t: Store, mid: Directory)
    requires FilesFit(t, mid)
    ensures AllNamed(t, mid)
  {
    hide FileFits, Bases;
  }

  /** What a crash leaves of a directory. */
  ghost predicate CutDirectory(dir: Directory, left: Directory) {
    && left.Keys == dir.Keys
    && forall b <- dir.Keys :: CutFile(dir[b].log, left[b].log) && CutFile(dir[b].index, left[b].index)
  }

  lemma CutAgain(u: Store, dir: Directory, left: Directory)
    requires MayLeave(u, dir) && CutDirectory(dir, left)
    ensures MayLeave(u, left)
  {
    hide Images;
    assert forall b :: b in left <==> b in dir;
    forall i | 0 <= i <= |u.front| && Seg(u, i).base in left
      ensures CutFile(Seg(u, i).log, left[Seg(u, i).base].log) && CutFile(Seg(u, i).index, left[Seg(u, i).base].index)
    {
      var b := Seg(u, i).base;
      assert CutFile(dir[b].log, left[b].log) && CutFile(dir[b].index, left[b].index);
    }
    if u.spare && u.logEnd in left {
      var b := u.logEnd;
      assert CutFile(dir[b].log, left[b].log) && CutFile(dir[b].index, left[b].index);
    }
  }

  /** An opening that a crash interrupts: what recovery would make, how far it got, what the crash left of that. */
  datatype Try = Try(rec: seq<SegState>, mid: Directory, left: Directory)

  /** Openings interrupted one after another, from a directory that a crash of `s` left. */
  ghost predicate Tries(s: Store, dir: Directory, tries: seq<Try>, lim: Limits)
    decreases |tries|
  {
    tries != [] ==>
      var t := tries[0];
      && RecoveredSegs(s, dir, t.rec, lim) && Between(dir, t.rec, t.mid) && CutDirectory(t.mid, t.left)
      && s.active.base in t.mid && Tries(Resumed(s, t.rec, t.mid), t.left, tries[1..], lim)
  }

  /** The state and the directory after them. */
  ghost function AfterTries(s: Store, dir: Directory, tries: seq<Try>, lim: Limits): (Store, Directory)
    requires Tries(s, dir, tries, lim)
    decreases |tries|
  {
    if tries == [] then (s, dir)
    else AfterTries(Resumed(s, tries[0].rec, tries[0].mid), tries[0].left, tries[1..], lim)
  }

  lemma {:induction false} TriesKeep(s: Store, dir: Directory, tries: seq<Try>, lim: Limits)
    requires ValidStore(s, lim) && MayLeave(s, dir) && Tries(s, dir, tries, lim)
    ensures var (u, left) := AfterTries(s, dir, tries, lim);
            ValidStore(u, lim) && MayLeave(u, left) && Restarted(Model(s), Model(u))
    decreases |tries|
  {
    hide ValidStore, MayLeave, RecoveredSegs, SegBetween, CutDirectory, Resumed, Model, LogSpec.RestartStep;
    if tries != [] {
      var t := tries[0];
      InterruptedOpen(s, dir, t.rec, t.mid, lim);
      var u := Resumed(s, t.rec, t.mid);
      CutAgain(u, t.mid, t.left);
      TriesKeep(u, t.left, tries[1..], lim);
      RestartedTwice(Model(s), Model(u), Model(AfterTries(s, dir, tries, lim).0));
    }
  }

  lemma RestartedTwice(l: LogSpec.Log, l1: LogSpec.Log, l2: LogSpec.Log)
    requires Restarted(l, l1) && Restarted(l1, l2)
    ensures Restarted(l, l2)
  {
    hide LogSpec.RestartStep;
    if l1 != l2 {
      RestartTwice(l, l1, l2);
    }
  }

  /** After any number of interrupted openings, one that finishes makes a restart of the log of the first crash. */
  lemma OpenedInTheEnd(s: Store, dir: Directory, tries: seq<Try>, rec: seq<SegState>, lim: Limits)
    requires ValidStore(s, lim) && MayLeave(s, dir) && Tries(s, dir, tries, lim)
    requires var (u, left) := AfterTries(s, dir, tries, lim); RecoveredSegs(u, left, rec, lim)
    ensures var u := AfterTries(s, dir, tries, lim).0;
            rec != [] && ValidStore(Reopened(u, rec), lim) && LogSpec.RestartStep(Model(s), Model(Reopened(u, rec)))
  {
    hide ValidStore, MayLeave, RecoveredSegs, Tries, AfterTries, Model, LogSpec.RestartStep;
    var (u, left) := AfterTries(s, dir, tries, lim);
    TriesKeep(s, dir, tries, lim);
    ReopenedValid(u, left, rec, lim);
    ReopenedModel(u, left, rec, lim);
    RestartTwice(Model(s), Model(u), Model(Reopened(u, rec)));
  }
}
