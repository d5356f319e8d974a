/** The size that retention compares with its limit is that of the files in the directory. */
module DiskUse {
  import opened Format
  import opened SegmentFile
  import opened Placement
  import opened Retention
  import opened Crash
  import opened Lifecycle
  import opened Midway
  import opened PartitionStore
  import S = StoreState

  /** The bytes of all files of the listed segments, logs and indexes. */
  function FileBytes(dir: Directory, bases: seq<nat>): nat
    requires forall b <- bases :: b in dir
  {
    if bases == [] then 0
    else
      var f := dir[bases[|bases| - 1]];
      FileBytes(dir, bases[..|bases| - 1]) + |f.log.bytes| + |f.index.bytes|
  }

  lemma {:induction false} FrontFiles(s: S.Store, dir: Directory, bases: seq<nat>)
    requires |bases| <= |s.front| && ExactFiles(s, dir)
    requires forall i | 0 <= i < |bases| :: bases[i] == s.front[i].base && bases[i] in dir
    ensures FileBytes(dir, bases) == FrontBytes(s.front[..|bases|])
    decreases |bases|
  {
    hide Bases;
    if bases == [] {
      assert s.front[..0] == [];
    } else {
      var n := |bases| - 1;
      FrontFiles(s, dir, bases[..n]);
      assert s.front[..n + 1][..n] == s.front[..n];
      assert Seg(s, n) == s.front[n];
    }
  }

  /** All files together are what the store counts. */
  lemma DirectoryBytes(s: S.Store, dir: Directory, bases: seq<nat>, lim: Limits)
    requires S.ValidStore(s, lim) && ExactFiles(s, dir) && Listing(dir, bases)
    ensures (forall b <- bases :: b in dir) && FileBytes(dir, bases) == TotalBytes(s)
  {
    hide S.ValidStore, ExactFiles, FileBytes, FrontBytes;
    ExactProper(s, dir, lim);
    ListingIsImages(s, dir, bases, lim);
    var n := |s.front|;
    forall i | 0 <= i <= n
      ensures bases[i] == Seg(s, i).base
    {
      ImageSeg(s, i);
    }
    assert forall i | 0 <= i < n :: Seg(s, i) == s.front[i];
    FrontFiles(s, dir, bases[..n]);
    assert s.front[..n] == s.front;
    ActiveFiles(s, dir, bases);
  }

  lemma ActiveFiles(s: S.Store, dir: Directory, bases: seq<nat>)
    requires ExactFiles(s, dir) && bases == ImageBases(s) && (forall b <- bases :: b in dir)
    ensures |bases| > |s.front|
    ensures FileBytes(dir, bases) == FileBytes(dir, bases[..|s.front|]) + DiskBytes(s.active)
  {
    hide Bases;
    var n := |s.front|;
    assert Seg(s, n) == s.active && bases[n] == s.active.base;
    assert bases[..n + 1][..n] == bases[..n];
    if s.spare {
      assert |bases| == n + 2 && bases[n + 1] == s.logEnd && bases[..n + 2] == bases;
    } else {
      assert |bases| == n + 1 && bases[..n + 1] == bases;
    }
  }

  /** Over the limit without the `k` oldest segments: the files that are left when their logs and indexes are removed
      have more bytes than the limit. */
  lemma OverLimitExactly(s: S.Store, dir: Directory, k: nat, limit: nat, bases: seq<nat>, lim: Limits)
    requires S.ValidStore(s, lim) && !s.poisoned && ExactFiles(s, dir) && k <= |s.front|
    requires Listing(DidAll(dir, Removals(s.front, k)), bases)
    ensures (forall b <- bases :: b in DidAll(dir, Removals(s.front, k)))
    ensures OverLimit(s, limit, k) <==> FileBytes(DidAll(dir, Removals(s.front, k)), bases) > limit
  {
    hide S.ValidStore, ExactFiles, FileBytes, TotalBytes, Dropped, DidAll, Removals, S.Model, Listing;
    RetainDone(s, dir, k, lim);
    DroppedValid(s, k, lim);
    DirectoryBytes(Dropped(s, k), DidAll(dir, Removals(s.front, k)), bases, lim);
  }

  /** The sum the store computes is that of its files. */
  method SizeOnDisk(store: Store) returns (total: Option<nat>, dir: Directory, bases: seq<nat>)
    requires store.Valid()
    ensures ExactFiles(store.State(), dir) && Listing(dir, bases) && forall b <- bases :: b in dir
    ensures total == Some(FileBytes(dir, bases))
  {
    hide S.ValidStore, ExactFiles, FileBytes, Listing, TotalBytes;
    dir, bases := FilesOf(store);
    total := store.CalculateTotalBytes(true);
    DirectoryBytes(store.State(), dir, bases, store.lim);
  }
}
