/** What retention is to remove (internal/storage/store.go:770-888). */
module Retention {
  import opened Batches
  import opened SegmentFile
  import opened StoreState
  import opened StoreSteps
  import opened Appending

  /** The store without its `k` oldest segments. */
  ghost function Dropped(s: Store, k: nat): Store
    requires k <= |s.front|
  {
    s.(front := s.front[k..], gone := s.gone + Chain(s.front[..k]),
       earliest := NextBase(s.front[k..], s.active.base, 0))
  }

  /** The size of a segment on disk, log and index. */
  function DiskBytes(s: SegState): nat { |s.log.bytes| + |s.index.bytes| }

  ghost function FrontBytes(front: seq<SegState>): nat {
    if front == [] then 0 else FrontBytes(front[..|front| - 1]) + DiskBytes(front[|front| - 1])
  }

  ghost function TotalBytes(s: Store): nat { FrontBytes(s.front) + DiskBytes(s.active) }

  /** The number of oldest closed segments in a row whose newest record is at or before the cutoff. */
  function ExpiredCount(front: seq<SegState>, cutoff: int): (n: nat)
    ensures n <= |front| && (forall i | 0 <= i < n :: front[i].latest <= cutoff)
    ensures n < |front| ==> front[n].latest > cutoff
  {
    if front == [] || front[0].latest > cutoff then 0 else 1 + ExpiredCount(front[1..], cutoff)
  }

  /** Would the files still be too large without the `k` oldest segments? */
  ghost predicate OverLimit(s: Store, limit: nat, k: nat)
    requires k <= |s.front|
  {
    TotalBytes(Dropped(s, k)) > limit
  }

  /** Error-free retention removes all expired segments, and then the least number more that brings
      the size to the limit or leaves only the active segment. */
  ghost predicate Planned(s: Store, cutoff: int, limit: nat, k: nat) {
    && ExpiredCount(s.front, cutoff) <= k <= |s.front|
    && (forall j | ExpiredCount(s.front, cutoff) <= j < k :: OverLimit(s, limit, j))
    && (k < |s.front| ==> !OverLimit(s, limit, k))
  }

  lemma DroppedNone(s: Store, lim: Limits)
    requires ValidStore(s, lim)
    ensures Dropped(s, 0) == s
  {
    hide ValidSeg, Run, ValidTail, Off;
    assert s.gone + [] == s.gone;
    assert s.front[0..] == s.front;
  }

  lemma DroppedStep(s: Store, k: nat)
    requires k < |s.front|
    ensures Dropped(s, k).front == s.front[k..]
    ensures var d := Dropped(s, k);
            Dropped(s, k + 1) == d.(front := d.front[1..], gone := d.gone + d.front[0].batches,
                                    earliest := NextBase(d.front[1..], d.active.base, 0))
  {
    assert s.front[k..][1..] == s.front[k + 1..];
    assert s.front[..k + 1] == s.front[..k] + [s.front[k]];
    ChainPush(s.front[..k], s.front[k]);
    assert s.gone + Chain(s.front[..k]) + s.front[k].batches == s.gone + (Chain(s.front[..k]) + s.front[k].batches);
  }

  /** Removing oldest segments changes nothing but where the log begins. */
  lemma {:induction false} DroppedValid(s: Store, k: nat, lim: Limits)
    requires ValidStore(s, lim) && k <= |s.front|
    ensures ValidStore(Dropped(s, k), lim)
    ensures Model(Dropped(s, k)) == Model(s).(cut := Model(Dropped(s, k)).cut)
    ensures Model(s).cut <= Model(Dropped(s, k)).cut <= Model(s).durable
  {
    hide ValidStore, Model, Dropped;
    if k == 0 {
      DroppedNone(s, lim);
      CutBound(s);
    } else {
      DroppedValid(s, k - 1, lim);
      DroppedStep(s, k - 1);
      AfterRetain(Dropped(s, k - 1), lim, Dropped(s, k));
    }
  }

  lemma DroppedMirrors(s: Store, k: nat)
    requires k <= |s.front|
    ensures Mirrored(s) ==> Mirrored(Dropped(s, k))
  {
    hide IndexWhole, Chain;
  }

  lemma CutBound(s: Store)
    ensures Model(s).cut <= Model(s).durable
  {
    hide WholeBatches, Chain;
  }

  lemma FrontBytesPush(front: seq<SegState>, s: SegState)
    ensures FrontBytes(front + [s]) == FrontBytes(front) + DiskBytes(s)
  {
    assert (front + [s])[..|front|] == front;
  }

  lemma ExpiredExact(front: seq<SegState>, cutoff: int, k: nat)
    requires k <= |front| && (forall i | 0 <= i < k :: front[i].latest <= cutoff)
    requires k < |front| ==> front[k].latest > cutoff
    ensures ExpiredCount(front, cutoff) == k
  {
    hide ExpiredCount;
  }

  lemma DroppedFirst(s: Store, a: nat)
    requires a <= |s.front|
    ensures |Dropped(s, a).front| == |s.front| - a && Dropped(Dropped(s, a), 0) == Dropped(s, a)
  {
    hide Chain;
    DroppedZero(Dropped(s, a));
  }

  /** Dropping twice is dropping once. */
  lemma {:induction false} DroppedTwice(s: Store, a: nat, j: nat)
    requires a + j <= |s.front|
    ensures |Dropped(s, a).front| == |s.front| - a
    ensures Dropped(Dropped(s, a), j) == Dropped(s, a + j)
    decreases j
  {
    hide Dropped, Chain;
    DroppedFirst(s, a);
    if j > 0 {
      DroppedTwice(s, a, j - 1);
      DroppedStep(s, a + j - 1);
      DroppedStep(Dropped(s, a), j - 1);
    }
  }

  lemma DroppedZero(s: Store)
    requires s.earliest == NextBase(s.front, s.active.base, 0)
    ensures Dropped(s, 0) == s
  {
    assert s.front[0..] == s.front && s.front[..0] == [];
    assert s.gone + [] == s.gone;
  }

  /** The first `n` from `k` on that brings the size to the limit or leaves only the active segment. */
  ghost function LeastWithin(s: Store, limit: nat, k: nat): (n: nat)
    requires k <= |s.front|
    ensures k <= n <= |s.front| && (forall j | k <= j < n :: OverLimit(s, limit, j))
    ensures n < |s.front| ==> !OverLimit(s, limit, n)
    decreases |s.front| - k
  {
    hide Dropped, TotalBytes;
    if k == |s.front| || !OverLimit(s, limit, k) then k else LeastWithin(s, limit, k + 1)
  }

  ghost function PlannedCount(s: Store, cutoff: int, limit: nat): (n: nat)
    ensures n <= |s.front|
  {
    LeastWithin(s, limit, ExpiredCount(s.front, cutoff))
  }

  /** There is exactly one plan. */
  lemma PlannedExactly(s: Store, cutoff: int, limit: nat, k: nat)
    ensures Planned(s, cutoff, limit, k) <==> k == PlannedCount(s, cutoff, limit)
  {
    hide OverLimit, ExpiredCount;
  }

  // -------------------------------------------------------------- in terms of the records

  /** No record of the segment is from after the cutoff. */
  ghost predicate AllOld(s: SegState, cutoff: int) { forall r <- Flatten(s.batches) :: r.timestamp <= cutoff }

  /** The longest row of oldest segments with nothing from after the cutoff. */
  ghost predicate OldRow(front: seq<SegState>, cutoff: int, e: nat) {
    && e <= |front| && (forall i | 0 <= i < e :: AllOld(front[i], cutoff))
    && (e < |front| ==> !AllOld(front[e], cutoff))
  }

  /** The newest timestamp a segment keeps says whether all its records are old. It is never negative, so a cutoff
      before 0 expires nothing. */
  lemma ExpiredMeans(s: SegState, cutoff: int, lim: Limits)
    requires ValidSeg(s, lim)
    ensures s.latest <= cutoff ==> cutoff >= 0 && AllOld(s, cutoff)
    ensures cutoff >= 0 && AllOld(s, cutoff) ==> s.latest <= cutoff
  {
    hide ValidSeg, Flatten;
    NewestRecord(s, lim);
  }

  lemma ExpiredRow(s: Store, cutoff: int, lim: Limits)
    requires ValidStore(s, lim)
    ensures cutoff >= 0 ==> OldRow(s.front, cutoff, ExpiredCount(s.front, cutoff))
    ensures cutoff < 0 ==> ExpiredCount(s.front, cutoff) == 0
  {
    hide ValidStore, ValidSeg, AllOld, ExpiredCount;
    forall i | 0 <= i < |s.front|
      ensures s.front[i].latest <= cutoff ==> cutoff >= 0 && AllOld(s.front[i], cutoff)
      ensures cutoff >= 0 && AllOld(s.front[i], cutoff) ==> s.front[i].latest <= cutoff
    {
      FrontValid(s, i, lim);
      ExpiredMeans(s.front[i], cutoff, lim);
    }
    if ExpiredCount(s.front, cutoff) > 0 {
      assert s.front[0].latest <= cutoff;
    }
  }

  lemma FrontValid(s: Store, i: nat, lim: Limits)
    requires ValidStore(s, lim) && i < |s.front|
    ensures ValidSeg(s.front[i], lim)
  {
    hide ValidSeg, ClosedSeg, ValidTail, Run, Off;
  }

  /** The plan in these terms: the `e` segments of the row that has only old records, and then the least number more. */
  ghost predicate PlannedAfter(s: Store, cutoff: int, limit: nat, k: nat, e: nat) {
    && e <= k <= |s.front| && (if cutoff < 0 then e == 0 else OldRow(s.front, cutoff, e))
    && (forall j | e <= j < k :: OverLimit(s, limit, j)) && (k < |s.front| ==> !OverLimit(s, limit, k))
  }

  ghost predicate PlannedByRecords(s: Store, cutoff: int, limit: nat, k: nat) {
    exists e: nat :: PlannedAfter(s, cutoff, limit, k, e)
  }

  lemma PlannedMeans(s: Store, cutoff: int, limit: nat, k: nat, lim: Limits)
    requires ValidStore(s, lim) && Planned(s, cutoff, limit, k)
    ensures PlannedByRecords(s, cutoff, limit, k)
  {
    hide ValidStore, OldRow, OverLimit, ExpiredCount;
    ExpiredRow(s, cutoff, lim);
    assert PlannedAfter(s, cutoff, limit, k, ExpiredCount(s.front, cutoff));
  }

  // ------------------------------------------------------- what the loops do, errors and all

  /** How removing a segment goes: all well, the log file stays, or it is gone but something after that fails. */
  datatype RemoveOutcome = Removed | LogKept | Untidy

  /** How each attempt in turn goes: removing a segment, and finding the file sizes. */
  datatype RetainIO = RetainIO(removals: nat -> RemoveOutcome, stats: nat -> bool)

  ghost predicate Faultless(io: RetainIO) { (forall i :: io.removals(i).Removed?) && forall i :: io.stats(i) }

  /** Whether there was no error, how many segments are gone, and how many attempts were made. */
  datatype Progress = Progress(ok: bool, k: nat, attempts: nat)

  /** From the `k` oldest segments gone on, while they are expired. */
  ghost function AgeLoop(s: Store, cutoff: int, io: RetainIO, k: nat, attempts: nat): (p: Progress)
    requires k <= |s.front|
    ensures k <= p.k <= |s.front|
    decreases |s.front| - k
  {
    if k == |s.front| || s.front[k].latest > cutoff then Progress(true, k, attempts)
    else
      match io.removals(attempts)
      case Removed => AgeLoop(s, cutoff, io, k + 1, attempts + 1)
      case LogKept => Progress(false, k, attempts + 1)
      case Untidy => Progress(false, k + 1, attempts + 1)
  }

  /** From the `k` oldest segments gone on, while the files are too large. */
  ghost function SizeLoop(s: Store, limit: nat, io: RetainIO, k: nat, attempts: nat): (p: Progress)
    requires k <= |s.front|
    ensures k <= p.k <= |s.front|
    decreases |s.front| - k
  {
    hide OverLimit;
    if k == |s.front| then Progress(true, k, attempts)
    else if !io.stats(attempts) then Progress(false, k, attempts + 1)
    else if !OverLimit(s, limit, k) then Progress(true, k, attempts + 1)
    else
      match io.removals(attempts)
      case Removed => SizeLoop(s, limit, io, k + 1, attempts + 1)
      case LogKept => Progress(false, k, attempts + 1)
      case Untidy => Progress(false, k + 1, attempts + 1)
  }

  /** One round of the size loop. */
  lemma SizeStep(s: Store, limit: nat, io: RetainIO, k: nat, attempts: nat)
    requires k < |s.front|
    ensures var (p, next) := (SizeLoop(s, limit, io, k, attempts), attempts + 1);
            p == if !io.stats(attempts) then Progress(false, k, next)
                 else if TotalBytes(Dropped(s, k)) <= limit then Progress(true, k, next)
                 else if io.removals(attempts).Removed? then SizeLoop(s, limit, io, k + 1, next)
                 else Progress(false, if io.removals(attempts).LogKept? then k else k + 1, next)
  {
    hide Dropped, TotalBytes;
  }

  lemma SizeEnd(s: Store, limit: nat, io: RetainIO, attempts: nat)
    ensures SizeLoop(s, limit, io, |s.front|, attempts) == Progress(true, |s.front|, attempts)
  {
  }

  /** The age loop, and then the size loop, whether or not the first met an error. */
  ghost function Retained(s: Store, cutoff: int, limit: nat, io: RetainIO): (p: Progress)
    ensures p.k <= |s.front|
  {
    if s.closed || s.poisoned then Progress(true, 0, 0)
    else
      var a := AgeLoop(s, cutoff, io, 0, 0);
      var b := SizeLoop(s, limit, io, a.k, a.attempts);
      Progress(a.ok && b.ok, b.k, b.attempts)
  }

  /** The size loop on what the age loop leaves is the size loop from there on. */
  lemma {:induction false} SizeShift(s: Store, limit: nat, io: RetainIO, a: nat, j: nat, attempts: nat)
    requires a + j <= |s.front|
    ensures |Dropped(s, a).front| == |s.front| - a
    ensures var (p, q) := (SizeLoop(Dropped(s, a), limit, io, j, attempts), SizeLoop(s, limit, io, a + j, attempts));
            q == Progress(p.ok, a + p.k, p.attempts)
    decreases |s.front| - a - j
  {
    hide Dropped, TotalBytes;
    DroppedTwice(s, a, j);
    if a + j < |s.front| {
      SizeShift(s, limit, io, a, j + 1, attempts + 1);
    }
  }

  lemma {:induction false} AgeFaultless(s: Store, cutoff: int, io: RetainIO, k: nat, attempts: nat)
    requires k <= ExpiredCount(s.front, cutoff) && Faultless(io)
    ensures var p := AgeLoop(s, cutoff, io, k, attempts); p.ok && p.k == ExpiredCount(s.front, cutoff)
    decreases |s.front| - k
  {
    hide ExpiredCount;
    if k < ExpiredCount(s.front, cutoff) {
      AgeFaultless(s, cutoff, io, k + 1, attempts + 1);
    }
  }

  lemma {:induction false} SizeFaultless(s: Store, limit: nat, io: RetainIO, k: nat, attempts: nat)
    requires k <= |s.front| && Faultless(io)
    ensures var p := SizeLoop(s, limit, io, k, attempts); p.ok && p.k == LeastWithin(s, limit, k)
    decreases |s.front| - k
  {
    hide OverLimit;
    if k < |s.front| && OverLimit(s, limit, k) {
      SizeFaultless(s, limit, io, k + 1, attempts + 1);
    }
  }

  /** Without errors the loops carry out the plan. */
  lemma RetainedFaultless(s: Store, cutoff: int, limit: nat, io: RetainIO)
    requires Faultless(io) && !s.closed && !s.poisoned
    ensures var p := Retained(s, cutoff, limit, io); p.ok && Planned(s, cutoff, limit, p.k)
  {
    hide OverLimit, ExpiredCount, Faultless;
    AgeFaultless(s, cutoff, io, 0, 0);
    var a := AgeLoop(s, cutoff, io, 0, 0);
    SizeFaultless(s, limit, io, a.k, a.attempts);
    PlannedExactly(s, cutoff, limit, PlannedCount(s, cutoff, limit));
  }

  lemma {:induction false} AgeExpired(s: Store, cutoff: int, io: RetainIO, k: nat, attempts: nat)
    requires k <= |s.front|
    ensures forall i | k <= i < AgeLoop(s, cutoff, io, k, attempts).k :: s.front[i].latest <= cutoff
    decreases |s.front| - k
  {
    if k < |s.front| {
      AgeExpired(s, cutoff, io, k + 1, attempts + 1);
    }
  }

  lemma {:induction false} SizeOver(s: Store, limit: nat, io: RetainIO, k: nat, attempts: nat)
    requires k <= |s.front|
    ensures forall i | k <= i < SizeLoop(s, limit, io, k, attempts).k :: OverLimit(s, limit, i)
    decreases |s.front| - k
  {
    hide OverLimit;
    if k < |s.front| {
      SizeOver(s, limit, io, k + 1, attempts + 1);
    }
  }

  /** Whatever fails, a segment is removed only if all its records are old, or while the files are too large. */
  ghost predicate Justified(s: Store, cutoff: int, limit: nat, k: nat) {
    k <= |s.front| && forall i | 0 <= i < k :: AllOld(s.front[i], cutoff) || OverLimit(s, limit, i)
  }

  lemma RetainedJustified(s: Store, cutoff: int, limit: nat, io: RetainIO, lim: Limits)
    requires ValidStore(s, lim)
    ensures Justified(s, cutoff, limit, Retained(s, cutoff, limit, io).k)
  {
    hide ValidStore, ValidSeg, OverLimit, AllOld, AgeLoop, SizeLoop;
    if !s.closed && !s.poisoned {
      var a := AgeLoop(s, cutoff, io, 0, 0);
      AgeExpired(s, cutoff, io, 0, 0);
      SizeOver(s, limit, io, a.k, a.attempts);
      forall i | 0 <= i < a.k
        ensures AllOld(s.front[i], cutoff)
      {
        FrontValid(s, i, lim);
        ExpiredMeans(s.front[i], cutoff, lim);
      }
    }
  }
}
