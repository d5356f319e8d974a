/** What a partition store keeps, and how it stands for the log of `LogSpec`. */
module StoreState {
  import opened Format
  import opened Batches
  import opened Index
  import opened SegmentFile
  import LogSpec

  /** The closed segments, the active one, and the flags of the store. `gone` are the batches of the
      segments retention removed, `torn` is a batch whose write failed, `spare` says that a failed
      rollover left an empty log file behind. */
  datatype Store = Store(
    front: seq<SegState>, active: SegState, logEnd: nat, earliest: nat, closed: bool, poisoned: bool,
    gone: seq<Batch>, torn: Option<Batch>, spare: bool)

  /** A closed segment: not empty, nothing after its last batch, all of it on stable storage. */
  ghost predicate ClosedSeg(s: SegState) {
    s.batches != [] && |s.log.bytes| == s.size && s.log.synced == s.size
  }

  /** Where segment `i` must end for the segments to tile the log. */
  function NextBase(front: seq<SegState>, last: nat, i: nat): nat
    requires i <= |front|
  {
    if i < |front| then front[i].base else last
  }

  ghost predicate ValidFront(front: seq<SegState>, last: nat, lim: Limits) {
    forall i | 0 <= i < |front| ::
      ValidSeg(front[i], lim) && ClosedSeg(front[i]) && front[i].next == NextBase(front, last, i + 1)
  }

  /** The active log: exactly its batches, or with part of one more behind them. */
  ghost predicate ValidTail(s: SegState, torn: Option<Batch>, lim: Limits) {
    if torn.None? then |s.log.bytes| == s.size
    else Fitting(s.batches + [torn.value], s.base, lim) && s.log.bytes <= LogBytes(s.batches + [torn.value])
  }

  ghost predicate ValidStore(s: Store, lim: Limits) {
    && ValidFront(s.front, s.active.base, lim)
    && ValidSeg(s.active, lim) && ValidTail(s.active, s.torn, lim)
    && s.logEnd == s.active.next && s.earliest == NextBase(s.front, s.active.base, 0)
    && Run(s.gone, 0) && Count(s.gone) == s.earliest
    && (s.torn.Some? ==> s.poisoned && !s.spare)
    && (s.spare ==> s.poisoned && ClosedSeg(s.active))
  }

  /** The batches of closed segments, in order. */
  ghost function Chain(front: seq<SegState>): seq<Batch> {
    if front == [] then [] else Chain(front[..|front| - 1]) + front[|front| - 1].batches
  }

  ghost function Before(s: Store): seq<Batch> { s.gone + Chain(s.front) }

  ghost function Model(s: Store): LogSpec.Log {
    LogSpec.Log(Before(s) + s.active.batches, |s.gone|, |Before(s)| + Durable(s.active), s.torn, s.poisoned, s.closed)
  }

  lemma {:induction false} OffConcat(a: seq<Batch>, b: seq<Batch>, k: nat)
    requires k <= |b|
    ensures Off(a + b, |a| + k) == Count(a) + Off(b, k)
  {
    if k == 0 {
      Agree(a + b, a, |a|);
    } else {
      OffConcat(a, b, k - 1);
    }
  }

  lemma RunConcat(a: seq<Batch>, b: seq<Batch>, base: nat)
    requires Run(a, base) && Run(b, base + Count(a))
    ensures Run(a + b, base) && Count(a + b) == Count(a) + Count(b)
  {
    hide ValidBatch, Off;
    OffConcat(a, b, |b|);
    forall k | 0 <= k < |a + b|
      ensures ValidBatch((a + b)[k], base + Off(a + b, k))
    {
      if k < |a| {
        Agree(a + b, a, k);
      } else {
        OffConcat(a, b, k - |a|);
      }
    }
  }

  /** Closed segments tile: from the start of the first to the start of the active one. */
  lemma {:induction false} ChainRun(front: seq<SegState>, last: nat, lim: Limits)
    requires ValidFront(front, last, lim)
    ensures Run(Chain(front), NextBase(front, last, 0)) && NextBase(front, last, 0) + Count(Chain(front)) == last
    decreases |front|
  {
    hide ValidBatch, Off, ValidSeg, ClosedSeg, Run;
    if front == [] {
      RunNone(last);
    } else {
      var n := |front| - 1;
      var (init, s) := (front[..n], front[n]);
      FrontPrefix(front, last, lim);
      ChainRun(init, s.base, lim);
      SegRun(s, lim);
      RunConcat(Chain(init), s.batches, NextBase(front, last, 0));
    }
  }

  lemma RunNone(base: nat)
    ensures Run([], base) && Count([]) == 0
  {
  }

  lemma FrontPrefix(front: seq<SegState>, last: nat, lim: Limits)
    requires ValidFront(front, last, lim) && front != []
    ensures ValidFront(front[..|front| - 1], front[|front| - 1].base, lim)
    ensures ValidSeg(front[|front| - 1], lim) && ClosedSeg(front[|front| - 1]) && front[|front| - 1].next == last
    ensures NextBase(front[..|front| - 1], front[|front| - 1].base, 0) == NextBase(front, last, 0)
  {
    hide ValidSeg, ClosedSeg;
  }

  lemma SegRun(s: SegState, lim: Limits)
    requires ValidSeg(s, lim)
    ensures Run(s.batches, s.base) && s.next == s.base + Count(s.batches)
  {
    hide Run, Off, Sound, EntriesOn, Indexable;
  }

  /** The whole history has consecutive offsets from 0, and ends at the log end. */
  lemma HistoryRun(s: Store, lim: Limits)
    requires ValidStore(s, lim)
    ensures Run(Before(s), 0) && Count(Before(s)) == s.active.base
    ensures Run(Model(s).history, 0) && LogSpec.End(Model(s)) == s.logEnd
    ensures LogSpec.Earliest(Model(s)) == s.earliest
  {
    hide ValidBatch, Off, ValidSeg, Run, Chain, ValidFront, ValidTail, ClosedSeg, WholeBatches, LogPrefix, Pos;
    ChainRun(s.front, s.active.base, lim);
    RunConcat(s.gone, Chain(s.front), 0);
    SegRun(s.active, lim);
    RunConcat(Before(s), s.active.batches, 0);
    Agree(Model(s).history, s.gone, |s.gone|);
  }
}
