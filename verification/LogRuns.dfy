/** Runs of a partition log: what every step keeps, what no crash takes away, and which offsets are
    safe to hand out. */
module LogRuns {
  import opened Format
  import opened Batches
  import opened LogSpec

  /** A step of a running store; a failed or refused operation may leave the log as it is. */
  ghost predicate LiveStep(l: Log, l': Log, sync: bool) {
    || l' == l
    || (exists b, acked :: ValidBatch(b, End(l)) && AppendStep(l, b, sync, l', acked))
    || RetainStep(l, l')
    || CloseStep(l, l')
  }

  /** A step, with any crash. */
  ghost predicate AnyStep(l: Log, l': Log, sync: bool) {
    LiveStep(l, l', sync) || RestartStep(l, l')
  }

  /** A step, where every crash is a power loss. */
  ghost predicate PowerStep(l: Log, l': Log, sync: bool) {
    LiveStep(l, l', sync) || PowerLossStep(l, l')
  }

  ghost predicate LiveRun(ls: seq<Log>, sync: bool) {
    forall i | 0 < i < |ls| :: LiveStep(ls[i - 1], ls[i], sync)
  }

  ghost predicate AnyRun(ls: seq<Log>, sync: bool) {
    forall i | 0 < i < |ls| :: AnyStep(ls[i - 1], ls[i], sync)
  }

  ghost predicate PowerRun(ls: seq<Log>, sync: bool) {
    forall i | 0 < i < |ls| :: PowerStep(ls[i - 1], ls[i], sync)
  }

  lemma StillLive(l: Log, sync: bool)
    ensures LiveStep(l, l, sync)
  {
  }

  lemma AppendLive(l: Log, b: Batch, sync: bool, l': Log, acked: bool)
    requires ValidBatch(b, End(l)) && AppendStep(l, b, sync, l', acked)
    ensures LiveStep(l, l', sync)
  {
    hide ValidBatch, AppendStep;
  }

  /** A running store never takes anything out of its history. */
  lemma LiveGrows(l: Log, l': Log, sync: bool)
    requires LiveStep(l, l', sync)
    ensures l.history <= l'.history
  {
    hide ValidBatch;
  }

  lemma CloseLive(l: Log, l': Log, sync: bool)
    requires CloseStep(l, l')
    ensures LiveStep(l, l', sync)
  {
  }

  lemma OffPrefix(a: seq<Batch>, b: seq<Batch>, k: nat)
    requires k <= |a| && k <= |b| && a[..k] == b[..k]
    ensures Off(a, k) == Off(b, k)
  {
    assert forall i | 0 <= i < k :: a[i] == a[..k][i];
    Agree(a, b, k);
  }

  /** What one step may not touch: the durable beginning of the history, and what it is worth. */
  ghost predicate Keeps(l: Log, l': Log)
    requires l.durable <= |l.history|
  {
    && l.durable <= l'.durable <= |l'.history| && l.cut <= l'.cut
    && l'.history[..l.durable] == l.history[..l.durable]
  }

  lemma RunPrefix(all: seq<Batch>, n: nat, base: nat)
    requires Run(all, base) && n <= |all|
    ensures Run(all[..n], base)
  {
    hide ValidBatch, Off, Pos, LogPrefix;
    AgreeAll(all[..n], all);
  }

  lemma RunPush(bs: seq<Batch>, b: Batch)
    requires Run(bs, 0) && ValidBatch(b, Count(bs))
    ensures Run(bs + [b], 0)
  {
    hide ValidBatch, Off, Pos, LogPrefix;
    AgreeAll(bs, bs + [b]);
  }

  /** Every step keeps the log well-formed, so offsets are consecutive from 0 in every reachable
      state, and keeps its durable part. */
  lemma StepKeeps(l: Log, l': Log, sync: bool)
    requires WellFormed(l) && AnyStep(l, l', sync)
    ensures WellFormed(l') && Keeps(l, l')
  {
    hide ValidBatch, Run, Off;
    if b, acked :| ValidBatch(b, End(l)) && AppendStep(l, b, sync, l', acked) {
      RunPush(l.history, b);
      assert (l.history + [b])[..l.durable] == l.history[..l.durable];
    } else if RestartStep(l, l') {
      var all := Attempted(l);
      if l.torn.Some? {
        RunPush(l.history, l.torn.value);
      } else {
        assert all == l.history;
      }
      RunPrefix(all, |l'.history|, 0);
      assert l'.history == all[..|l'.history|];
    }
  }

  /** No run loses anything durable. In sync mode that is every acknowledged batch. */
  lemma {:induction false} DurableStays(ls: seq<Log>, sync: bool, i: nat, j: nat)
    requires AnyRun(ls, sync) && i <= j < |ls| && WellFormed(ls[i])
    ensures WellFormed(ls[j]) && Keeps(ls[i], ls[j])
    decreases j - i
  {
    hide AnyStep, WellFormed;
    WellFormedBounds(ls[i]);
    if i < j {
      DurableStays(ls, sync, i, j - 1);
      StepKeeps(ls[j - 1], ls[j], sync);
      assert ls[j].history[..ls[i].durable] == ls[j].history[..ls[j - 1].durable][..ls[i].durable];
      assert ls[j - 1].history[..ls[j - 1].durable][..ls[i].durable] == ls[j - 1].history[..ls[i].durable];
    }
  }

  lemma WellFormedBounds(l: Log)
    requires WellFormed(l)
    ensures l.cut <= l.durable <= |l.history|
  {
    hide Run;
  }

  /** Acknowledged in sync mode is there for good: with its offsets, in every later state of any run. */
  lemma AcknowledgedStays(ls: seq<Log>, i: nat, j: nat, b: Batch)
    requires AnyRun(ls, true) && i + 1 <= j < |ls| && WellFormed(ls[i])
    requires ValidBatch(b, End(ls[i])) && AppendStep(ls[i], b, true, ls[i + 1], true)
    ensures ls[i].history + [b] <= ls[j].history
  {
    hide AnyStep, WellFormed, ValidBatch;
    assert AnyStep(ls[i], ls[i + 1], true);
    StepKeeps(ls[i], ls[i + 1], true);
    DurableStays(ls, true, i + 1, j);
    assert ls[j].history[..|ls[i].history| + 1] == ls[i + 1].history;
  }

  // -------------------------------------------------- offsets that can be handed out

  lemma EndAtLeast(l: Log, k: nat)
    requires k <= |l.history|
    ensures Off(l.history, k) <= End(l)
  {
    Increasing(l.history, k, |l.history|);
  }

  /** An offset up to the durable end never falls past the log end again. */
  lemma SafeOffset(ls: seq<Log>, sync: bool, i: nat, j: nat, c: nat)
    requires AnyRun(ls, sync) && i <= j < |ls| && WellFormed(ls[i]) && c <= DurableEnd(ls[i])
    ensures c <= End(ls[j])
  {
    hide AnyStep, WellFormed, Off;
    WellFormedBounds(ls[i]);
    DurableStays(ls, sync, i, j);
    OffPrefix(ls[i].history, ls[j].history, ls[i].durable);
    EndAtLeast(ls[j], ls[i].durable);
  }

  /** The log after a power loss that takes everything it can. */
  ghost function Worst(l: Log): Log
    requires l.durable <= |l.history|
  {
    Log(l.history[..l.durable], l.cut, l.durable, None, false, false)
  }

  /** Exactly the offsets up to the durable end are safe: a committed offset stays within the log in every
      continuation if and only if it is at most the durable end when it is committed. */
  lemma SafeExactly(l: Log, sync: bool, c: nat)
    requires WellFormed(l)
    ensures c <= DurableEnd(l) <==>
            forall ls: seq<Log>, j: nat | j < |ls| && ls[0] == l && AnyRun(ls, sync) :: c <= End(ls[j])
  {
    hide AnyStep, WellFormed, Off;
    WellFormedBounds(l);
    if c <= DurableEnd(l) {
      forall ls: seq<Log>, j: nat | j < |ls| && ls[0] == l && AnyRun(ls, sync)
        ensures c <= End(ls[j])
      {
        SafeOffset(ls, sync, 0, j, c);
      }
    } else {
      var ls := [l, Worst(l)];
      WorstStep(l, sync);
      OffPrefix(l.history, Worst(l).history, l.durable);
      assert AnyRun(ls, sync) && ls[0] == l && End(ls[1]) < c;
    }
  }

  lemma WorstStep(l: Log, sync: bool)
    requires WellFormed(l)
    ensures AnyStep(l, Worst(l), sync) && PowerLossStep(l, Worst(l))
  {
    hide Run, ValidBatch, LiveStep;
    assert l.history[..l.durable] <= l.history <= Attempted(l);
  }

  /** In sync mode, as long as every crash is a power loss, an unpoisoned log is durable to its end. */
  ghost predicate AllDurable(l: Log) { !l.poisoned ==> l.durable == |l.history| }

  lemma DurableStep(l: Log, l': Log)
    requires WellFormed(l) && AllDurable(l) && PowerStep(l, l', true)
    ensures WellFormed(l') && AllDurable(l')
  {
    hide WellFormed;
    PowerIsAny(l, l', true);
    StepKeeps(l, l', true);
    WellFormedBounds(l');
  }

  lemma {:induction false} SyncDurable(ls: seq<Log>, i: nat)
    requires PowerRun(ls, true) && i < |ls| && AllDurable(ls[0]) && WellFormed(ls[0])
    ensures AllDurable(ls[i]) && WellFormed(ls[i])
  {
    hide WellFormed, PowerStep, AllDurable;
    if i > 0 {
      SyncDurable(ls, i - 1);
      DurableStep(ls[i - 1], ls[i]);
    }
  }

  /** So what the commit handler checks is enough: in sync mode, with power losses only, an offset up to the
      log end of an unpoisoned store stays within the log in every later state. */
  lemma SyncCommitSafe(ls: seq<Log>, i: nat, j: nat, c: nat)
    requires PowerRun(ls, true) && ls != [] && AllDurable(ls[0]) && WellFormed(ls[0])
    requires i <= j < |ls| && !ls[i].poisoned && c <= End(ls[i])
    ensures c <= End(ls[j])
  {
    hide LiveStep, PowerLossStep, WellFormed, Off;
    SyncDurable(ls, i);
    forall k | 0 < k < |ls|
      ensures AnyStep(ls[k - 1], ls[k], true)
    {
      PowerIsAny(ls[k - 1], ls[k], true);
    }
    SafeOffset(ls, true, i, j, c);
  }

  lemma PowerIsAny(l: Log, l': Log, sync: bool)
    requires PowerStep(l, l', sync)
    ensures AnyStep(l, l', sync)
  {
    hide LiveStep;
  }
}
