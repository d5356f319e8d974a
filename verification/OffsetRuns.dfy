/** Runs of the offset store: what every step keeps, and what no crash takes away. */
module OffsetRuns {
  import opened Format
  import opened OffsetFormat
  import opened OffsetLog
  import opened OffsetSpec

  /** A commit, acknowledged or failed, a close, a crash with recovery, or an operation that changes nothing. */
  ghost predicate Step(o: Offsets, o': Offsets) {
    || o' == o
    || (exists e, acked :: CommitStep(o, e, o', acked))
    || CloseStep(o, o')
    || RestartStep(o, o')
  }

  ghost predicate Run(os: seq<Offsets>) {
    forall i | 0 < i < |os| :: Step(os[i - 1], os[i])
  }

  lemma CommitIsStep(o: Offsets, e: Entry, o': Offsets, acked: bool)
    requires CommitStep(o, e, o', acked)
    ensures Step(o, o')
  {
  }

  lemma StillStep(o: Offsets)
    ensures Step(o, o)
  {
  }

  /** What a step may not touch: the durable entries. */
  ghost predicate Keeps(o: Offsets, o': Offsets)
    requires o.durable <= |o.entries|
  {
    && o.durable <= o'.durable <= |o'.entries|
    && o'.entries[..o.durable] == o.entries[..o.durable]
  }

  lemma StepKeeps(o: Offsets, o': Offsets)
    requires WellFormed(o) && Step(o, o')
    ensures WellFormed(o') && Keeps(o, o')
  {
    if RestartStep(o, o') {
      assert o'.entries == Attempted(o)[..|o'.entries|];
      assert o.entries[..o.durable] == Attempted(o)[..o.durable];
    }
  }

  lemma {:induction false} DurableStays(os: seq<Offsets>, i: nat, j: nat)
    requires Run(os) && i <= j < |os| && WellFormed(os[i])
    ensures WellFormed(os[j]) && Keeps(os[i], os[j])
    decreases j - i
  {
    hide Step;
    if i < j {
      DurableStays(os, i, j - 1);
      StepKeeps(os[j - 1], os[j]);
      var d := os[i].durable;
      assert os[j].entries[..d] == os[j].entries[..os[j - 1].durable][..d];
      assert os[j - 1].entries[..os[j - 1].durable][..d] == os[j - 1].entries[..d];
    }
  }

  /** An acknowledged commit is there for good, at its place, in every later state, whatever the crashes. */
  lemma AcknowledgedStays(os: seq<Offsets>, i: nat, j: nat, e: Entry)
    requires Run(os) && i < j < |os| && WellFormed(os[i]) && CommitStep(os[i], e, os[i + 1], true)
    ensures os[i].entries + [e] <= os[j].entries
  {
    hide Step;
    DurableStays(os, i + 1, j);
    assert os[j].entries[..|os[i].entries| + 1] == os[i + 1].entries[..|os[i].entries| + 1] == os[i].entries + [e];
  }

  /** A restart adds at most the one commit that had failed, behind all others. */
  lemma RestartAdds(o: Offsets, o': Offsets)
    requires WellFormed(o) && RestartStep(o, o')
    ensures o'.entries <= o.entries || (o.torn.Some? && o'.entries == o.entries + [o.torn.value])
    ensures o'.torn == None && !o'.poisoned
  {
    if |o'.entries| <= |o.entries| {
      assert o'.entries == Attempted(o)[..|o'.entries|] == o.entries[..|o'.entries|];
    }
  }

  /** The step is not a commit for the key, acknowledged or failed. */
  ghost predicate Spares(o: Offsets, o': Offsets, k: Key) {
    forall e, acked | CommitStep(o, e, o', acked) :: KeyOf(e) != k
  }

  /** Between the two states, no commit for the key is tried. */
  ghost predicate Undisturbed(os: seq<Offsets>, i: nat, j: nat, k: Key) {
    forall m | i < m <= j && m < |os| :: Spares(os[m - 1], os[m], k)
  }

  /** From `n` on nothing is for the key, tried or done. */
  ghost predicate NoneAfter(o: Offsets, n: nat, k: Key) {
    n <= |o.entries| && forall x | n <= x < |Attempted(o)| :: KeyOf(Attempted(o)[x]) != k
  }

  lemma NoneAfterStep(o: Offsets, o': Offsets, n: nat, k: Key)
    requires NoneAfter(o, n, k) && Step(o, o') && n <= |o'.entries| && WellFormed(o)
    requires Spares(o, o', k)
    ensures NoneAfter(o', n, k)
  {
    if RestartStep(o, o') {
      assert forall x | 0 <= x < |o'.entries| :: o'.entries[x] == Attempted(o)[x];
      assert Attempted(o') == o'.entries;
    } else if e, acked :| CommitStep(o, e, o', acked) {
      assert Attempted(o') == o.entries + [e];
      assert Attempted(o) == o.entries;
    }
  }

  lemma {:induction false} NoneAfterRun(os: seq<Offsets>, i: nat, j: nat, n: nat, k: Key)
    requires Run(os) && i <= j < |os| && WellFormed(os[i]) && n <= os[i].durable
    requires NoneAfter(os[i], n, k) && Undisturbed(os, i, j, k)
    ensures NoneAfter(os[j], n, k)
    decreases j - i
  {
    hide Step, NoneAfter, Spares;
    if i < j {
      NoneAfterRun(os, i, j - 1, n, k);
      DurableStays(os, i, j - 1);
      DurableStays(os, i, j);
      NoneAfterStep(os[j - 1], os[j], n, k);
    }
  }

  /** In the map, an acknowledged offset stays the offset of its key until another commit for the key is tried. */
  lemma OffsetStays(os: seq<Offsets>, i: nat, j: nat, e: Entry)
    requires Run(os) && i < j < |os| && WellFormed(os[i]) && CommitStep(os[i], e, os[i + 1], true)
    requires Undisturbed(os, i + 1, j, KeyOf(e))
    ensures KeyOf(e) in Fold(os[j].entries) && Fold(os[j].entries)[KeyOf(e)] == e.next
  {
    hide Step, Fold, Undisturbed;
    var n := |os[i].entries|;
    AcknowledgedStays(os, i, j, e);
    StepKeeps(os[i], os[i + 1]);
    assert Attempted(os[i + 1]) == os[i].entries + [e];
    NoneAfterRun(os, i + 1, j, n + 1, KeyOf(e));
    assert os[j].entries[n] == (os[i].entries + [e])[n] == e;
    forall x | n < x < |os[j].entries|
      ensures KeyOf(os[j].entries[x]) != KeyOf(e)
    {
      assert Attempted(os[j])[x] == os[j].entries[x];
    }
    FoldIsLastWrite(os[j].entries, n);
  }
}
