/** The producer's check after a run: the acknowledged ranges of a partition, sorted, must follow one another and
    add up to what the log grew by (internal/bench/producer.go:291-329 and 396-405). */
module Continuity {
  /** First and last offset of an acknowledged batch. */
  datatype AckRange = AckRange(base: nat, last: nat)

  function Length(r: AckRange): int { r.last - r.base + 1 }

  function Total(rs: seq<AckRange>): int {
    if rs == [] then 0 else Total(rs[..|rs| - 1]) + Length(rs[|rs| - 1])
  }

  predicate Sorted(rs: seq<AckRange>) {
    forall i, j | 0 <= i < j < |rs| :: rs[i].base <= rs[j].base
  }

  predicate Consecutive(rs: seq<AckRange>) {
    forall i | 0 < i < |rs| :: rs[i - 1].last + 1 == rs[i].base
  }

  // -------------------------------------------------------------- insertion sort

  /** Everything before `i` is sorted except that `j` may be too small. */
  predicate SortedBut(rs: seq<AckRange>, i: nat, j: nat)
    requires j <= i < |rs|
  {
    && (forall k, l | 0 <= k < l <= i && k != j && l != j :: rs[k].base <= rs[l].base)
    && (forall l | j < l <= i :: rs[j].base <= rs[l].base)
  }

  lemma SwapKeeps(rs: seq<AckRange>, i: nat, j: nat)
    requires 0 < j <= i < |rs| && SortedBut(rs, i, j) && rs[j - 1].base > rs[j].base
    ensures SortedBut(rs[j - 1 := rs[j]][j := rs[j - 1]], i, j - 1)
    ensures multiset(rs[j - 1 := rs[j]][j := rs[j - 1]]) == multiset(rs)
  {
  }

  lemma InPlaceNow(rs: seq<AckRange>, i: nat, j: nat)
    requires j <= i < |rs| && SortedBut(rs, i, j) && (j > 0 ==> rs[j - 1].base <= rs[j].base)
    ensures Sorted(rs[..i + 1])
  {
    forall k, l | 0 <= k < l <= i
      ensures rs[k].base <= rs[l].base
    {
      if l == j && k < j - 1 {
        assert rs[k].base <= rs[j - 1].base;
      }
    }
  }

  lemma SortedStart(rs: seq<AckRange>, i: nat)
    requires i < |rs| && Sorted(rs[..i])
    ensures SortedBut(rs, i, i)
  {
    assert forall k | 0 <= k < i :: rs[..i][k] == rs[k];
  }

  /** Moves element `i` down to its place among those before it. */
  method Insert(a: array<AckRange>, i: nat)
    requires i < a.Length && Sorted(a[..i])
    modifies a
    ensures Sorted(a[..i + 1]) && multiset(a[..]) == multiset(old(a[..]))
  {
    hide Sorted, SortedBut;
    var j := i;
    assert a[..][..i] == a[..i];
    SortedStart(a[..], i);
    while j > 0 && a[j - 1].base > a[j].base
      invariant 0 <= j <= i && SortedBut(a[..], i, j)
      invariant multiset(a[..]) == multiset(old(a[..]))
    {
      ghost var before := a[..];
      SwapKeeps(before, i, j);
      a[j - 1], a[j] := a[j], a[j - 1];
      assert a[..] == before[j - 1 := before[j]][j := before[j - 1]];
      j := j - 1;
    }
    InPlaceNow(a[..], i, j);
    assert a[..][..i + 1] == a[..i + 1];
  }

  method SortRanges(a: array<AckRange>)
    modifies a
    ensures Sorted(a[..]) && multiset(a[..]) == multiset(old(a[..]))
  {
    var i := 1;
    while i < a.Length
      invariant 1 <= i && (i <= a.Length ==> Sorted(a[..i])) && (i > a.Length ==> a.Length == 0)
      invariant multiset(a[..]) == multiset(old(a[..]))
    {
      Insert(a, i);
      i := i + 1;
    }
    assert a.Length > 0 ==> a[..a.Length] == a[..];
  }

  // ------------------------------------------------------------------- the check

  method CountRecords(ranges: seq<AckRange>) returns (count: int)
    ensures count == Total(ranges)
  {
    count := 0;
    for i := 0 to |ranges|
      invariant count == Total(ranges[..i])
    {
      assert ranges[..i + 1][..i] == ranges[..i];
      count := count + Length(ranges[i]);
    }
    assert ranges[..|ranges|] == ranges;
  }

  method CheckConsecutive(a: array<AckRange>) returns (ok: bool)
    ensures ok <==> Consecutive(a[..])
  {
    if a.Length == 0 {
      return true;
    }
    for i := 0 to a.Length - 1
      invariant Consecutive(a[..][..i + 1])
    {
      ConsecutiveNext(a[..], i + 1);
      if a[i].last + 1 != a[i + 1].base {
        return false;
      }
    }
    assert a[..][..a.Length] == a[..];
    ok := true;
  }

  /** What the check does with the ranges recorded for one partition. `sorted` are the ranges as it compares them. */
  method Verify(ranges: seq<AckRange>, initial: nat, final: nat) returns (ok: bool, ghost sorted: seq<AckRange>)
    ensures Sorted(sorted) && multiset(sorted) == multiset(ranges)
    ensures ok <==> ranges == [] || (Total(ranges) == final - initial && Consecutive(sorted))
  {
    hide Total, Consecutive, Sorted;
    if |ranges| == 0 {
      NoneSorted();
      return true, [];
    }
    var count := CountRecords(ranges);
    var a := new AckRange[|ranges|](i requires 0 <= i < |ranges| => ranges[i]);
    assert a[..] == ranges;
    SortRanges(a);
    sorted := a[..];
    var consecutive := CheckConsecutive(a);
    ok := count == final - initial && consecutive;
  }

  lemma NoneSorted()
    ensures Sorted([])
  {
  }

  lemma ConsecutiveNext(rs: seq<AckRange>, i: nat)
    requires 0 < i < |rs|
    ensures Consecutive(rs[..i + 1]) <==> Consecutive(rs[..i]) && rs[i - 1].last + 1 == rs[i].base
  {
    var (p, q) := (rs[..i], rs[..i + 1]);
    if Consecutive(q) {
      forall k | 0 < k < |p| ensures p[k - 1].last + 1 == p[k].base {
        assert q[k - 1].last + 1 == q[k].base;
      }
      assert q[i - 1].last + 1 == q[i].base;
    }
    if Consecutive(p) && rs[i - 1].last + 1 == rs[i].base {
      forall k | 0 < k < |q| ensures q[k - 1].last + 1 == q[k].base {
        if k < i { assert p[k - 1].last + 1 == p[k].base; }
      }
    }
  }

  // ------------------------------------------------------------ order does not matter

  predicate Ascending(rs: seq<AckRange>) {
    forall i, j | 0 <= i < j < |rs| :: rs[i].base < rs[j].base
  }

  lemma Without(rs: seq<AckRange>, k: nat)
    requires k < |rs|
    ensures multiset(rs) == multiset(rs[..k] + rs[k + 1..]) + multiset{rs[k]}
  {
    assert rs == rs[..k] + [rs[k]] + rs[k + 1..];
  }

  lemma Within(a: seq<AckRange>, b: seq<AckRange>, i: nat) returns (k: nat)
    requires i < |a| && multiset(a) == multiset(b)
    ensures k < |b| && b[k] == a[i]
  {
    assert a[i] in multiset(a);
    assert a[i] in b;
    k :| k < |b| && b[k] == a[i];
  }

  lemma SameLast(a: seq<AckRange>, b: seq<AckRange>)
    requires Sorted(a) && Ascending(b) && multiset(a) == multiset(b) && a != [] && b != []
    ensures a[|a| - 1] == b[|b| - 1]
  {
    var k := Within(a, b, |a| - 1);
    var m := Within(b, a, |b| - 1);
    assert a[m].base <= a[|a| - 1].base;
  }

  /** Sorting ranges with different bases gives the one order there is. */
  lemma {:induction false} SortedUnique(a: seq<AckRange>, b: seq<AckRange>)
    requires Sorted(a) && Ascending(b) && multiset(a) == multiset(b)
    ensures a == b
    decreases |a|
  {
    assert |a| == |multiset(a)| && |b| == |multiset(b)|;
    if a != [] {
      var n := |a| - 1;
      SameLast(a, b);
      Without(a, n);
      Without(b, n);
      assert a[..n] + a[n + 1..] == a[..n] && b[..n] + b[n + 1..] == b[..n];
      OneLess(multiset(a[..n]), multiset(b[..n]), a[n]);
      SortedUnique(a[..n], b[..n]);
    }
  }

  lemma OneLess(p: multiset<AckRange>, q: multiset<AckRange>, r: AckRange)
    requires p + multiset{r} == q + multiset{r}
    ensures p == q
  {
    forall x
      ensures p[x] == q[x]
    {
      assert (p + multiset{r})[x] == (q + multiset{r})[x];
    }
  }

  lemma {:induction false} TotalRemove(rs: seq<AckRange>, k: nat)
    requires k < |rs|
    ensures Total(rs) == Total(rs[..k] + rs[k + 1..]) + Length(rs[k])
    decreases |rs|
  {
    var n := |rs| - 1;
    if k == n {
      assert rs[..k] + rs[k + 1..] == rs[..n];
    } else {
      TotalRemove(rs[..n], k);
      var rest := rs[..k] + rs[k + 1..];
      assert rest[..|rest| - 1] == rs[..n][..k] + rs[..n][k + 1..];
    }
  }

  lemma {:induction false} TotalSame(a: seq<AckRange>, b: seq<AckRange>)
    requires multiset(a) == multiset(b)
    ensures Total(a) == Total(b)
    decreases |a|
  {
    assert |a| == |multiset(a)| && |b| == |multiset(b)|;
    if a != [] {
      var n := |a| - 1;
      var k := Within(a, b, n);
      var rest := b[..k] + b[k + 1..];
      Without(a, n);
      Without(b, k);
      assert a[..n] + a[n + 1..] == a[..n];
      OneLess(multiset(a[..n]), multiset(rest), a[n]);
      TotalSame(a[..n], rest);
      TotalRemove(b, k);
    }
  }

  // ------------------------------------------------------------------------ runs

  /** The end of a partition's log; the ranges of this producer in the order the store assigned them; those whose
      worker has not recorded them yet; those recorded, in the order of the lock; and what others added to the log. */
  datatype State = State(
    end: nat, acked: seq<AckRange>, pending: multiset<AckRange>, ranges: seq<AckRange>, others: nat)

  /** An acknowledged append of `n` records, as Store.Append assigns its offsets. */
  ghost predicate ProduceStep(s: State, s': State, n: nat) {
    n > 0 &&
    var r := AckRange(s.end, s.end + n - 1);
    s' == s.(end := s.end + n, acked := s.acked + [r], pending := s.pending + multiset{r})
  }

  /** A worker records its range. */
  ghost predicate RecordStep(s: State, s': State, r: AckRange) {
    r in s.pending && s' == s.(pending := s.pending - multiset{r}, ranges := s.ranges + [r])
  }

  /** The log grows by something else: another producer, or an append that was not acknowledged. */
  ghost predicate OtherStep(s: State, s': State, n: nat) {
    n > 0 && s' == s.(end := s.end + n, others := s.others + n)
  }

  ghost predicate Step(s: State, s': State) {
    || (exists n: nat :: n > 0 && ProduceStep(s, s', n))
    || (exists r :: RecordStep(s, s', r))
    || (exists n: nat :: OtherStep(s, s', n))
  }

  ghost predicate Run(ss: seq<State>, initial: nat) {
    && ss != [] && ss[0] == State(initial, [], multiset{}, [], 0)
    && forall i | 0 < i < |ss| :: Step(ss[i - 1], ss[i])
  }

  /** The ranges fill the log from the initial offset to its end. */
  ghost predicate Filling(rs: seq<AckRange>, initial: nat, end: nat) {
    && Consecutive(rs)
    && if rs == [] then end == initial else rs[0].base == initial && rs[|rs| - 1].last + 1 == end
  }

  /** Every acknowledged range is recorded or about to be. */
  ghost predicate Booked(acked: seq<AckRange>, pending: multiset<AckRange>, ranges: seq<AckRange>) {
    multiset(acked) == pending + multiset(ranges)
  }

  /** The acknowledged ranges and the rest add up to the growth of the log. */
  ghost predicate Spread(acked: seq<AckRange>, others: nat, initial: nat, end: nat) {
    && Ascending(acked) && (forall i | 0 <= i < |acked| :: acked[i].base < end)
    && Total(acked) + others == end - initial
    && (others == 0 ==> Filling(acked, initial, end))
  }

  ghost predicate Invariant(s: State, initial: nat) {
    Booked(s.acked, s.pending, s.ranges) && Spread(s.acked, s.others, initial, s.end)
  }

  lemma BookedMore(acked: seq<AckRange>, pending: multiset<AckRange>, ranges: seq<AckRange>, r: AckRange)
    requires Booked(acked, pending, ranges)
    ensures Booked(acked + [r], pending + multiset{r}, ranges)
  {
    assert multiset(acked + [r]) == multiset(acked) + multiset{r};
  }

  lemma BookedMoved(acked: seq<AckRange>, pending: multiset<AckRange>, ranges: seq<AckRange>, r: AckRange)
    requires Booked(acked, pending, ranges) && r in pending
    ensures Booked(acked, pending - multiset{r}, ranges + [r])
  {
    assert multiset(ranges + [r]) == multiset(ranges) + multiset{r};
    assert pending - multiset{r} + multiset{r} == pending;
  }

  lemma FillingNext(rs: seq<AckRange>, r: AckRange, initial: nat, end: nat)
    requires Filling(rs, initial, end) && r.base == end
    ensures Filling(rs + [r], initial, r.last + 1)
  {
    forall i | 0 < i < |rs + [r]|
      ensures (rs + [r])[i - 1].last + 1 == (rs + [r])[i].base
    {
      if i < |rs| { assert rs[i - 1].last + 1 == rs[i].base; }
    }
  }

  lemma AscendingNext(rs: seq<AckRange>, r: AckRange)
    requires Ascending(rs) && forall i | 0 <= i < |rs| :: rs[i].base < r.base
    ensures Ascending(rs + [r])
  {
  }

  lemma TotalNext(rs: seq<AckRange>, r: AckRange)
    ensures Total(rs + [r]) == Total(rs) + Length(r)
  {
    assert (rs + [r])[..|rs|] == rs;
  }

  lemma SpreadMore(acked: seq<AckRange>, others: nat, initial: nat, end: nat, n: nat)
    requires Spread(acked, others, initial, end) && n > 0
    ensures Spread(acked + [AckRange(end, end + n - 1)], others, initial, end + n)
    ensures Spread(acked, others + n, initial, end + n)
  {
    hide Total, Ascending, Filling;
    var r := AckRange(end, end + n - 1);
    TotalNext(acked, r);
    AscendingNext(acked, r);
    if others == 0 {
      FillingNext(acked, r, initial, end);
    }
  }

  lemma StepKeeps(s: State, s': State, initial: nat)
    requires Invariant(s, initial) && Step(s, s')
    ensures Invariant(s', initial)
  {
    hide Booked, Spread;
    if n: nat :| n > 0 && ProduceStep(s, s', n) {
      BookedMore(s.acked, s.pending, s.ranges, AckRange(s.end, s.end + n - 1));
      SpreadMore(s.acked, s.others, initial, s.end, n);
    } else if r :| RecordStep(s, s', r) {
      BookedMoved(s.acked, s.pending, s.ranges, r);
    } else {
      var n: nat :| OtherStep(s, s', n);
      SpreadMore(s.acked, s.others, initial, s.end, n);
    }
  }

  lemma {:induction false} RunKeeps(ss: seq<State>, initial: nat)
    requires Run(ss, initial)
    ensures Invariant(ss[|ss| - 1], initial)
  {
    hide Step;
    if |ss| > 1 {
      RunKeeps(ss[..|ss| - 1], initial);
      StepKeeps(ss[|ss| - 2], ss[|ss| - 1], initial);
    }
  }

  /** In every interleaving, once all workers have recorded their ranges, the check passes if and only if nothing else
      was added to the partition's log; it has nothing to say if no range was recorded. */
  lemma CheckExact(ss: seq<State>, initial: nat, sorted: seq<AckRange>)
    requires Run(ss, initial) && ss[|ss| - 1].pending == multiset{} && ss[|ss| - 1].ranges != []
    requires Sorted(sorted) && multiset(sorted) == multiset(ss[|ss| - 1].ranges)
    ensures var s := ss[|ss| - 1];
            Total(s.ranges) == s.end - initial && Consecutive(sorted) <==> s.others == 0
  {
    hide Total, Ascending, Sorted, Consecutive;
    var s := ss[|ss| - 1];
    RunKeeps(ss, initial);
    SortedUnique(sorted, s.acked);
    TotalSame(s.ranges, s.acked);
  }
}

/** Appends to a store as the producer counts them. */
module Producing {
  import opened Bytes
  import opened Stamping
  import opened Appending
  import opened PartitionStore
  import C = Continuity
  import S = StoreState
  import LogSpec
  import LogRuns

  /** An acknowledged append is a produce step; one that fails leaves the log end alone, or moves it as others do. */
  method Produce(store: Store, records: seq<Record>, timestamp: int64, io: AppendIO, ghost s: C.State)
    returns (r: AppendResult, ghost s': C.State)
    requires store.Valid() && Proper(io) && s.end == store.logEndOffset
    requires store.logEndOffset + |records| <= MAX_UINT64 && timestamp > -0x8000_0000_0000_0000
    modifies store, store.activeSegment
    ensures store.Valid() && s'.end == store.logEndOffset
    ensures r.Acknowledged? ==> C.ProduceStep(s, s', |records|) && s'.acked == s.acked + [C.AckRange(r.base, r.last)]
    ensures r.AppendFailed? ==> s' == s || C.OtherStep(s, s', |records|)
  {
    hide S.ValidStore, S.Model, Snap, StampedBatch, Mirrored, LogAfter, LogSpec.AppendStep, LogRuns.LiveStep;
    r := store.Append(records, timestamp, io);
    if r.Acknowledged? {
      var range := C.AckRange(r.base, r.last);
      s' := s.(end := store.logEndOffset, acked := s.acked + [range], pending := s.pending + multiset{range});
    } else if store.logEndOffset == s.end {
      s' := s;
    } else {
      s' := s.(end := store.logEndOffset, others := s.others + (store.logEndOffset - s.end));
    }
  }
}
