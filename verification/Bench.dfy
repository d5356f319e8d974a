/** The claim protocols of the load generator, over every interleaving of its workers
    (internal/bench/consumer.go, internal/bench/producer.go). */
module ConsumerClaims {
  import opened Bytes

  /** Where a worker is between a fetch of `n` records and the next one: it has read the counter, it has been
      granted `accepted` records, it has also added them to the observed count. */
  datatype Worker =
    | Fetching | Loaded(n: nat, current: int) | Claimed(n: nat, accepted: int) | Observed(n: nat, accepted: int)

  datatype State = State(counted: int, observed: int, overshoot: int, workers: seq<Worker>)

  predicate Initial(s: State) {
    s.counted == 0 && s.observed == 0 && s.overshoot == 0 && forall w <- s.workers :: w.Fetching?
  }

  function Granted(n: nat, current: int, target: nat): int {
    if current + n > target then target - current else n
  }

  /** One atomic operation of worker `i`. */
  predicate Step(s: State, s': State, i: nat, target: nat) {
    && i < |s.workers|
    && |s'.workers| == |s.workers|
    && match s.workers[i]
       case Fetching =>
         && s'.workers[i].Loaded? && s'.workers[i].n > 0 && s'.workers[i].current == s.counted
         && s' == s.(workers := s.workers[i := s'.workers[i]])
       case Loaded(n, current) =>
         if current >= target then
           s' == s.(workers := s.workers[i := Claimed(n, 0)])
         else if s.counted == current then
           s' == s.(counted := current + Granted(n, current, target),
                    workers := s.workers[i := Claimed(n, Granted(n, current, target))])
         else
           s' == s.(workers := s.workers[i := Loaded(n, s.counted)])
       case Claimed(n, accepted) =>
         s' == s.(observed := s.observed + n, workers := s.workers[i := Observed(n, accepted)])
       case Observed(n, accepted) =>
         s' == s.(overshoot := s.overshoot + n - accepted, workers := s.workers[i := Fetching])
  }

  ghost predicate Next(s: State, s': State, target: nat) { exists i :: Step(s, s', i, target) }

  ghost predicate Run(ss: seq<State>, target: nat) {
    ss != [] && Initial(ss[0]) && forall k | 0 < k < |ss| :: Next(ss[k - 1], ss[k], target)
  }

  /** Records claimed and not observed yet. */
  function Unobserved(ws: seq<Worker>): int {
    if ws == [] then 0 else
      var w := ws[|ws| - 1];
      Unobserved(ws[..|ws| - 1]) + if w.Claimed? then w.n else 0
  }

  /** Records claimed, not granted, and not in the overshoot yet. */
  function Excess(ws: seq<Worker>): int {
    if ws == [] then 0 else
      var w := ws[|ws| - 1];
      Excess(ws[..|ws| - 1]) + if w.Claimed? || w.Observed? then w.n - w.accepted else 0
  }

  lemma {:induction false} Moved(ws: seq<Worker>, i: nat, w: Worker)
    requires i < |ws|
    ensures Unobserved(ws[i := w]) == Unobserved(ws) - Unobserved([ws[i]]) + Unobserved([w])
    ensures Excess(ws[i := w]) == Excess(ws) - Excess([ws[i]]) + Excess([w])
  {
    var last := |ws| - 1;
    if i == last {
      assert ws[i := w][..last] == ws[..last];
    } else {
      Moved(ws[..last], i, w);
      assert ws[i := w][..last] == ws[..last][i := w];
    }
  }

  predicate Idle(ws: seq<Worker>) { forall w <- ws :: w.Fetching? || w.Loaded? }

  lemma {:induction false} IdleNothing(ws: seq<Worker>)
    requires Idle(ws)
    ensures Unobserved(ws) == 0 && Excess(ws) == 0
  {
    if ws != [] {
      assert ws[|ws| - 1] in ws;
      IdleNothing(ws[..|ws| - 1]);
    }
  }

  /** `total` records were claimed so far. */
  ghost predicate Balanced(s: State, target: nat, total: nat) {
    && s.counted == Min(total, target)
    && s.observed + Unobserved(s.workers) == total
    && s.counted + s.overshoot + Excess(s.workers) == total
    && forall w <- s.workers | w.Loaded? :: w.current <= s.counted
  }

  lemma StepBalanced(s: State, s': State, i: nat, target: nat, total: nat) returns (total': nat)
    requires Balanced(s, target, total) && Step(s, s', i, target)
    ensures Balanced(s', target, total')
  {
    var w := s.workers[i];
    total' := if w.Loaded? && (w.current >= target || s.counted == w.current) then total + w.n else total;
    assert s'.workers == s.workers[i := s'.workers[i]];
    Moved(s.workers, i, s'.workers[i]);
    forall v <- s'.workers | v.Loaded?
      ensures v.current <= s'.counted
    {
      var k :| 0 <= k < |s'.workers| && s'.workers[k] == v;
      if k != i { assert s.workers[k] == v; }
    }
  }

  lemma {:induction false} RunBalanced(ss: seq<State>, target: nat) returns (total: nat)
    requires Run(ss, target)
    ensures Balanced(ss[|ss| - 1], target, total)
  {
    var last := |ss| - 1;
    if last == 0 {
      total := 0;
      IdleNothing(ss[0].workers);
    } else {
      total := RunBalanced(ss[..last], target);
      assert Next(ss[last - 1], ss[last], target);
      var i :| Step(ss[last - 1], ss[last], i, target);
      total := StepBalanced(ss[last - 1], ss[last], i, target, total);
    }
  }

  /** In every run the count stays within the target, and whenever all workers are between claims, no record
      observed is lost or counted twice: the count is what was observed up to the target, the overshoot the rest. */
  lemma CountsExact(ss: seq<State>, target: nat)
    requires Run(ss, target)
    ensures var s := ss[|ss| - 1];
            && 0 <= s.counted <= target
            && (Idle(s.workers) ==> s.counted == Min(s.observed, target) && s.observed == s.counted + s.overshoot)
  {
    var s := ss[|ss| - 1];
    var total := RunBalanced(ss, target);
    if Idle(s.workers) { IdleNothing(s.workers); }
  }
}

/** Workers that claim ranges of record numbers with one atomic addition each. */
module ProducerClaims {
  import opened Bytes

  datatype Range = Range(start: int, size: int)

  /** The counter, the ranges handed out, and how many workers have stopped. */
  datatype State = State(next: int, claims: seq<Range>, stopped: nat)

  predicate Initial(s: State) { s == State(0, [], 0) }

  /** One worker's addition: it gets the batch that starts where the counter was, cut at the total, or stops. */
  predicate Step(s: State, s': State, total: int, batchSize: int) {
    if s.next >= total then
      s' == State(s.next + batchSize, s.claims, s.stopped + 1)
    else
      s' == State(s.next + batchSize, s.claims + [Range(s.next, Min(batchSize, total - s.next))], s.stopped)
  }

  predicate Run(ss: seq<State>, total: int, batchSize: int) {
    ss != [] && Initial(ss[0]) && forall k | 0 < k < |ss| :: Step(ss[k - 1], ss[k], total, batchSize)
  }

  /** The ranges follow one another from zero up to `end`. */
  ghost predicate Tiles(claims: seq<Range>, end: int) {
    if claims == [] then end == 0
    else
      var last := claims[|claims| - 1];
      last.size > 0 && last.start + last.size == end && Tiles(claims[..|claims| - 1], last.start)
  }

  predicate In(n: int, r: Range) { r.start <= n < r.start + r.size }

  /** Tiling ranges have every number in exactly one of them. */
  lemma {:induction false} TilesExactlyOnce(claims: seq<Range>, end: int, n: int) returns (i: int)
    requires Tiles(claims, end)
    ensures 0 <= n < end ==>
            0 <= i < |claims| && In(n, claims[i]) && forall j | 0 <= j < |claims| && In(n, claims[j]) :: j == i
    ensures !(0 <= n < end) ==> forall j | 0 <= j < |claims| :: !In(n, claims[j])
    ensures 0 <= end
    decreases |claims|
  {
    i := -1;
    if claims != [] {
      var last := |claims| - 1;
      i := TilesExactlyOnce(claims[..last], claims[last].start, n);
      if In(n, claims[last]) { i := last; }
      assert forall j | 0 <= j < last :: claims[j] == claims[..last][j];
    }
  }

  lemma {:induction false} RunTiles(ss: seq<State>, total: int, batchSize: int)
    requires Run(ss, total, batchSize) && total >= 0 && batchSize > 0
    ensures var s := ss[|ss| - 1];
            0 <= s.next && Tiles(s.claims, Min(s.next, total)) && (s.stopped > 0 ==> s.next > total)
  {
    if |ss| > 1 {
      var last := |ss| - 1;
      RunTiles(ss[..last], total, batchSize);
      var s, s' := ss[last - 1], ss[last];
      if s.next < total { assert s'.claims[..|s.claims|] == s.claims; }
    }
  }

  /** As soon as one worker has stopped, every record number below the total is in exactly one of the ranges handed
      out, and no other number is in any; before that no number is handed out twice either. */
  lemma EachRecordOnce(ss: seq<State>, total: int, batchSize: int, n: int) returns (i: int)
    requires Run(ss, total, batchSize) && total >= 0 && batchSize > 0
    ensures var s := ss[|ss| - 1];
            && (s.stopped > 0 && 0 <= n < total ==> 0 <= i < |s.claims| && In(n, s.claims[i]))
            && (forall j | 0 <= j < |s.claims| && In(n, s.claims[j]) :: j == i && 0 <= n < total)
  {
    var s := ss[|ss| - 1];
    RunTiles(ss, total, batchSize);
    i := TilesExactlyOnce(s.claims, Min(s.next, total), n);
  }
}
