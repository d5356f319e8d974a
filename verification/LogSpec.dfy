/** The partition log as its users may think of it: one growing list of batches, of which a beginning
    may have been retained away, a beginning is safe against crashes, and the rest may be lost. */
module LogSpec {
  import opened Format
  import opened Batches

  /** `torn` is a batch whose write failed part-way: it may or may not be there after a restart. */
  datatype Log = Log(
    history: seq<Batch>, cut: nat, durable: nat, torn: Option<Batch>, poisoned: bool, closed: bool)

  const EMPTY := Log([], 0, 0, None, false, false)

  ghost predicate WellFormed(l: Log) {
    && Run(l.history, 0) && l.cut <= l.durable <= |l.history|
    && (l.torn.Some? ==> l.poisoned && ValidBatch(l.torn.value, Count(l.history)))
  }

  /** Everything that was ever started and not lost in an earlier crash. */
  ghost function Attempted(l: Log): seq<Batch> {
    l.history + if l.torn.Some? then [l.torn.value] else []
  }

  function End(l: Log): nat { Count(l.history) }

  function DurableEnd(l: Log): nat
    requires l.durable <= |l.history|
  {
    Off(l.history, l.durable)
  }

  function Earliest(l: Log): nat
    requires l.cut <= |l.history|
  {
    Off(l.history, l.cut)
  }

  /** Appending `b`. Acknowledged, it is in the log, and on stable storage in sync mode.
      Not acknowledged, it is in the log, partly written, or not there, and nothing more can be appended. */
  ghost predicate AppendStep(l: Log, b: Batch, sync: bool, l': Log, acked: bool) {
    && !l.closed && !l.poisoned
    && l'.cut == l.cut && !l'.closed && l'.poisoned == !acked
    && l.durable <= l'.durable <= |l'.history|
    && (acked ==> l'.history == l.history + [b] && l'.torn == None && (sync ==> l'.durable == |l'.history|))
    && (!acked ==>
          || (l'.history == l.history && (l'.torn == None || l'.torn == Some(b)))
          || (l'.history == l.history + [b] && l'.torn == None))
  }

  /** Retention removes oldest batches, all of them on stable storage, and nothing else. */
  ghost predicate RetainStep(l: Log, l': Log) {
    !l.closed && !l.poisoned && l.cut <= l'.cut <= l.durable && l' == l.(cut := l'.cut)
  }

  ghost predicate CloseStep(l: Log, l': Log) {
    !l.closed && l.durable <= l'.durable <= |l.history| && l' == l.(closed := true, durable := l'.durable)
  }

  /** A restart finds a beginning of what was attempted, with at least the durable part. */
  ghost predicate RestartStep(l: Log, l': Log) {
    && l'.history <= Attempted(l)
    && l.durable <= l'.durable <= |l'.history|
    && l' == Log(l'.history, l.cut, l'.durable, None, false, false)
  }

  /** Power loss: whatever is found afterwards was on stable storage. */
  ghost predicate PowerLossStep(l: Log, l': Log) {
    RestartStep(l, l') && l'.durable == |l'.history|
  }

  /** Process kill: nothing that was completely written is lost, on stable storage or not. */
  ghost predicate KillStep(l: Log, l': Log) {
    RestartStep(l, l') && l.history <= l'.history
  }
}
