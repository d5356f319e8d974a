/** The offset store as its users may think of it: a list of commits, of which a beginning is safe
    against crashes, and the map of the last commit for each key. */
module OffsetSpec {
  import opened Format
  import opened OffsetFormat

  /** `torn` is a commit that failed: it may or may not be there after a restart. */
  datatype Offsets = Offsets(entries: seq<Entry>, durable: nat, torn: Option<Entry>, poisoned: bool, closed: bool)

  const NONE := Offsets([], 0, None, false, false)

  predicate WellFormed(o: Offsets) {
    o.durable <= |o.entries| && (o.torn.Some? ==> o.poisoned)
  }

  function Attempted(o: Offsets): seq<Entry> {
    o.entries + if o.torn.Some? then [o.torn.value] else []
  }

  /** An acknowledged commit is in the map and on stable storage; a failed one disables the store. */
  predicate CommitStep(o: Offsets, e: Entry, o': Offsets, acked: bool) {
    && !o.closed && !o.poisoned && o.torn == None
    && (acked ==> o' == o.(entries := o.entries + [e], durable := |o.entries| + 1))
    && (!acked ==> o' == o.(torn := Some(e), poisoned := true))
  }

  predicate CloseStep(o: Offsets, o': Offsets) {
    !o.closed && o.durable <= o'.durable <= |o.entries| && o' == o.(closed := true, durable := o'.durable)
  }

  /** A restart finds a beginning of what was attempted, with at least the durable part. */
  predicate RestartStep(o: Offsets, o': Offsets) {
    && o'.entries <= Attempted(o)
    && o.durable <= o'.durable <= |o'.entries|
    && o' == Offsets(o'.entries, o'.durable, None, false, false)
  }
}
