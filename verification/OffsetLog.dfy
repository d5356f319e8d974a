/** The consumer offset log: a file of entries, the map it stands for, and its recovery
    (internal/offsets/store.go:91-219). */
module OffsetLog {
  import opened Bytes
  import opened OffsetFormat

  datatype Key = Key(group: seq<byte>, topic: seq<byte>, partition: uint32)

  function KeyOf(e: Entry): Key { Key(e.group, e.topic, e.partition) }

  predicate AllValid(es: seq<Entry>) { forall i | 0 <= i < |es| :: ValidEntry(es[i]) }

  function WireAll(es: seq<Entry>): seq<byte> {
    if es == [] then [] else EntryWire(es[0]) + WireAll(es[1..])
  }

  /** Last write wins: later entries overwrite earlier ones. */
  function Fold(es: seq<Entry>): map<Key, uint64> {
    if es == [] then map[] else Fold(es[..|es| - 1])[KeyOf(es[|es| - 1]) := es[|es| - 1].next]
  }

  /** What the map says of a key is the offset of the last entry for it, whatever the timestamps. */
  lemma {:induction false} FoldIsLastWrite(es: seq<Entry>, i: nat)
    requires i < |es| && forall j | i < j < |es| :: KeyOf(es[j]) != KeyOf(es[i])
    ensures KeyOf(es[i]) in Fold(es) && Fold(es)[KeyOf(es[i])] == es[i].next
    decreases |es|
  {
    if i < |es| - 1 {
      FoldIsLastWrite(es[..|es| - 1], i);
    }
  }

  /** And it says nothing of keys that were never written. */
  lemma {:induction false} FoldOnlyWritten(es: seq<Entry>, k: Key)
    requires k in Fold(es)
    ensures exists i :: 0 <= i < |es| && KeyOf(es[i]) == k
    decreases |es|
  {
    var n := |es| - 1;
    if k != KeyOf(es[n]) {
      FoldOnlyWritten(es[..n], k);
      var i :| 0 <= i < n && KeyOf(es[..n][i]) == k;
      assert KeyOf(es[i]) == k;
    }
  }

  lemma FoldPush(es: seq<Entry>, e: Entry)
    ensures Fold(es + [e]) == Fold(es)[KeyOf(e) := e.next]
  {
    assert (es + [e])[..|es|] == es;
  }

  lemma {:induction false} WirePush(es: seq<Entry>, e: Entry)
    ensures WireAll(es + [e]) == WireAll(es) + EntryWire(e)
    decreases |es|
  {
    hide EntryWire;
    if es == [] {
      assert ([e])[1..] == [];
    } else {
      WirePush(es[1..], e);
      assert (es + [e])[1..] == es[1..] + [e];
    }
  }

  /** The number of whole entries in the first `length` bytes. */
  function WholeEntries(es: seq<Entry>, length: nat): (n: nat)
    ensures n <= |es|
    decreases |es|
  {
    if es == [] || |EntryWire(es[0])| > length then 0
    else 1 + WholeEntries(es[1..], length - |EntryWire(es[0])|)
  }

  lemma {:induction false} WholeAll(es: seq<Entry>, length: nat)
    requires |WireAll(es)| <= length
    ensures WholeEntries(es, length) == |es|
    decreases |es|
  {
    hide EntryWire;
    if es != [] {
      WholeAll(es[1..], length - |EntryWire(es[0])|);
    }
  }

  /** More bytes, or further entries, never make fewer whole ones. */
  lemma {:induction false} WholeMore(es: seq<Entry>, more: seq<Entry>, length: nat, longer: nat)
    requires es <= more && length <= longer
    ensures WholeEntries(es, length) <= WholeEntries(more, longer)
    decreases |es|
  {
    hide EntryWire;
    if es != [] && |EntryWire(es[0])| <= length {
      WholeMore(es[1..], more[1..], length - |EntryWire(es[0])|, longer - |EntryWire(es[0])|);
    }
  }

  /** Whole entries of a beginning, counted in the whole list cut after `n` entries. */
  lemma {:induction false} WholePrefix(es: seq<Entry>, more: seq<Entry>, n: nat, length: nat, longer: nat, longest: nat)
    requires es <= more && length <= longer <= longest && n <= |more| && n == WholeEntries(more, longest)
    ensures WholeEntries(es, length) <= WholeEntries(more[..n], longer)
    decreases |es|
  {
    hide EntryWire;
    if es != [] && |EntryWire(es[0])| <= length {
      var size := |EntryWire(es[0])|;
      WholePrefix(es[1..], more[1..], n - 1, length - size, longer - size, longest - size);
      assert more[..n][1..] == more[1..][..n - 1];
    }
  }

  /** Bytes up to the end of the last entry say nothing about a further one. */
  lemma {:induction false} WholePush(es: seq<Entry>, e: Entry, length: nat)
    requires length <= |WireAll(es)|
    ensures WholeEntries(es + [e], length) == WholeEntries(es, length)
    decreases |es|
  {
    hide WholeEntries, EntryWire;
    WholeUnfold(es, length);
    WholeUnfold(es + [e], length);
    if es == [] {
      WireLong(e);
    } else {
      WireUnfold(es);
      assert (es + [e])[1..] == es[1..] + [e] && (es + [e])[0] == es[0];
      if |EntryWire(es[0])| <= length {
        WholePush(es[1..], e, length - |EntryWire(es[0])|);
      }
    }
  }

  lemma WholeUnfold(es: seq<Entry>, length: nat)
    ensures WholeEntries(es, length) ==
            if es == [] || |EntryWire(es[0])| > length then 0
            else 1 + WholeEntries(es[1..], length - |EntryWire(es[0])|)
  {
    hide EntryWire;
  }

  lemma WireUnfold(es: seq<Entry>)
    requires es != []
    ensures WireAll(es) == EntryWire(es[0]) + WireAll(es[1..])
  {
  }

  lemma WireLong(e: Entry)
    ensures |EntryWire(e)| >= 13
  {
    hide Put32, Payload;
  }

  // ------------------------------------------------------------------ recovery

  datatype RecoveredLog = Recovered(entries: seq<Entry>, size: nat) | CorruptLog

  /** The recovery loop from a position on. */
  function ScanFrom(bytes: seq<byte>, pos: nat): (s: RecoveredLog)
    requires pos <= |bytes|
    ensures s.Recovered? ==> pos <= s.size <= |bytes|
    decreases |bytes| - pos
  {
    if pos == |bytes| then Recovered([], pos)
    else
      match ParseEntry(bytes, pos)
      case Torn => Recovered([], pos)
      case Corrupt => CorruptLog
      case Good(e, size) => (
        match ScanFrom(bytes, pos + size)
        case Recovered(es, end) => Recovered([e] + es, end)
        case CorruptLog => CorruptLog)
  }

  /** Any file recovery accepts is, up to the recovered size, the encodings of what it found. */
  lemma {:induction false} ScanSound(bytes: seq<byte>, pos: nat)
    requires pos <= |bytes| && ScanFrom(bytes, pos).Recovered?
    ensures var s := ScanFrom(bytes, pos);
            AllValid(s.entries) && bytes[pos..s.size] == WireAll(s.entries)
    decreases |bytes| - pos
  {
    hide ParseEntry, EntryWire, ValidEntry;
    if pos < |bytes| && ParseEntry(bytes, pos).Good? {
      var (e, size) := (ParseEntry(bytes, pos).entry, ParseEntry(bytes, pos).size);
      EntrySound(bytes, pos);
      ScanSound(bytes, pos + size);
      var rest := ScanFrom(bytes, pos + size);
      assert ([e] + rest.entries)[1..] == rest.entries;
      assert bytes[pos..rest.size] == bytes[pos..pos + size] + bytes[pos + size..rest.size];
    }
  }

  /** A written log, cut anywhere, is recovered to its whole entries. */
  lemma {:induction false} ScanCut(all: seq<Entry>, bytes: seq<byte>, pos: nat)
    requires AllValid(all) && pos <= |bytes| && bytes[pos..] <= WireAll(all)
    ensures var n := WholeEntries(all, |bytes| - pos);
            ScanFrom(bytes, pos) == Recovered(all[..n], pos + |WireAll(all[..n])|)
    decreases |all|
  {
    hide ParseEntry, EntryWire, ValidEntry;
    if pos == |bytes| {
      if all != [] {
        WireLong(all[0]);
      }
      assert all[..0] == [];
    } else {
      var (e, rest) := (all[0], all[1..]);
      var (wire, left) := (EntryWire(e), bytes[pos..]);
      var size := |wire|;
      WireUnfold(all);
      WireLong(e);
      if size <= |bytes| - pos {
        assert bytes[pos..pos + size] == left[..size] == wire;
        assert bytes[pos + size..] == left[size..] <= WireAll(rest);
        EntryComplete(bytes, pos, e);
        ScanCut(rest, bytes, pos + size);
        var n := WholeEntries(rest, |bytes| - pos - size);
        assert all[..n + 1] == [e] + rest[..n] && all[..n + 1][1..] == rest[..n];
      } else {
        assert left == wire[..|bytes| - pos];
        EntryTorn(bytes, pos, e);
      }
    }
  }
}
