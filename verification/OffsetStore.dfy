/** The consumer offset store (internal/offsets/store.go). */
module OffsetStore {
  import opened Bytes
  import opened Files
  import opened Checksum
  import opened Format
  import opened Codec
  import opened Utf8
  import opened OffsetFormat
  import opened OffsetLog
  import OffsetSpec
  import OffsetRuns

  datatype CommitIO = CommitIO(write: WriteOutcome, synced: bool)

  datatype CommitResult = Committed | InvalidArgument | OffsetStoreClosed | Unavailable | CommitFailed

  datatype GetResult = Got(offset: uint64) | NotFound | GetClosed | GetUnavailable

  /** Writes the payload and the frame into their buffers, as Commit does. */
  method EncodeEntry(e: Entry) returns (data: seq<byte>)
    requires ValidEntry(e)
    ensures data == EntryWire(e)
  {
    hide Payload, ValidEntry, Put32, Crc32;
    EntrySize(e);
    var payload := new byte[28 + |e.group| + |e.topic|](_ => 0);
    PutPayload(payload, e);
    data := FrameEntry(payload[..]);
  }

  method FrameEntry(payload: seq<byte>) returns (data: seq<byte>)
    ensures data == OFFSET_MAGIC + [1] + Put32(ToUint32(|payload| + 4)) + Put32(Crc32(payload)) + payload
  {
    hide Put32, Crc32, ToUint32;
    var encoded := new byte[13 + |payload|](_ => 0);
    var n := PutNext(encoded, 0, 0, OFFSET_MAGIC + [1]);
    n := PutNext(encoded, 0, n, Put32(ToUint32(|payload| + 4)));
    n := PutNext(encoded, 0, n, Put32(Crc32(payload)));
    n := PutNext(encoded, 0, n, payload);
    data := encoded[0..n];
  }

  method PutPayload(payload: array<byte>, e: Entry)
    requires payload.Length == |Payload(e)|
    modifies payload
    ensures payload[..] == Payload(e)
  {
    hide Put32, Put64, ToUint32;
    var n := PutNext(payload, 0, 0, Put32(ToUint32(|e.group|)));
    n := PutNext(payload, 0, n, e.group);
    n := PutNext(payload, 0, n, Put32(ToUint32(|e.topic|)));
    n := PutNext(payload, 0, n, e.topic);
    assert payload[0..n] == Names(e);
    n := PutNext(payload, 0, n, Numbers(e));
    assert payload[0..n] == payload[..];
  }

  /** The fields of the store, the entries in its file, and a commit that failed. */
  datatype OffsetState = OffsetState(
    file: File, offsets: map<Key, uint64>, size: nat, closed: bool, poisoned: bool,
    entries: seq<Entry>, torn: Option<Entry>)

  /** What the file and the map have to do with the entries. A failed commit may have left part of
      its entry, or all of it, at the end of the file. */
  ghost predicate ValidState(s: OffsetState) {
    && AllValid(s.entries) && s.offsets == Fold(s.entries) && s.size == |WireAll(s.entries)|
    && s.file.synced <= |s.file.bytes| && WireAll(s.entries) <= s.file.bytes
    && (s.torn.None? ==> s.file.bytes == WireAll(s.entries))
    && (s.torn.Some? ==> s.poisoned && ValidEntry(s.torn.value) && s.file.bytes <= WireAll(s.entries + [s.torn.value]))
  }

  ghost function ModelOf(s: OffsetState): OffsetSpec.Offsets {
    OffsetSpec.Offsets(s.entries, WholeEntries(s.entries, s.file.synced), s.torn, s.poisoned, s.closed)
  }

  class OffsetStore {
    var file: File
    var offsets: map<Key, uint64>
    var size: nat
    var closed: bool
    var writeFailed: bool
    ghost var entries: seq<Entry>
    ghost var torn: Option<Entry>

    ghost function State(): OffsetState
      reads this
    {
      OffsetState(file, offsets, size, closed, writeFailed, entries, torn)
    }

    ghost predicate Valid()
      reads this
    {
      ValidState(State())
    }

    /** The commits this store stands for. */
    ghost function Model(): OffsetSpec.Offsets
      reads this
    {
      ModelOf(State())
    }

    constructor (file: File, offsets: map<Key, uint64>, size: nat, ghost entries: seq<Entry>)
      ensures this.file == file && this.offsets == offsets && this.size == size && this.entries == entries
      ensures torn == None && !closed && !writeFailed
    {
      this.file, this.offsets, this.size, this.entries := file, offsets, size, entries;
      closed, writeFailed, torn := false, false, None;
    }

    method Commit(group: seq<byte>, topic: seq<byte>, partition: uint32, next: uint64, timestamp: uint64, io: CommitIO)
      returns (r: CommitResult)
      requires Valid()
      modifies this
      ensures Valid() && OffsetRuns.Step(old(Model()), Model())
      ensures r.Committed? || r.CommitFailed? || Model() == old(Model())
      ensures r.InvalidArgument? <==> !(ValidName(group) && ValidName(topic))
      ensures ValidName(group) && ValidName(topic) ==>
                && (old(closed) ==> r == OffsetStoreClosed)
                && (!old(closed) && old(writeFailed) ==> r == Unavailable)
                && (!old(closed) && !old(writeFailed) ==>
                      && r == (if io.write.Complete? && io.synced then Committed else CommitFailed)
                      && OffsetSpec.CommitStep(old(Model()), Entry(group, topic, partition, next, timestamp),
                                               Model(), r.Committed?))
      ensures r.Committed? ==> offsets == old(offsets)[Key(group, topic, partition) := next]
    {
      hide WireAll, Fold, EntryWire, ValidString, WholeEntries, WriteAt, OffsetRuns.Step;
      ghost var o := Model();
      OffsetRuns.StillStep(o);
      if |group| == 0 || |group| > MAX_NAME || !ValidString(group) {
        return InvalidArgument;
      }
      if |topic| == 0 || |topic| > MAX_NAME || !ValidString(topic) {
        return InvalidArgument;
      }
      if closed {
        return OffsetStoreClosed;
      }
      if writeFailed {
        return Unavailable;
      }
      var e := Entry(group, topic, partition, next, timestamp);
      var data := EncodeEntry(e);
      assert size == |file.bytes|;
      WriteAtEnd(file.bytes, Part(data, io.write));
      WirePush(entries, e);
      FoldPush(entries, e);
      WholePush(entries, e, file.synced);
      file := file.(bytes := WriteAt(file.bytes, size, Part(data, io.write)));
      if io.write.Short? {
        writeFailed, torn := true, Some(e);
        OffsetRuns.CommitIsStep(o, e, Model(), false);
        return CommitFailed;
      }
      if !io.synced {
        writeFailed, torn := true, Some(e);
        OffsetRuns.CommitIsStep(o, e, Model(), false);
        return CommitFailed;
      }
      file := file.(synced := |file.bytes|);
      size := size + |data|;
      offsets := offsets[Key(group, topic, partition) := next];
      entries := entries + [e];
      WholeAll(entries, file.synced);
      OffsetRuns.CommitIsStep(o, e, Model(), true);
      r := Committed;
    }

    method Get(group: seq<byte>, topic: seq<byte>, partition: uint32) returns (r: GetResult)
      requires Valid()
      ensures closed ==> r == GetClosed
      ensures !closed && writeFailed ==> r == GetUnavailable
      ensures !closed && !writeFailed ==>
                var (m, k) := (Fold(entries), Key(group, topic, partition));
                r == if k in m then Got(m[k]) else NotFound
    {
      if closed {
        return GetClosed;
      }
      if writeFailed {
        return GetUnavailable;
      }
      var key := Key(group, topic, partition);
      r := if key in offsets then Got(offsets[key]) else NotFound;
    }

    /** Close syncs unless a commit has failed, and closes the file handle. */
    method Close(synced: bool, handleClosed: bool) returns (ok: bool)
      requires Valid()
      modifies this
      ensures Valid() && closed && OffsetRuns.Step(old(Model()), Model())
      ensures old(closed) ==> ok && Model() == old(Model())
      ensures !old(closed) ==>
                OffsetSpec.CloseStep(old(Model()), Model()) && ok == ((synced || old(writeFailed)) && handleClosed)
      ensures !old(closed) && !old(writeFailed) && synced ==> Model().durable == |Model().entries|
    {
      hide WireAll, Fold, EntryWire, WholeEntries;
      if closed {
        return true;
      }
      closed := true;
      ok := true;
      if !writeFailed {
        if synced {
          file := file.(synced := |file.bytes|);
          WholeAll(entries, file.synced);
        }
        ok := synced;
      }
      ok := ok && handleClosed;
    }
  }

  // -------------------------------------------------------------------- opening

  /** What is recovered so far, in front of the rest. */
  function AfterEntries(done: seq<Entry>, s: RecoveredLog): RecoveredLog {
    match s
    case Recovered(es, size) => Recovered(done + es, size)
    case CorruptLog => CorruptLog
  }

  lemma AfterOne(done: seq<Entry>, bytes: seq<byte>, pos: nat)
    requires pos <= |bytes|
    ensures pos == |bytes| || ParseEntry(bytes, pos).Torn? ==>
            AfterEntries(done, ScanFrom(bytes, pos)) == Recovered(done, pos)
    ensures pos < |bytes| && ParseEntry(bytes, pos).Corrupt? ==> AfterEntries(done, ScanFrom(bytes, pos)) == CorruptLog
    ensures pos < |bytes| && ParseEntry(bytes, pos).Good? ==>
              var p := ParseEntry(bytes, pos);
              AfterEntries(done, ScanFrom(bytes, pos)) == AfterEntries(done + [p.entry], ScanFrom(bytes, pos + p.size))
  {
    hide ParseEntry;
    assert done + [] == done;
    if pos < |bytes| && ParseEntry(bytes, pos).Good? {
      var p := ParseEntry(bytes, pos);
      var rest := ScanFrom(bytes, pos + p.size);
      if rest.Recovered? {
        assert done + ([p.entry] + rest.entries) == done + [p.entry] + rest.entries;
      }
    }
  }

  /** The recovery loop: fills the map entry by entry and finds the end of the usable file. */
  method Recover(bytes: seq<byte>) returns (ok: bool, offsets: map<Key, uint64>, size: nat, ghost entries: seq<Entry>)
    ensures !ok ==> ScanFrom(bytes, 0) == CorruptLog
    ensures ok ==> ScanFrom(bytes, 0) == Recovered(entries, size) && offsets == Fold(entries)
  {
    hide ParseEntry, ScanFrom, AfterEntries, Fold;
    ok, offsets, size, entries := true, map[], 0, [];
    FoldNone();
    AfterNone(ScanFrom(bytes, 0));
    while size < |bytes|
      invariant size <= |bytes| && offsets == Fold(entries) && ok
      invariant ScanFrom(bytes, 0) == AfterEntries(entries, ScanFrom(bytes, size))
      decreases |bytes| - size
    {
      AfterOne(entries, bytes, size);
      var p := ParseEntry(bytes, size);
      if p.Torn? {
        return;
      }
      if p.Corrupt? {
        return false, offsets, size, entries;
      }
      FoldPush(entries, p.entry);
      offsets := offsets[KeyOf(p.entry) := p.entry.next];
      entries, size := entries + [p.entry], size + p.size;
    }
    AfterOne(entries, bytes, size);
  }

  lemma FoldNone()
    ensures Fold([]) == map[]
  {
  }

  lemma AfterNone(s: RecoveredLog)
    ensures AfterEntries([], s) == s
  {
    if s.Recovered? {
      assert [] + s.entries == s.entries;
    }
  }

  datatype OpenOffsetsResult = OpenedOffsets(store: OffsetStore) | OffsetsCorrupt | TruncateFailed

  /** OpenStore: a torn tail is cut off and the file synced, which may fail; a complete but bad entry is fatal.
      `was` is the state of the store that left the file, if one did. */
  method OpenOffsets(file: File, truncates: bool, ghost was: OffsetState) returns (r: OpenOffsetsResult)
    requires file.synced <= |file.bytes|
    ensures r.OffsetsCorrupt? <==> ScanFrom(file.bytes, 0).CorruptLog?
    ensures r.TruncateFailed? <==>
              var s := ScanFrom(file.bytes, 0); s.Recovered? && s.size < |file.bytes| && !truncates
    ensures r.OpenedOffsets? ==>
              && fresh(r.store) && r.store.Valid() && !r.store.closed && !r.store.writeFailed
              && ScanFrom(file.bytes, 0) == Recovered(r.store.entries, r.store.size)
              && r.store.file.bytes == file.bytes[..r.store.size] == WireAll(r.store.entries)
    ensures ValidState(was) && CutFile(was.file, file) ==>
              && !r.OffsetsCorrupt? && (truncates ==> r.OpenedOffsets?)
              && (r.OpenedOffsets? ==>
                    && OffsetSpec.RestartStep(ModelOf(was), r.store.Model())
                    && OffsetRuns.Step(ModelOf(was), r.store.Model()))
  {
    hide ScanFrom, Fold, WireAll, WholeEntries, OffsetSpec.RestartStep;
    var ok, offsets, size;
    ghost var entries;
    ok, offsets, size, entries := Recover(file.bytes);
    if ValidState(was) && CutFile(was.file, file) {
      CutRecovers(was, file);
    }
    if !ok {
      return OffsetsCorrupt;
    }
    ScanSound(file.bytes, 0);
    assert file.bytes[0..size] == file.bytes[..size];
    var kept := file;
    if size < |file.bytes| {
      if !truncates {
        return TruncateFailed;
      }
      kept := File(file.bytes[..size], size);
    }
    assert file.bytes[..|file.bytes|] == file.bytes;
    var store := new OffsetStore(kept, offsets, size, entries);
    r := OpenedOffsets(store);
    if ValidState(was) && CutFile(was.file, file) {
      CutRestart(was, file, kept, entries);
    }
  }

  /** A crashed file is a written log, cut. */
  lemma CutRecovers(was: OffsetState, file: File)
    requires ValidState(was) && CutFile(was.file, file)
    ensures var all := OffsetSpec.Attempted(ModelOf(was));
            && AllValid(all) && file.bytes <= WireAll(all) && |file.bytes| >= was.file.synced
            && ScanFrom(file.bytes, 0) ==
               Recovered(all[..WholeEntries(all, |file.bytes|)], |WireAll(all[..WholeEntries(all, |file.bytes|)])|)
  {
    hide ScanFrom, Fold, WireAll, WholeEntries, ValidEntry;
    var all := OffsetSpec.Attempted(ModelOf(was));
    if was.torn.None? {
      assert all == was.entries;
    }
    assert file.bytes[0..] == file.bytes;
    ScanCut(all, file.bytes, 0);
  }

  lemma CutRestart(was: OffsetState, file: File, kept: File, entries: seq<Entry>)
    requires ValidState(was) && CutFile(was.file, file)
    requires ScanFrom(file.bytes, 0).Recovered? && entries == ScanFrom(file.bytes, 0).entries
    requires kept.bytes == WireAll(entries) && (kept == file || kept.synced == |kept.bytes|)
    ensures OffsetSpec.RestartStep(ModelOf(was),
              OffsetSpec.Offsets(entries, WholeEntries(entries, kept.synced), None, false, false))
  {
    hide ScanFrom, Fold, WireAll, WholeEntries, ValidState;
    CutRecovers(was, file);
    var all := OffsetSpec.Attempted(ModelOf(was));
    assert was.entries <= all;
    WholeMore(was.entries, all, was.file.synced, |file.bytes|);
    if kept.synced == |kept.bytes| {
      WholeAll(entries, kept.synced);
    } else {
      WholePrefix(was.entries, all, |entries|, was.file.synced, kept.synced, |file.bytes|);
    }
  }
}
