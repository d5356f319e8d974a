/** The I/O of an append and of retention, file operation by file operation. Every moment of it leaves the files that
    some outcome of the whole call leaves, so what holds between calls holds at any moment
    (internal/storage/store.go:223-289 and 854-888). */
module Midway {
  import opened Bytes
  import opened Files
  import opened Format
  import opened Batches
  import opened Index
  import opened SegmentFile
  import opened StoreState
  import opened StoreSteps
  import opened Appending
  import opened Placement
  import opened Retention
  import opened Crash
  import opened Interrupted
  import opened Lifecycle
  import LogSpec

  // ---------------------------------------------------------------- file operations

  /** One call to the operating system. */
  datatype FileOp =
    | SyncLog(base: nat) | SyncIndex(base: nat) | CreateLog(base: nat) | CreateIndex(base: nat)
    | WriteLog(base: nat, at: nat, data: seq<byte>) | WriteIndex(base: nat, at: nat, data: seq<byte>)
    | RemoveLog(base: nat) | RemoveIndex(base: nat)

  function Synced(f: File): File { f.(synced := |f.bytes|) }

  function Written(f: File, at: nat, data: seq<byte>): File
    requires at <= |f.bytes|
  {
    File(WriteAt(f.bytes, at, data), SyncedAfter(f.synced, at, data))
  }

  /** What an operation does to the files of its segment. An index file that is not there is read as an empty one. */
  function Effect(f: SegFiles, op: FileOp): SegFiles {
    match op
    case SyncLog(_) => f.(log := Synced(f.log))
    case SyncIndex(_) => f.(index := Synced(f.index))
    case WriteLog(_, at, data) => if at <= |f.log.bytes| then f.(log := Written(f.log, at, data)) else f
    case WriteIndex(_, at, data) => if at <= |f.index.bytes| then f.(index := Written(f.index, at, data)) else f
    case RemoveIndex(_) => f.(index := File([], 0))
    case _ => f
  }

  /** A segment is in the directory if its log is. */
  function Did(dir: Directory, op: FileOp): Directory {
    if op.RemoveLog? then dir - {op.base}
    else if op.base in dir then dir[op.base := Effect(dir[op.base], op)]
    else if op.CreateLog? then dir[op.base := NO_BYTES]
    else dir
  }

  function DidAll(dir: Directory, ops: seq<FileOp>): Directory {
    if ops == [] then dir else Did(DidAll(dir, ops[..|ops| - 1]), ops[|ops| - 1])
  }

  /** The first `k` operations, and `n` bytes of the next if that is a write. */
  function Begun(ops: seq<FileOp>, k: nat, n: nat): seq<FileOp>
    requires k <= |ops|
  {
    if k < |ops| && (ops[k].WriteLog? || ops[k].WriteIndex?) then
      ops[..k] + [ops[k].(data := Part(ops[k].data, Short(n)))]
    else ops[..k]
  }

  // ---------------------------------------------------------------------- the plans

  function FlushPlan(g: SegState): seq<FileOp> {
    [SyncLog(g.base)] + if g.dirty then [SyncIndex(g.base)] else []
  }

  function RollPlan(s: Store): seq<FileOp> {
    FlushPlan(s.active) + [CreateLog(s.logEnd), CreateIndex(s.logEnd)]
  }

  ghost function PutPlan(g: SegState, b: Batch, interval: nat): seq<FileOp>
    requires g.base <= g.next <= g.base + MAX_UINT32 && g.size <= MAX_INT64
  {
    [WriteLog(g.base, g.size, b.bytes)]
    + if Due(g.entries, g.size, interval) then
        [WriteIndex(g.base, g.indexSize, EntryBytes(IndexEntry(g.next - g.base, g.size)))]
      else []
  }

  /** The operations once there is a segment to write to. */
  ghost function WritePlan(s: Store, b: Batch, sync: bool, lim: Limits): seq<FileOp>
    requires Ready(s)
  {
    if s.logEnd - s.active.base > MAX_UINT32 then []
    else
      PutPlan(s.active, b, lim.interval)
      + if sync then FlushPlan(GrownSeg(s.active, b, 12, lim.interval)) else []
  }

  /** All operations of an append, none of which fails. */
  ghost function AppendPlan(s: Store, b: Batch, sync: bool, lim: Limits): seq<FileOp>
    requires Ready(s)
  {
    if Rolls(s, |b.bytes|, lim) then RollPlan(s) + WritePlan(RollOutcome(s, NO_FAILURE), b, sync, lim)
    else WritePlan(s, b, sync, lim)
  }

  // --------------------------------------------------------------- running operations

  lemma {:induction false} DidConcat(dir: Directory, a: seq<FileOp>, b: seq<FileOp>)
    ensures DidAll(dir, a + b) == DidAll(DidAll(dir, a), b)
    decreases |b|
  {
    if b == [] {
      assert a + b == a;
    } else {
      var init := b[..|b| - 1];
      DidConcat(dir, a, init);
      assert (a + b)[..|a + b| - 1] == a + init;
    }
  }

  lemma DidNone(dir: Directory)
    ensures DidAll(dir, []) == dir
  {
  }

  lemma DidOne(dir: Directory, op: FileOp)
    ensures DidAll(dir, [op]) == Did(dir, op)
  {
    assert [op][..0] == [];
    assert DidAll(dir, []) == dir;
  }

  lemma DidPush(dir: Directory, ops: seq<FileOp>, op: FileOp)
    ensures DidAll(dir, ops + [op]) == Did(DidAll(dir, ops), op)
  {
    DidConcat(dir, ops, [op]);
    DidOne(DidAll(dir, ops), op);
  }

  lemma BegunConcat(a: seq<FileOp>, b: seq<FileOp>, k: nat, n: nat)
    requires k <= |a| + |b|
    ensures Begun(a + b, k, n) == if k < |a| then Begun(a, k, n) else a + Begun(b, k - |a|, n)
  {
    if k < |a| {
      assert (a + b)[..k] == a[..k];
    } else {
      assert (a + b)[..k] == a + b[..k - |a|];
    }
  }

  // ------------------------------------------------------------- files and directories

  /** No closed segment has the name of the active one. */
  ghost predicate Apart(s: Store) {
    forall i | 0 <= i < |s.front| :: s.front[i].base < s.active.base
  }

  lemma ValidApart(s: Store, lim: Limits)
    requires ValidStore(s, lim)
    ensures Apart(s)
  {
    hide ValidStore;
    forall i | 0 <= i < |s.front|
      ensures s.front[i].base < s.active.base
    {
      BasesApart(s, i, |s.front|, lim);
    }
  }

  ghost predicate SameFiles(s: Store, t: Store) {
    && t.front == s.front && t.active.base == s.active.base && t.active.log == s.active.log
    && t.active.index == s.active.index && !s.spare && !t.spare
  }

  lemma ExactSame(s: Store, t: Store, dir: Directory)
    requires SameFiles(s, t) && ExactFiles(s, dir)
    ensures ExactFiles(t, dir)
  {
    hide Images;
    forall b
      ensures b in dir <==> exists i | 0 <= i < |Images(t)| :: b == Images(t)[i].base
    {
      ImageNames(s, b);
      ImageNames(t, b);
      assert forall i | 0 <= i <= |s.front| :: Seg(s, i).base == Seg(t, i).base;
    }
    assert Seg(s, |s.front|) == s.active && Seg(t, |s.front|) == t.active;
    assert forall i | 0 <= i < |s.front| :: Seg(s, i) == Seg(t, i);
  }

  /** The active segment after an operation on its files. */
  function Touched(s: Store, op: FileOp): Store {
    var f := Effect(SegFiles(s.active.log, s.active.index), op);
    s.(active := s.active.(log := f.log, index := f.index))
  }

  lemma OnActive(s: Store, dir: Directory, op: FileOp)
    requires Apart(s) && !s.spare && ExactFiles(s, dir) && op.base == s.active.base && !op.RemoveLog?
    ensures ExactFiles(Touched(s, op), Did(dir, op))
  {
    hide Images, Effect;
    var t := Touched(s, op);
    assert Seg(s, |s.front|) == s.active && Seg(t, |s.front|) == t.active;
    assert forall i | 0 <= i < |s.front| :: Seg(s, i) == Seg(t, i) == s.front[i];
    forall b
      ensures b in dir <==> exists i | 0 <= i < |Images(t)| :: b == Images(t)[i].base
    {
      ImageNames(s, b);
      ImageNames(t, b);
      assert forall i | 0 <= i <= |s.front| :: Seg(s, i).base == Seg(t, i).base;
    }
  }

  // ------------------------------------------------------------------ flush and roll

  /** How a flush that ends after `k` operations ends. */
  function FlushAt(g: SegState, k: nat): FlushOutcome {
    if k == 0 then LogSyncFailed else if k == 1 && g.dirty then IndexSyncFailed else Flushed
  }

  lemma FlushAtEnd(g: SegState)
    ensures FlushAt(g, |FlushPlan(g)|) == Flushed
  {
  }

  lemma FlushMoment(s: Store, dir: Directory, k: nat)
    requires Apart(s) && !s.spare && ExactFiles(s, dir) && k <= |FlushPlan(s.active)|
    ensures ExactFiles(s.(active := FlushedSeg(s.active, FlushAt(s.active, k))), DidAll(dir, FlushPlan(s.active)[..k]))
  {
    hide ExactFiles, Did;
    var (g, plan) := (s.active, FlushPlan(s.active));
    var t := s.(active := FlushedSeg(g, FlushAt(g, k)));
    if k == 0 {
      assert plan[..0] == [];
      ExactSame(s, t, dir);
    } else {
      var s1 := Touched(s, SyncLog(g.base));
      OnActive(s, dir, SyncLog(g.base));
      DidOne(dir, SyncLog(g.base));
      assert plan[..1] == [SyncLog(g.base)];
      if k == 1 {
        ExactSame(s1, t, DidAll(dir, plan[..1]));
      } else {
        OnActive(s1, DidAll(dir, plan[..1]), SyncIndex(g.base));
        DidPush(dir, plan[..1], SyncIndex(g.base));
        assert plan[..2] == plan[..1] + [SyncIndex(g.base)];
        ExactSame(Touched(s1, SyncIndex(g.base)), t, DidAll(dir, plan[..2]));
      }
    }
  }

  /** The flush before a rollover succeeded, and the log file is made: it is the spare file. */
  lemma LogCreated(s: Store, dir: Directory, lim: Limits)
    requires ValidStore(s.(spare := true), lim) && !s.spare && ExactFiles(s, dir)
    ensures ExactFiles(s.(spare := true), Did(dir, CreateLog(s.logEnd)))
  {
    hide ValidStore, Images;
    var t := s.(spare := true);
    forall i | 0 <= i <= |s.front|
      ensures Seg(t, i) == Seg(s, i) && Seg(t, i).base != s.logEnd
    {
      SpareApart(t, i, lim);
    }
    forall b
      ensures b in Did(dir, CreateLog(s.logEnd)) <==> exists i | 0 <= i < |Images(t)| :: b == Images(t)[i].base
    {
      ImageNames(s, b);
      ImageNames(t, b);
    }
    ImageNames(s, s.logEnd);
  }

  /** With its index file made, it is the active segment. */
  lemma SpareTaken(s: Store, dir: Directory, base: nat)
    requires s.spare && base == s.logEnd && ExactFiles(s, dir)
    ensures ExactFiles(s.(front := s.front + [s.active], active := FreshSeg(base), spare := false),
                       Did(dir, CreateIndex(base)))
  {
    hide Images;
    var t := s.(front := s.front + [s.active], active := FreshSeg(base), spare := false);
    assert forall i | 0 <= i <= |s.front| :: Seg(t, i) == Seg(s, i);
    assert Seg(t, |s.front| + 1) == FreshSeg(base);
    forall b
      ensures b in Did(dir, CreateIndex(base)) <==> exists i | 0 <= i < |Images(t)| :: b == Images(t)[i].base
    {
      ImageNames(s, b);
      ImageNames(t, b);
    }
  }

  /** A rollover that ends after `k` operations. */
  function RollAt(g: SegState, k: nat): AppendIO {
    var m := |FlushPlan(g)|;
    if k < m then NO_FAILURE.(rollFlush := FlushAt(g, k))
    else if k == m then NO_FAILURE.(create := NotCreated)
    else if k == m + 1 then NO_FAILURE.(create := LogOnly)
    else NO_FAILURE
  }

  lemma RollFlushing(s: Store, dir: Directory, k: nat)
    requires Apart(s) && !s.spare && ExactFiles(s, dir) && k <= |FlushPlan(s.active)|
    ensures var io := RollAt(s.active, k);
            && !RollOk(s, io)
            && ExactFiles(RollOutcome(s, io), DidAll(dir, RollPlan(s)[..k]))
  {
    hide ExactFiles, Did;
    var g := s.active;
    FlushMoment(s, dir, k);
    assert RollPlan(s)[..k] == FlushPlan(g)[..k];
    ExactSame(s.(active := FlushedSeg(g, FlushAt(g, k))), RollOutcome(s, RollAt(g, k)), DidAll(dir, RollPlan(s)[..k]));
  }

  lemma RollCreated(s: Store, dir: Directory, lim: Limits)
    requires ValidStore(s, lim) && !s.poisoned && s.active.size > 0 && !s.spare && Apart(s) && ExactFiles(s, dir)
    ensures var m := |FlushPlan(s.active)|;
            ExactFiles(RollOutcome(s, NO_FAILURE.(create := LogOnly)), DidAll(dir, RollPlan(s)[..m + 1]))
  {
    hide ValidStore, ValidSeg, ExactFiles, Did, Model, FlushPlan;
    var m := |FlushPlan(s.active)|;
    RollFlushing(s, dir, m);
    RollKeeps(s, NO_FAILURE.(create := LogOnly), lim);
    LogCreated(RollOutcome(s, NO_FAILURE.(create := NotCreated)), DidAll(dir, RollPlan(s)[..m]), lim);
    DidPush(dir, RollPlan(s)[..m], CreateLog(s.logEnd));
    assert RollPlan(s)[..m + 1] == RollPlan(s)[..m] + [CreateLog(s.logEnd)];
  }

  lemma RollMoment(s: Store, dir: Directory, k: nat, lim: Limits)
    requires ValidStore(s, lim) && !s.poisoned && s.active.size > 0 && ExactFiles(s, dir) && k <= |RollPlan(s)|
    ensures var io := RollAt(s.active, k);
            && (k < |RollPlan(s)| ==> !RollOk(s, io))
            && ExactFiles(RollOutcome(s, io), DidAll(dir, RollPlan(s)[..k]))
  {
    hide ValidStore, ValidSeg, ExactFiles, Did, Model, FlushPlan;
    Healthy(s, lim);
    ValidApart(s, lim);
    var m := |FlushPlan(s.active)|;
    if k <= m {
      RollFlushing(s, dir, k);
    } else {
      RollCreated(s, dir, lim);
      if k == m + 2 {
        RollEnd(s, RollOutcome(s, NO_FAILURE.(create := LogOnly)), dir, m);
        assert RollPlan(s)[..k] == RollPlan(s);
      }
    }
  }

  lemma RollEnd(s: Store, f: Store, dir: Directory, m: nat)
    requires f == s.(active := FlushedSeg(s.active, Flushed), poisoned := true, spare := true)
    requires m == |FlushPlan(s.active)| && ExactFiles(f, DidAll(dir, RollPlan(s)[..m + 1])) && !s.spare
    ensures ExactFiles(RollOutcome(s, NO_FAILURE), DidAll(dir, RollPlan(s)))
  {
    hide ExactFiles, Did;
    var dir1 := DidAll(dir, RollPlan(s)[..m + 1]);
    SpareTaken(f, dir1, s.logEnd);
    DidPush(dir, RollPlan(s)[..m + 1], CreateIndex(s.logEnd));
    assert RollPlan(s) == RollPlan(s)[..m + 1] + [CreateIndex(s.logEnd)];
    ExactSame(f.(front := f.front + [f.active], active := FreshSeg(s.logEnd), spare := false),
              RollOutcome(s, NO_FAILURE), DidAll(dir, RollPlan(s)));
  }

  // ----------------------------------------------------------------- write and flush

  /** What the write of a batch needs of the files. */
  ghost predicate Writable(s: Store) {
    && Apart(s) && !s.spare && Ready(s) && s.active.size == |s.active.log.bytes| && s.active.log.synced <= s.active.size
  }

  /** The write of the batch, cut short or not. */
  lemma LogWritten(s: Store, dir: Directory, b: Batch, io: WriteOutcome)
    requires Apart(s) && !s.spare && ExactFiles(s, dir) && s.active.size == |s.active.log.bytes|
    requires s.active.log.synced <= s.active.size
    ensures var (g, part) := (s.active, Part(b.bytes, io));
            ExactFiles(s.(active := g.(log := File(g.log.bytes + part, g.log.synced))),
                       Did(dir, WriteLog(g.base, g.size, part)))
  {
    hide ExactFiles, Did, Part, WriteAt;
    var g := s.active;
    OnActive(s, dir, WriteLog(g.base, g.size, Part(b.bytes, io)));
    WriteAtEnd(g.log.bytes, Part(b.bytes, io));
  }

  /** The write of the index entry, `n` bytes of it. */
  lemma EntryWritten(s: Store, dir: Directory, b: Batch, n: nat, lim: Limits)
    requires Apart(s) && !s.spare && Ready(s) && s.active.next - s.active.base <= MAX_UINT32 && n <= 12
    requires Due(s.active.entries, s.active.size, lim.interval)
    requires ExactFiles(s.(active := s.active.(log := File(s.active.log.bytes + b.bytes, s.active.log.synced))), dir)
    ensures var (g, e) := (s.active, IndexEntry(s.active.next - s.active.base, s.active.size));
            ExactFiles(s.(active := GrownSeg(g, b, n, lim.interval), logEnd := s.logEnd + |b.records|),
                       Did(dir, WriteIndex(g.base, g.indexSize, EntryBytes(e)[..n])))
  {
    hide ExactFiles, Did, WriteAt, EntryBytes, MaxTimestamp;
    var g := s.active;
    var t := s.(active := g.(log := File(g.log.bytes + b.bytes, g.log.synced)));
    var op := WriteIndex(g.base, g.indexSize, EntryBytes(IndexEntry(g.next - g.base, g.size))[..n]);
    OnActive(t, dir, op);
    ExactSame(Touched(t, op), s.(active := GrownSeg(g, b, n, lim.interval), logEnd := s.logEnd + |b.records|),
              Did(dir, op));
  }

  /** How a write that ends within operation `k` ends. */
  function PutAt(k: nat, n: nat): AppendIO {
    if k == 0 then NO_FAILURE.(write := Short(n))
    else if k == 1 && n < 12 then NO_FAILURE.(indexWrite := Short(n), flush := LogSyncFailed)
    else NO_FAILURE.(flush := LogSyncFailed)
  }

  /** The batch is being written. */
  lemma TornMoment(s: Store, dir: Directory, b: Batch, n: nat, lim: Limits)
    requires Writable(s) && s.logEnd - s.active.base <= MAX_UINT32 && ExactFiles(s, dir)
    ensures ExactFiles(PutOutcome(s, b, PutAt(0, n), lim), DidAll(dir, Begun(PutPlan(s.active, b, lim.interval), 0, n)))
  {
    hide ExactFiles, Did, Part, WriteAt, EntryBytes, MaxTimestamp, Due;
    var (g, plan) := (s.active, PutPlan(s.active, b, lim.interval));
    var op := WriteLog(g.base, g.size, Part(b.bytes, Short(n)));
    assert plan[..0] == [] && [] + [op] == [op] == Begun(plan, 0, n);
    LogWritten(s, dir, b, Short(n));
    DidOne(dir, op);
    ExactSame(s.(active := g.(log := File(g.log.bytes + Part(b.bytes, Short(n)), g.log.synced))),
              PutOutcome(s, b, PutAt(0, n), lim), DidAll(dir, [op]));
  }

  /** The batch is written, and `m` bytes of the index entry. */
  lemma EntryMoment(s: Store, dir: Directory, b: Batch, m: nat, lim: Limits)
    requires Writable(s) && s.logEnd - s.active.base <= MAX_UINT32 && ExactFiles(s, dir) && m <= 12
    requires Due(s.active.entries, s.active.size, lim.interval)
    ensures var (g, e) := (s.active, IndexEntry(s.active.next - s.active.base, s.active.size));
            ExactFiles(s.(active := GrownSeg(g, b, m, lim.interval), logEnd := s.logEnd + |b.records|),
                       DidAll(dir, [WriteLog(g.base, g.size, b.bytes),
                                    WriteIndex(g.base, g.indexSize, EntryBytes(e)[..m])]))
  {
    hide ExactFiles, Did, Part, WriteAt, EntryBytes, MaxTimestamp, Due, GrownSeg;
    var (g, e) := (s.active, IndexEntry(s.active.next - s.active.base, s.active.size));
    var (write, entry) := (WriteLog(g.base, g.size, b.bytes), WriteIndex(g.base, g.indexSize, EntryBytes(e)[..m]));
    LogWritten(s, dir, b, Complete);
    WholePart(b.bytes);
    DidOne(dir, write);
    EntryWritten(s, DidAll(dir, [write]), b, m, lim);
    DidPush(dir, [write], entry);
    assert [write] + [entry] == [write, entry];
  }

  lemma NoEntryMoment(s: Store, dir: Directory, b: Batch, lim: Limits)
    requires Writable(s) && s.logEnd - s.active.base <= MAX_UINT32 && ExactFiles(s, dir)
    requires !Due(s.active.entries, s.active.size, lim.interval)
    ensures ExactFiles(PutOutcome(s, b, NO_FAILURE, lim), DidAll(dir, PutPlan(s.active, b, lim.interval)))
  {
    hide ExactFiles, Did, Part, WriteAt, MaxTimestamp, Due;
    var g := s.active;
    var write := WriteLog(g.base, g.size, b.bytes);
    LogWritten(s, dir, b, Complete);
    WholePart(b.bytes);
    DidOne(dir, write);
    assert [write] + [] == [write];
    ExactSame(s.(active := g.(log := File(g.log.bytes + b.bytes, g.log.synced))), PutOutcome(s, b, NO_FAILURE, lim),
              DidAll(dir, [write]));
  }

  lemma PutMoment(s: Store, dir: Directory, b: Batch, k: nat, n: nat, lim: Limits)
    requires Writable(s) && s.logEnd - s.active.base <= MAX_UINT32 && ExactFiles(s, dir)
    requires k <= |PutPlan(s.active, b, lim.interval)|
    ensures var io := if k == |PutPlan(s.active, b, lim.interval)| then NO_FAILURE else PutAt(k, n);
            ExactFiles(PutOutcome(s, b, io, lim), DidAll(dir, Begun(PutPlan(s.active, b, lim.interval), k, n)))
  {
    hide ExactFiles, DidAll, Part, EntryBytes, GrownSeg, Due;
    var (g, plan) := (s.active, PutPlan(s.active, b, lim.interval));
    if k == 0 {
      TornMoment(s, dir, b, n, lim);
    } else if Due(g.entries, g.size, lim.interval) {
      var (e, m) := (IndexEntry(g.next - g.base, g.size), if k == 1 && n < 12 then n else 12);
      EntryMoment(s, dir, b, m, lim);
      EntryPart(e, n);
      var write := WriteLog(g.base, g.size, b.bytes);
      assert plan == [write, WriteIndex(g.base, g.indexSize, EntryBytes(e))];
      assert Begun(plan, k, n) == [write, WriteIndex(g.base, g.indexSize, EntryBytes(e)[..m])];
    } else {
      NoEntryMoment(s, dir, b, lim);
      assert plan[..1] == plan;
    }
  }

  lemma WholePart(data: seq<byte>)
    ensures Part(data, Complete) == data
  {
  }

  lemma EntryPart(e: IndexEntry, n: nat)
    ensures |EntryBytes(e)| == 12 && EntryBytes(e)[..12] == EntryBytes(e)
    ensures Part(EntryBytes(e), Short(n)) == EntryBytes(e)[..if n < 12 then n else 12]
  {
  }

  lemma PutFields(s: Store, b: Batch, io: AppendIO, lim: Limits)
    requires Writable(s) && s.logEnd - s.active.base <= MAX_UINT32 && Proper(io)
    ensures var p := PutOutcome(s, b, io, lim);
            && p.front == s.front && p.active.base == s.active.base && Apart(p) && !p.spare
            && (io == NO_FAILURE ==> p.active == GrownSeg(s.active, b, 12, lim.interval))
  {
    hide WriteAt, EntryBytes, MaxTimestamp, Due;
  }

  /** An append that ends within the write. */
  lemma Unfinished(s: Store, dir: Directory, b: Batch, k: nat, n: nat, sync: bool, lim: Limits)
    requires Writable(s) && !Rolls(s, |b.bytes|, lim) && s.logEnd - s.active.base <= MAX_UINT32 && ExactFiles(s, dir)
    requires k < |PutPlan(s.active, b, lim.interval)|
    ensures Proper(PutAt(k, n))
    ensures ExactFiles(AppendOutcome(s, b, PutAt(k, n), sync, lim),
                       DidAll(dir, Begun(PutPlan(s.active, b, lim.interval), k, n)))
  {
    hide GrownSeg, Part, ExactFiles, DidAll, PutPlan, Begun;
    var io := PutAt(k, n);
    PutFields(s, b, io, lim);
    PutMoment(s, dir, b, k, n, lim);
    ExactSame(PutOutcome(s, b, io, lim), AppendOutcome(s, b, io, sync, lim),
              DidAll(dir, Begun(PutPlan(s.active, b, lim.interval), k, n)));
  }

  /** The moments of an append to a segment that has room. */
  lemma WriteMoment(s: Store, dir: Directory, b: Batch, k: nat, n: nat, sync: bool, lim: Limits) returns (io: AppendIO)
    requires Writable(s) && !Rolls(s, |b.bytes|, lim) && ExactFiles(s, dir)
    requires k <= |WritePlan(s, b, sync, lim)|
    ensures Proper(io) && io.rollFlush == Flushed && io.create == Created
    ensures k == |WritePlan(s, b, sync, lim)| ==> io == NO_FAILURE
    ensures ExactFiles(AppendOutcome(s, b, io, sync, lim), DidAll(dir, Begun(WritePlan(s, b, sync, lim), k, n)))
  {
    hide ExactFiles, DidAll, GrownSeg, PutPlan, FlushPlan, PutOutcome, SyncOutcome;
    if s.logEnd - s.active.base > MAX_UINT32 {
      io := NO_FAILURE;
      ExactSame(s, AppendOutcome(s, b, io, sync, lim), dir);
      DidNone(dir);
    } else {
      var put := PutPlan(s.active, b, lim.interval);
      var rest := if sync then FlushPlan(GrownSeg(s.active, b, 12, lim.interval)) else [];
      BegunConcat(put, rest, k, n);
      if k < |put| {
        io := PutAt(k, n);
        Unfinished(s, dir, b, k, n, sync, lim);
      } else {
        PutMoment(s, dir, b, |put|, n, lim);
        assert Begun(put, |put|, n) == put;
        io := FinishMoment(s, DidAll(dir, put), b, k - |put|, sync, lim);
        RestBegun(GrownSeg(s.active, b, 12, lim.interval), sync, k - |put|, n);
        DidConcat(dir, put, rest[..k - |put|]);
      }
    }
  }

  /** Nothing of a flush is a write. */
  lemma RestBegun(g: SegState, sync: bool, k: nat, n: nat)
    requires k <= |if sync then FlushPlan(g) else []|
    ensures var rest := if sync then FlushPlan(g) else []; Begun(rest, k, n) == rest[..k]
  {
  }

  /** The moments of the flush at the end. */
  lemma FinishMoment(s: Store, dir: Directory, b: Batch, k: nat, sync: bool, lim: Limits) returns (io: AppendIO)
    requires Writable(s) && !Rolls(s, |b.bytes|, lim) && s.logEnd - s.active.base <= MAX_UINT32
    requires ExactFiles(PutOutcome(s, b, NO_FAILURE, lim), dir)
    requires k <= |if sync then FlushPlan(GrownSeg(s.active, b, 12, lim.interval)) else []|
    ensures Proper(io) && io.rollFlush == Flushed && io.create == Created
    ensures var rest := if sync then FlushPlan(GrownSeg(s.active, b, 12, lim.interval)) else [];
            && (k == |rest| ==> io == NO_FAILURE)
            && ExactFiles(AppendOutcome(s, b, io, sync, lim), DidAll(dir, rest[..k]))
  {
    hide ExactFiles, Did, GrownSeg, FlushPlan, FlushedSeg;
    var p := PutOutcome(s, b, NO_FAILURE, lim);
    PutFields(s, b, NO_FAILURE, lim);
    if sync {
      io := NO_FAILURE.(flush := FlushAt(p.active, k));
      FlushAtEnd(p.active);
      FlushMoment(p, dir, k);
      FlushedFiles(p, io.flush);
      ExactSame(p.(active := FlushedSeg(p.active, io.flush)), AppendOutcome(s, b, io, sync, lim),
                DidAll(dir, FlushPlan(p.active)[..k]));
    } else {
      io := NO_FAILURE;
    }
  }

  lemma FlushedFiles(s: Store, io: FlushOutcome)
    ensures FlushedSeg(s.active, io).base == s.active.base
  {
  }

  // --------------------------------------------------------------------- the theorems

  /** At every moment of an append the files are those that some outcome of an append leaves, and in the end those of
      the append without failures. */
  lemma AppendMoment(s: Store, dir: Directory, b: Batch, k: nat, n: nat, sync: bool, lim: Limits)
    returns (io: AppendIO)
    requires ValidStore(s, lim) && !s.poisoned && Ready(s) && ExactFiles(s, dir)
    requires k <= |AppendPlan(s, b, sync, lim)|
    ensures Proper(io) && (k == |AppendPlan(s, b, sync, lim)| ==> io == NO_FAILURE)
    ensures ExactFiles(AppendOutcome(s, b, io, sync, lim), DidAll(dir, Begun(AppendPlan(s, b, sync, lim), k, n)))
  {
    hide ValidStore, ValidSeg, ExactFiles, Did, WritePlan, RollPlan, Model, AppendOutcome, FlushedSeg;
    HealthyWritable(s, lim);
    if Rolls(s, |b.bytes|, lim) {
      var (roll, r) := (RollPlan(s), RollOutcome(s, NO_FAILURE));
      RollKeeps(s, NO_FAILURE, lim);
      HealthyWritable(r, lim);
      BegunConcat(roll, WritePlan(r, b, sync, lim), k, n);
      if k < |roll| {
        io := RollAt(s.active, k);
        RollMoment(s, dir, k, lim);
        RollBegun(s, k, n);
        RollStops(s, b, io, sync, lim);
      } else {
        RollMoment(s, dir, |roll|, lim);
        assert roll[..|roll|] == roll;
        RollAtEnd(s);
        io := WriteMoment(r, DidAll(dir, roll), b, k - |roll|, n, sync, lim);
        RollFirst(s, b, io, sync, lim);
        DidConcat(dir, roll, Begun(WritePlan(r, b, sync, lim), k - |roll|, n));
      }
    } else {
      io := WriteMoment(s, dir, b, k, n, sync, lim);
    }
  }

  lemma HealthyWritable(s: Store, lim: Limits)
    requires ValidStore(s, lim) && !s.poisoned
    ensures Writable(s)
  {
    hide ValidStore, ValidSeg;
    Healthy(s, lim);
    HealthyReady(s, lim);
    ValidApart(s, lim);
  }

  lemma RollAtEnd(s: Store)
    ensures RollAt(s.active, |RollPlan(s)|) == NO_FAILURE && RollOk(s, NO_FAILURE)
  {
  }

  lemma RollBegun(s: Store, k: nat, n: nat)
    requires k <= |RollPlan(s)|
    ensures Begun(RollPlan(s), k, n) == RollPlan(s)[..k]
  {
  }

  lemma RollStops(s: Store, b: Batch, io: AppendIO, sync: bool, lim: Limits)
    requires Ready(s) && Proper(io) && Rolls(s, |b.bytes|, lim) && !RollOk(s, io)
    ensures AppendOutcome(s, b, io, sync, lim) == RollOutcome(s, io)
  {
  }

  // ------------------------------------------------------------------------ retention

  /** Removing the `k` oldest segments: for each the log, and then the index. */
  function Removals(front: seq<SegState>, k: nat): seq<FileOp>
    requires k <= |front|
  {
    if k == 0 then []
    else Removals(front, k - 1) + [RemoveLog(front[k - 1].base), RemoveIndex(front[k - 1].base)]
  }

  /** Without its log the oldest segment is gone, with or without its index. */
  lemma OldestGone(s: Store, t: Store, dir: Directory, lim: Limits)
    requires ValidStore(s, lim) && s.front != [] && !s.spare && ExactFiles(s, dir)
    requires t.front == s.front[1..] && t.active == s.active && !t.spare
    ensures var (base, left) := (s.front[0].base, Did(dir, RemoveLog(s.front[0].base)));
            ExactFiles(t, left) && Did(left, RemoveIndex(base)) == left
  {
    hide ValidStore, Images;
    assert Seg(s, 0) == s.front[0] && forall i | 0 <= i <= |t.front| :: Seg(t, i) == Seg(s, i + 1);
    forall i | 0 < i <= |s.front|
      ensures Seg(s, i).base != s.front[0].base
    {
      BasesApart(s, 0, i, lim);
    }
    forall b
      ensures b in Did(dir, RemoveLog(s.front[0].base)) <==> exists i | 0 <= i < |Images(t)| :: b == Images(t)[i].base
    {
      ImageNames(s, b);
      ImageNames(t, b);
      if i :| 0 <= i <= |s.front| && b == Seg(s, i).base && i > 0 {
        assert b == Seg(t, i - 1).base;
      }
    }
  }

  lemma {:induction false} RemovalsOf(front: seq<SegState>, k: nat)
    requires k <= |front|
    ensures |Removals(front, k)| == 2 * k
  {
    if k > 0 {
      RemovalsOf(front, k - 1);
    }
  }

  /** All removals of the `k` oldest segments. */
  lemma {:induction false} RetainDone(s: Store, dir: Directory, k: nat, lim: Limits)
    requires ValidStore(s, lim) && !s.poisoned && ExactFiles(s, dir) && k <= |s.front|
    ensures ExactFiles(Dropped(s, k), DidAll(dir, Removals(s.front, k)))
  {
    hide ValidStore, ExactFiles, Did, Dropped, Model;
    if k == 0 {
      DroppedNone(s, lim);
    } else {
      RetainDone(s, dir, k - 1, lim);
      OneGone(s, dir, k - 1, lim);
      var ops := Removals(s.front, k - 1);
      DidPush(dir, ops + [RemoveLog(s.front[k - 1].base)], RemoveIndex(s.front[k - 1].base));
      assert Removals(s.front, k) == ops + [RemoveLog(s.front[k - 1].base)] + [RemoveIndex(s.front[k - 1].base)];
    }
  }

  /** One more log removed. */
  lemma OneGone(s: Store, dir: Directory, k: nat, lim: Limits)
    requires ValidStore(s, lim) && !s.poisoned && k < |s.front|
    requires ExactFiles(Dropped(s, k), DidAll(dir, Removals(s.front, k)))
    ensures var left := DidAll(dir, Removals(s.front, k) + [RemoveLog(s.front[k].base)]);
            ExactFiles(Dropped(s, k + 1), left) && Did(left, RemoveIndex(s.front[k].base)) == left
  {
    hide ValidStore, ExactFiles, Did, Model, Chain;
    Healthy(s, lim);
    DroppedValid(s, k, lim);
    DroppedStep(s, k);
    OldestGone(Dropped(s, k), Dropped(s, k + 1), DidAll(dir, Removals(s.front, k)), lim);
    DidPush(dir, Removals(s.front, k), RemoveLog(s.front[k].base));
  }

  /** At every moment of retention the files are those of the store with some of the oldest segments dropped. */
  lemma RetainMoment(s: Store, dir: Directory, k: nat, j: nat, lim: Limits)
    requires ValidStore(s, lim) && !s.poisoned && ExactFiles(s, dir) && k <= |s.front|
    requires j <= |Removals(s.front, k)|
    ensures (j + 1) / 2 <= k && ExactFiles(Dropped(s, (j + 1) / 2), DidAll(dir, Removals(s.front, k)[..j]))
  {
    hide ValidStore, ExactFiles, Did, Dropped;
    RemovalsOf(s.front, k);
    var m := j / 2;
    RetainDone(s, dir, m, lim);
    RemovalsBegin(s.front, k, m);
    if j % 2 == 1 {
      OneGone(s, dir, m, lim);
    }
  }

  lemma {:induction false} RemovalsBegin(front: seq<SegState>, k: nat, m: nat)
    requires m <= k <= |front|
    ensures |Removals(front, k)| == 2 * k && Removals(front, k)[..2 * m] == Removals(front, m)
    ensures m < k ==> Removals(front, k)[..2 * m + 1] == Removals(front, m) + [RemoveLog(front[m].base)]
    decreases k
  {
    RemovalsOf(front, k);
    if m == k {
      assert Removals(front, k)[..2 * k] == Removals(front, k);
    } else {
      RemovalsOf(front, k - 1);
      RemovalsBegin(front, k - 1, m);
      var rest := [RemoveLog(front[k - 1].base), RemoveIndex(front[k - 1].base)];
      assert Removals(front, k) == Removals(front, k - 1) + rest;
      assert Removals(front, k)[..2 * m] == Removals(front, k - 1)[..2 * m];
      if m < k - 1 {
        assert Removals(front, k)[..2 * m + 1] == Removals(front, k - 1)[..2 * m + 1];
      } else {
        assert Removals(front, k)[..2 * m + 1] == Removals(front, k - 1) + [rest[0]];
      }
    }
  }

  // -------------------------------------------------------------- crashes at any moment

  lemma ExactCut(s: Store, dir: Directory, left: Directory)
    requires ExactFiles(s, dir) && CutDirectory(dir, left)
    ensures MayLeave(s, left)
  {
    hide Images;
    assert forall b :: b in left <==> b in dir.Keys;
    if s.spare {
      assert left[s.logEnd].log.bytes == [] && left[s.logEnd].index.bytes == [];
    }
  }

  /** A crash at any moment of an append leaves what a crash after some append leaves, and recovery covers that: the
      store it stands for is valid, and its log has the history it had, with or without the batch. */
  lemma CrashInAppend(s: Store, dir: Directory, b: Batch, k: nat, n: nat, sync: bool, lim: Limits, left: Directory)
    returns (io: AppendIO)
    requires ValidStore(s, lim) && !s.poisoned && Ready(s) && ExactFiles(s, dir)
    requires ValidBatch(b, s.logEnd) && |b.bytes| <= lim.maxBatch && k <= |AppendPlan(s, b, sync, lim)|
    requires CutDirectory(DidAll(dir, Begun(AppendPlan(s, b, sync, lim), k, n)), left)
    ensures Proper(io)
    ensures var s' := AppendOutcome(s, b, io, sync, lim);
            && ValidStore(s', lim) && MayLeave(s', left)
            && Model(s).history <= Model(s').history <= Model(s).history + [b]
            && Model(s).durable <= Model(s').durable && Model(s').cut == Model(s).cut
            && (Model(s').torn.Some? ==> Model(s').torn.value == b)
  {
    hide ValidStore, ValidBatch, ExactFiles, Model, AppendOutcome, AppendPlan, MayLeave, CutDirectory, Begun, DidAll,
         LogAfter, StageOf, Ready;
    io := AppendMoment(s, dir, b, k, n, sync, lim);
    ExactCut(AppendOutcome(s, b, io, sync, lim), DidAll(dir, Begun(AppendPlan(s, b, sync, lim), k, n)), left);
    AppendKeeps(s, b, io, sync, lim);
    ModelFlags(s);
    Healthy(s, lim);
    DurableBound(s);
    AfterGrows(Model(s), b, Rolls(s, |b.bytes|, lim), StageOf(s, |b.bytes|, io, sync, lim), io, sync);
  }

  lemma AfterGrows(l: LogSpec.Log, b: Batch, rolls: bool, stage: Stage, io: AppendIO, sync: bool)
    requires l.durable <= |l.history| && l.torn.None?
    ensures var l' := LogAfter(l, b, rolls, stage, io, sync);
            && l.history <= l'.history <= l.history + [b] && l.durable <= l'.durable && l'.cut == l.cut
            && (l'.torn.Some? ==> l'.torn.value == b)
  {
  }

  lemma CrashInRetention(s: Store, dir: Directory, k: nat, j: nat, lim: Limits, left: Directory)
    requires ValidStore(s, lim) && !s.poisoned && ExactFiles(s, dir) && k <= |s.front|
    requires j <= |Removals(s.front, k)| && CutDirectory(DidAll(dir, Removals(s.front, k)[..j]), left)
    ensures (j + 1) / 2 <= k
    ensures var d := Dropped(s, (j + 1) / 2);
            && ValidStore(d, lim) && MayLeave(d, left)
            && Model(d).history == Model(s).history && Model(s).cut <= Model(d).cut <= Model(s).durable
  {
    hide ValidStore, ExactFiles, Model, Dropped, MayLeave, CutDirectory, DidAll;
    RetainMoment(s, dir, k, j, lim);
    ExactCut(Dropped(s, (j + 1) / 2), DidAll(dir, Removals(s.front, k)[..j]), left);
    DroppedValid(s, (j + 1) / 2, lim);
  }
}
