/** Topic creation as a transaction over directories and a metadata file (internal/topic/manager.go).
    The metadata file is a map that a rename replaces as a whole. */
module TopicManager {
  import opened SegmentFile
  import opened Crash
  import opened PartitionStore
  import opened Opening
  import S = StoreState

  const MAX_PARTITIONS := 1024

  datatype Retention = Retention(maxAgeSeconds: nat, maxBytes: nat)

  datatype DiskTopic = DiskTopic(name: string, partitionCount: int, retention: Retention)

  datatype PartitionDir = PartitionDir(topic: string, index: nat)

  /** The partition directories there are, and the topics of the metadata file. */
  datatype Disk = Disk(dirs: set<PartitionDir>, metadata: map<string, DiskTopic>)

  /** The policy in force, field by field: what the request gives, or else the default for the same field. */
  ghost predicate InForce(policy: Retention, request: Retention, defaultAge: nat, defaultBytes: nat) {
    && (request.maxAgeSeconds != 0 ==> policy.maxAgeSeconds == request.maxAgeSeconds)
    && (request.maxAgeSeconds == 0 ==> policy.maxAgeSeconds == defaultAge)
    && (request.maxBytes != 0 ==> policy.maxBytes == request.maxBytes)
    && (request.maxBytes == 0 ==> policy.maxBytes == defaultBytes)
  }

  predicate Alphanumeric(c: char) { 'a' <= c <= 'z' || 'A' <= c <= 'Z' || '0' <= c <= '9' }

  predicate ValidTopicName(name: string) {
    && 1 <= |name| <= 255 && Alphanumeric(name[0])
    && forall i | 0 <= i < |name| :: Alphanumeric(name[i]) || name[i] == '.' || name[i] == '_' || name[i] == '-'
  }

  /** A metadata entry that startup accepts: well-formed, and every partition directory is there. */
  predicate ProperTopic(name: string, t: DiskTopic, dirs: set<PartitionDir>) {
    && t.name == name && ValidTopicName(name) && 1 <= t.partitionCount <= MAX_PARTITIONS
    && forall i | 0 <= i < t.partitionCount :: PartitionDir(name, i) in dirs
  }

  predicate Consistent(d: Disk) {
    forall name <- d.metadata.Keys :: ProperTopic(name, d.metadata[name], d.dirs)
  }

  ghost predicate DirChange(d: Disk, d': Disk, p: PartitionDir) {
    d'.metadata == d.metadata && (d'.dirs == d.dirs + {p} || d'.dirs == d.dirs - {p})
  }

  /** One step on disk: a directory made or removed, or the metadata file replaced. */
  ghost predicate OneChange(d: Disk, d': Disk) {
    d'.dirs == d.dirs || exists p :: DirChange(d, d', p)
  }

  /** The states the disk goes through, none left out. */
  ghost predicate Trail(ds: seq<Disk>, from: Disk, to: Disk) {
    && ds != [] && ds[0] == from && ds[|ds| - 1] == to
    && forall i | 0 < i < |ds| :: OneChange(ds[i - 1], ds[i])
  }

  datatype SaveOutcome = Saved | NotCommitted | DirSyncFailed

  /** How a creation goes: opening the log of partition `failing` fails, its directory made or not; then how
      the metadata is saved; and which directories a rollback fails to remove. */
  datatype CreateIO = CreateIO(failing: int, failingMade: bool, save: SaveOutcome, stuck: set<nat>)

  datatype CreateResult = CreatedTopic | InvalidName | InvalidCount | TooManyPartitions | TopicExists | Failed

  /** The same disk except for directories of the named topic. */
  ghost predicate SameOthers(d: Disk, d': Disk, name: string) {
    d'.metadata == d.metadata && forall p: PartitionDir | p.topic != name :: p in d.dirs <==> p in d'.dirs
  }

  lemma OthersKept(d: Disk, d': Disk, name: string)
    requires Consistent(d) && name !in d.metadata && SameOthers(d, d', name)
    ensures Consistent(d')
  {
    forall n <- d'.metadata.Keys
      ensures ProperTopic(n, d'.metadata[n], d'.dirs)
    {
      assert ProperTopic(n, d.metadata[n], d.dirs);
    }
  }

  lemma EntryAdded(d: Disk, name: string, t: DiskTopic)
    requires Consistent(d) && ProperTopic(name, t, d.dirs)
    ensures Consistent(d.(metadata := d.metadata[name := t]))
  {
    var d' := d.(metadata := d.metadata[name := t]);
    forall n <- d'.metadata.Keys
      ensures ProperTopic(n, d'.metadata[n], d'.dirs)
    {
      if n != name { assert ProperTopic(n, d.metadata[n], d.dirs); }
    }
  }

  /** A trail that touches only the directories of the named topic. */
  ghost predicate Detour(ds: seq<Disk>, from: Disk, to: Disk, name: string) {
    Trail(ds, from, to) && forall i | 0 <= i < |ds| :: SameOthers(from, ds[i], name)
  }

  lemma DetourStep(ds: seq<Disk>, from: Disk, to: Disk, next: Disk, p: PartitionDir)
    requires Detour(ds, from, to, p.topic) && DirChange(to, next, p)
    ensures Detour(ds + [next], from, next, p.topic)
  {
    assert OneChange(to, next);
    assert SameOthers(from, to, p.topic) by { assert ds[|ds| - 1] == to; }
  }

  lemma DetourBack(ds: seq<Disk>, from: Disk, mid: Disk, es: seq<Disk>, to: Disk, name: string)
    requires Detour(ds, from, mid, name) && Detour(es, mid, to, name)
    ensures Detour(ds + es[1..], from, to, name)
  {
    var all := ds + es[1..];
    assert SameOthers(from, mid, name) by { assert ds[|ds| - 1] == mid; }
    forall i | 0 <= i < |all|
      ensures SameOthers(from, all[i], name) && (0 < i ==> OneChange(all[i - 1], all[i]))
    {
      if i >= |ds| {
        assert all[i] == es[i - |ds| + 1] && all[i - 1] == es[i - |ds|];
        assert SameOthers(mid, all[i], name);
      }
    }
  }

  /** What a crash may find while a topic is created: a consistent disk that knows the topic or does not. */
  ghost predicate CrashSafe(ds: seq<Disk>, from: Disk, to: Disk) {
    forall i | 0 <= i < |ds| ::
      && Consistent(ds[i]) && ds[i].metadata in {from.metadata, to.metadata}
      && forall p: PartitionDir | p.topic in from.metadata :: p in ds[i].dirs <==> p in from.dirs
  }

  lemma DetourSafe(ds: seq<Disk>, from: Disk, to: Disk, name: string)
    requires Detour(ds, from, to, name) && Consistent(from) && name !in from.metadata
    ensures CrashSafe(ds, from, to) && Consistent(to) && to.metadata == from.metadata
  {
    forall i | 0 <= i < |ds|
      ensures Consistent(ds[i])
    {
      OthersKept(from, ds[i], name);
    }
    assert ds[|ds| - 1] == to;
  }

  lemma PublishSafe(ds: seq<Disk>, from: Disk, to: Disk, name: string, t: DiskTopic)
    requires Detour(ds, from, to, name) && Consistent(from) && name !in from.metadata && ProperTopic(name, t, to.dirs)
    ensures var next := to.(metadata := to.metadata[name := t]);
            Trail(ds + [next], from, next) && CrashSafe(ds + [next], from, next) && Consistent(next)
  {
    var next := to.(metadata := to.metadata[name := t]);
    DetourSafe(ds, from, to, name);
    EntryAdded(to, name, t);
    assert OneChange(to, next);
    assert SameOthers(from, to, name) by { assert ds[|ds| - 1] == to; }
  }

  class Manager {
    var topics: map<string, DiskTopic>
    var disk: Disk
    var defaultMaxAgeSeconds: nat
    var defaultMaxBytes: nat

    /** The registry in memory is the registry on disk, and everything on it is there. */
    ghost predicate Valid()
      reads this
    {
      Consistent(disk) && topics == disk.metadata
    }

    constructor (disk: Disk)
      ensures topics == map[] && this.disk == disk && defaultMaxAgeSeconds == 0 && defaultMaxBytes == 0
    {
      topics, this.disk := map[], disk;
      defaultMaxAgeSeconds, defaultMaxBytes := 0, 0;
    }

    method SetRetentionDefaults(maxAgeSeconds: nat, maxBytes: nat)
      modifies this`defaultMaxAgeSeconds, this`defaultMaxBytes
      ensures defaultMaxAgeSeconds == maxAgeSeconds && defaultMaxBytes == maxBytes
    {
      defaultMaxAgeSeconds, defaultMaxBytes := maxAgeSeconds, maxBytes;
    }

    function Defaulted(retention: Retention): Retention
      reads this
    {
      Retention(if retention.maxAgeSeconds == 0 then defaultMaxAgeSeconds else retention.maxAgeSeconds,
                if retention.maxBytes == 0 then defaultMaxBytes else retention.maxBytes)
    }

    /** Makes the directories and opens the logs of a topic's partitions, up to the one that fails. */
    method MakeDirs(name: string, partitionCount: nat, io: CreateIO)
      returns (ok: bool, tried: nat, ghost trail: seq<Disk>)
      modifies this`disk
      ensures ok <==> !(0 <= io.failing < partitionCount)
      ensures tried <= partitionCount
      ensures ok ==> forall i | 0 <= i < partitionCount :: PartitionDir(name, i) in disk.dirs
      ensures forall p <- disk.dirs - old(disk.dirs) :: p.topic == name && p.index < tried
      ensures Detour(trail, old(disk), disk, name)
    {
      trail := [disk];
      tried := 0;
      while tried < partitionCount
        invariant tried <= partitionCount && !(0 <= io.failing < tried)
        invariant forall i | 0 <= i < tried :: PartitionDir(name, i) in disk.dirs
        invariant forall p <- disk.dirs - old(disk.dirs) :: p.topic == name && p.index < tried
        invariant Detour(trail, old(disk), disk, name)
      {
        var p := PartitionDir(name, tried);
        if tried != io.failing || io.failingMade {
          ghost var before := disk;
          disk := disk.(dirs := disk.dirs + {p});
          DetourStep(trail, old(disk), before, disk, p);
          trail := trail + [disk];
        }
        tried := tried + 1;
        if tried - 1 == io.failing {
          return false, tried, trail;
        }
      }
      ok := true;
    }

    /** Removes the first directories of a topic, except those that cannot be removed. */
    method RemoveDirs(name: string, count: nat, stuck: set<nat>) returns (ghost trail: seq<Disk>)
      modifies this`disk
      ensures disk.dirs <= old(disk.dirs)
      ensures forall i | 0 <= i < count && i !in stuck :: PartitionDir(name, i) !in disk.dirs
      ensures Detour(trail, old(disk), disk, name)
    {
      trail := [disk];
      for i := 0 to count
        invariant disk.dirs <= old(disk.dirs)
        invariant forall j | 0 <= j < i && j !in stuck :: PartitionDir(name, j) !in disk.dirs
        invariant Detour(trail, old(disk), disk, name)
      {
        if i !in stuck {
          ghost var before := disk;
          var p := PartitionDir(name, i);
          disk := disk.(dirs := disk.dirs - {p});
          DetourStep(trail, old(disk), before, disk, p);
          trail := trail + [disk];
        }
      }
    }

    /** Makes the directories, then replaces the metadata file, then publishes; or takes the directories back.
        Whatever the point of a crash, the disk is one that startup accepts, with the registry as it was or with
        the new topic. */
    method CreateTopic(name: string, partitionCount: int, retention: Retention, io: CreateIO)
      returns (r: CreateResult, ghost trail: seq<Disk>)
      requires Valid()
      modifies this`topics, this`disk
      ensures Valid()
      ensures !r.CreatedTopic? ==> topics == old(topics)
      ensures !r.CreatedTopic? && io.stuck == {} ==> disk.dirs <= old(disk.dirs)
      ensures r == if !ValidTopicName(name) then InvalidName
                   else if partitionCount <= 0 then InvalidCount
                   else if partitionCount > MAX_PARTITIONS then TooManyPartitions
                   else if name in old(topics) then TopicExists
                   else if 0 <= io.failing < partitionCount || io.save.NotCommitted? then Failed
                   else CreatedTopic
      ensures r.CreatedTopic? ==>
                && name in topics && topics - {name} == old(topics)
                && topics[name].name == name && topics[name].partitionCount == partitionCount
                && InForce(topics[name].retention, retention, defaultMaxAgeSeconds, defaultMaxBytes)
      ensures Trail(trail, old(disk), disk) && CrashSafe(trail, old(disk), disk)
    {
      trail := [disk];
      if !ValidTopicName(name) { return InvalidName, trail; }
      if partitionCount <= 0 { return InvalidCount, trail; }
      if partitionCount > MAX_PARTITIONS { return TooManyPartitions, trail; }
      if name in topics { return TopicExists, trail; }
      ghost var start := disk;
      var ok, tried, made := MakeDirs(name, partitionCount, io);
      trail := made;
      if !ok || io.save.NotCommitted? {
        ghost var mid := disk;
        ghost var taken := RemoveDirs(name, tried, io.stuck);
        DetourBack(made, start, mid, taken, disk, name);
        trail := made + taken[1..];
        DetourSafe(trail, start, disk, name);
        assert forall p <- disk.dirs - start.dirs :: p == PartitionDir(name, p.index);
        return Failed, trail;
      }
      var entry := DiskTopic(name, partitionCount, Defaulted(retention));
      DetourSafe(made, start, disk, name);
      PublishSafe(made, start, disk, name, entry);
      disk := disk.(metadata := disk.metadata[name := entry]);
      trail := made + [disk];
      topics := topics[name := entry];
      r := CreatedTopic;
    }
  }

  /** A topic created under these defaults is without a limit only where neither the request nor the defaults have one,
      and the metadata file says the same. */
  method CreateUnderDefaults(m: Manager, defaultAge: nat, defaultBytes: nat, name: string, partitionCount: int,
                             retention: Retention, io: CreateIO) returns (r: CreateResult)
    requires m.Valid()
    modifies m
    ensures m.Valid()
    ensures r.CreatedTopic? ==>
              && name in m.topics && name in m.disk.metadata && m.disk.metadata[name] == m.topics[name]
              && var policy := m.topics[name].retention;
                 && InForce(policy, retention, defaultAge, defaultBytes)
                 && (policy.maxAgeSeconds == 0 <==> retention.maxAgeSeconds == 0 && defaultAge == 0)
                 && (policy.maxBytes == 0 <==> retention.maxBytes == 0 && defaultBytes == 0)
  {
    m.SetRetentionDefaults(defaultAge, defaultBytes);
    ghost var trail;
    r, trail := m.CreateTopic(name, partitionCount, retention, io);
  }

  /** A topic name is one component of a path: it names no parent, no other directory and no hidden file. */
  lemma NameIsComponent(name: string)
    requires ValidTopicName(name)
    ensures name != "" && name != "." && name != ".." && name[0] != '.' && '/' !in name && '\\' !in name
    ensures |name| <= 255 && forall c <- name :: c != '\0' && c != ' '
  {
  }

  // ---------------------------------------------------------------------- startup

  /** The files of the partition directories. */
  type Partitions = map<PartitionDir, Directory>

  ghost predicate ProperPartitions(disk: Disk, files: Partitions) {
    files.Keys == disk.dirs && forall p <- files.Keys :: ProperFiles(files[p])
  }

  /** Every partition of the topic has a directory that a crash left, or that was just made. */
  ghost predicate SaneTopic(name: string, t: DiskTopic, files: Partitions, imgs: map<PartitionDir, S.Store>,
                            lim: Limits) {
    forall i | 0 <= i < t.partitionCount ::
      var p := PartitionDir(name, i); p in files && p in imgs && Sane(files[p], imgs[p], lim)
  }

  /** If the directory of the partition is sane, the store is what recovery makes of it. */
  ghost predicate PartitionBack(store: Store, p: PartitionDir, files: Partitions, imgs: map<PartitionDir, S.Store>,
                                lim: Limits)
    reads store, store.segments, store.activeSegment
  {
    p in files && p in imgs && Sane(files[p], imgs[p], lim) ==> Back(store, files[p], imgs[p], lim)
  }

  /** Checks one registry entry, and opens its logs. */
  method LoadTopic(name: string, t: DiskTopic, disk: Disk, files: Partitions, lim: Limits, sync: bool,
                   ghost imgs: map<PartitionDir, S.Store>)
    returns (ok: bool, logs: map<PartitionDir, Store>)
    requires ProperPartitions(disk, files)
    ensures ok ==> ProperTopic(name, t, disk.dirs)
    ensures ProperTopic(name, t, disk.dirs) && SaneTopic(name, t, files, imgs, lim) ==> ok
    ensures forall p <- logs.Keys :: p.topic == name
    ensures ok ==> forall i | 0 <= i < t.partitionCount ::
              var p := PartitionDir(name, i); p in logs && PartitionBack(logs[p], p, files, imgs, lim)
  {
    hide Back, Sane, ProperFiles;
    logs := map[];
    if name != t.name || !ValidTopicName(t.name) || t.partitionCount < 1 || t.partitionCount > MAX_PARTITIONS {
      return false, logs;
    }
    for i := 0 to t.partitionCount
      invariant forall j | 0 <= j < i :: PartitionDir(name, j) in disk.dirs
      invariant forall p <- logs.Keys :: p.topic == name && p.index < i
      invariant forall j | 0 <= j < i ::
                  var p := PartitionDir(name, j); p in logs && PartitionBack(logs[p], p, files, imgs, lim)
    {
      var p := PartitionDir(name, i);
      if p !in disk.dirs {
        return false, logs;
      }
      var r := OpenLog(files[p], lim, sync, if p in imgs then imgs[p] else EMPTY_STATE);
      if r.OpenFailed? {
        return false, logs;
      }
      logs := logs[p := r.store];
    }
    ok := true;
  }

  ghost predicate SaneDisk(disk: Disk, files: Partitions, imgs: map<PartitionDir, S.Store>, lim: Limits) {
    forall n <- disk.metadata.Keys :: SaneTopic(n, disk.metadata[n], files, imgs, lim)
  }

  /** Startup takes over the registry and opens every partition. It succeeds only on a consistent disk, and on every
      consistent disk whose partition directories were left by crashes or just made; each log is then a restart of
      the one that was there. */
  method NewManager(disk: Disk, files: Partitions, lim: Limits, sync: bool, ghost imgs: map<PartitionDir, S.Store>)
    returns (m: Manager?, logs: map<PartitionDir, Store>)
    requires ProperPartitions(disk, files)
    ensures m != null ==> Consistent(disk) && fresh(m) && m.Valid() && m.disk == disk
    ensures Consistent(disk) && SaneDisk(disk, files, imgs, lim) ==> m != null
    ensures m != null ==>
              forall n <- disk.metadata.Keys, i: nat | i < disk.metadata[n].partitionCount ::
                var p := PartitionDir(n, i); p in logs && PartitionBack(logs[p], p, files, imgs, lim)
  {
    hide Back, Sane, ProperFiles, ProperTopic, SaneTopic, PartitionBack;
    m := new Manager(disk);
    logs := map[];
    var names := disk.metadata.Keys;
    while names != {}
      invariant names <= disk.metadata.Keys && m.topics.Keys == disk.metadata.Keys - names && m.disk == disk && fresh(m)
      invariant forall n <- m.topics.Keys ::
                  m.topics[n] == disk.metadata[n] && ProperTopic(n, disk.metadata[n], disk.dirs)
      invariant forall p <- logs.Keys :: p.topic in m.topics.Keys
      invariant forall n <- m.topics.Keys, i: nat | i < disk.metadata[n].partitionCount ::
                  var p := PartitionDir(n, i); p in logs && PartitionBack(logs[p], p, files, imgs, lim)
      decreases names
    {
      var name :| name in names;
      var ok, more := LoadTopic(name, disk.metadata[name], disk, files, lim, sync, imgs);
      if !ok {
        return null, logs;
      }
      m.topics := m.topics[name := disk.metadata[name]];
      logs := logs + more;
      names := names - {name};
    }
  }
}
