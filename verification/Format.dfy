/** The record batch format (internal/storage/format.go).
    `BatchWire` is the format as a grammar: the bytes of a batch, given its header fields.
    `Decode` is the checking parser, with the source's checks in the source's order. */
module Format {
  import opened Bytes
  import opened Checksum

  /** A byte slice that may be nil. */
  datatype Option<+T> = None | Some(value: T)

  datatype Header = Header(key: seq<byte>, value: Option<seq<byte>>)

  datatype StoredRecord = StoredRecord(
    offset: uint64, timestamp: int64,
    key: Option<seq<byte>>, value: Option<seq<byte>>, headers: Option<seq<Header>>)

  const MAGIC: seq<byte> := [0x50, 0x47, 0x4C, 0x47]
  const VERSION: byte := 1
  const BATCH_HEADER_SIZE := 33
  const MINIMUM_BATCH_REMAINDER := 24
  const MINIMUM_RECORD_SIZE := 24
  const NIL_LENGTH: uint32 := 0xFFFF_FFFF

  /** The contents of a slice that may be nil: len and copy treat nil as empty. */
  function Contents<T>(f: Option<seq<T>>): seq<T> {
    if f.Some? then f.value else []
  }

  // ---------------------------------------------------------------- the format

  function FieldWire(f: Option<seq<byte>>): seq<byte> {
    if f.None? then Put32(NIL_LENGTH) else Put32(ToUint32(|f.value|)) + f.value
  }

  function HeaderWire(h: Header): seq<byte> {
    Put32(ToUint32(|h.key|)) + h.key + Put32(ToUint32(|Contents(h.value)|)) + Contents(h.value)
  }

  function HeadersWire(hs: seq<Header>): seq<byte> {
    if hs == [] then [] else HeaderWire(hs[0]) + HeadersWire(hs[1..])
  }

  function HeaderListWire(hs: Option<seq<Header>>): seq<byte> {
    Put32(ToUint32(|Contents(hs)|)) + HeadersWire(Contents(hs))
  }

  function RecordWire(base: uint64, maxTs: int64, r: StoredRecord): seq<byte> {
    Put32(ToUint32(r.offset - base)) + Put64(ToUint64(maxTs - r.timestamp)) +
    FieldWire(r.key) + FieldWire(r.value) + HeaderListWire(r.headers)
  }

  function RecordsWire(base: uint64, maxTs: int64, rs: seq<StoredRecord>): seq<byte> {
    if rs == [] then [] else RecordWire(base, maxTs, rs[0]) + RecordsWire(base, maxTs, rs[1..])
  }

  /** What the checksum covers: everything after the checksum field. */
  function Body(base: uint64, maxTs: int64, rs: seq<StoredRecord>): (b: seq<byte>)
    ensures |b| >= 20
  {
    Put64(base) + Put32(ToUint32(|rs|)) + Put64(ToUint64(maxTs)) + RecordsWire(base, maxTs, rs)
  }

  function Frame(body: seq<byte>, checksum: uint32): seq<byte> {
    MAGIC + [VERSION] + Put32(ToUint32(|body| + 4)) + Put32(checksum) + body
  }

  function BatchWire(base: uint64, maxTs: int64, rs: seq<StoredRecord>): seq<byte> {
    var body := Body(base, maxTs, rs);
    Frame(body, Crc32(body))
  }

  /** The largest timestamp of the batch, but at least 0: the encoder's running maximum starts there. */
  function MaxTimestamp(rs: seq<StoredRecord>): (m: int64)
    ensures m >= 0
    ensures forall r <- rs :: r.timestamp <= m
    ensures m == 0 || exists r <- rs :: r.timestamp == m
  {
    if rs == [] then 0 else
      var m := MaxTimestamp(rs[1..]);
      assert rs == [rs[0]] + rs[1..];
      if rs[0].timestamp > m then rs[0].timestamp else m
  }

  /** The bytes EncodeBatch writes for a non-empty list of records. */
  function Encode(rs: seq<StoredRecord>): seq<byte>
    requires rs != []
  {
    BatchWire(rs[0].offset, MaxTimestamp(rs), rs)
  }

  // ------------------------------------------------- what the format can carry

  predicate FieldFits(f: Option<seq<byte>>) {
    f.Some? ==> |f.value| < 0x8000_0000
  }

  predicate HeaderFits(h: Header) {
    |h.key| <= MAX_UINT32 && h.value.Some? && |h.value.value| <= MAX_UINT32
  }

  predicate HeadersFit(hs: Option<seq<Header>>) {
    hs.Some? ==> 0 < |hs.value| <= MAX_UINT32 && forall h <- hs.value :: HeaderFits(h)
  }

  predicate RecordFits(base: uint64, maxTs: int64, r: StoredRecord) {
    && ToUint64(r.offset - base) <= MAX_UINT32
    && ToInt64(maxTs - r.timestamp) >= 0
    && FieldFits(r.key) && FieldFits(r.value) && HeadersFit(r.headers)
  }

  predicate BatchFits(base: uint64, maxTs: int64, rs: seq<StoredRecord>) {
    && |Body(base, maxTs, rs)| + 4 <= MAX_UINT32
    && forall r <- rs :: RecordFits(base, maxTs, r)
  }

  // ---------------------------------------------------------------- the parser

  /** Outcome of parsing from a position: a value and the position after it, a rejection
      with an error, or a slice expression out of range, which stops the program. */
  datatype Parsed<+T> = Done(value: T, next: nat) | Reject | Panic

  function ParseField(data: seq<byte>, total: nat, off: nat): (p: Parsed<Option<seq<byte>>>)
    requires total <= |data|
    ensures p.Done? ==> off + 4 <= p.next <= |data|
  {
    if off + 4 > |data| then Panic else
      var n := ToInt32(Get32(data[off..off + 4]));
      if n > 0 then
        if off + 4 + n > total then Reject else Done(Some(data[off + 4..off + 4 + n]), off + 4 + n)
      else if n == 0 then Done(Some([]), off + 4)
      else if n < -1 then Reject
      else Done(None, off + 4)
  }

  function ParseHeader(data: seq<byte>, total: nat, off: nat): (p: Parsed<Header>)
    requires total <= |data|
    ensures p.Done? ==> off + 8 <= p.next <= |data|
  {
    if off + 8 > total then Reject else
      var keyEnd := off + 4 + Get32(data[off..off + 4]);
      if keyEnd > total then Reject else if keyEnd + 4 > |data| then Panic else
        var end := keyEnd + 4 + Get32(data[keyEnd..keyEnd + 4]);
        if end > total then Reject
        else Done(Header(data[off + 4..keyEnd], Some(data[keyEnd + 4..end])), end)
  }

  function ParseHeaders(data: seq<byte>, total: nat, off: nat, n: nat): (p: Parsed<seq<Header>>)
    requires total <= |data| && off <= |data|
    ensures p.Done? ==> |p.value| == n && off <= p.next <= |data|
    decreases n
  {
    if n == 0 then Done([], off) else
      match ParseHeader(data, total, off)
      case Done(h, mid) => (
        match ParseHeaders(data, total, mid, n - 1)
        case Done(hs, next) => Done([h] + hs, next)
        case Reject => Reject
        case Panic => Panic)
      case Reject => Reject
      case Panic => Panic
  }

  /** The header count may be read past the declared end; the remainder is then negative and
      its conversion to uint32 wraps. */
  function HeaderCapacity(total: nat, off: nat): uint32 {
    ToUint32(TruncDiv(total - off, 8))
  }

  function ParseHeaderList(data: seq<byte>, total: nat, off: nat): (p: Parsed<Option<seq<Header>>>)
    requires total <= |data|
    ensures p.Done? ==> off + 4 <= p.next <= |data|
  {
    if off + 4 > |data| then Panic else
      var n := Get32(data[off..off + 4]);
      if n > HeaderCapacity(total, off + 4) then Reject
      else if n == 0 then Done(None, off + 4)
      else
        match ParseHeaders(data, total, off + 4, n)
        case Done(hs, next) => Done(Some(hs), next)
        case Reject => Reject
        case Panic => Panic
  }

  function ParseRecord(data: seq<byte>, total: nat, off: nat, base: uint64, maxTs: int64): (p: Parsed<StoredRecord>)
    requires total <= |data|
    ensures p.Done? ==> off + 24 <= p.next <= |data|
  {
    if off + MINIMUM_RECORD_SIZE > total then Reject else
      var delta := Get32(data[off..off + 4]);
      var age := ToInt64(Get64(data[off + 4..off + 12]));
      if age < 0 then Reject else
        match ParseField(data, total, off + 12)
        case Done(key, at1) => (
          match ParseField(data, total, at1)
          case Done(value, at2) => (
            match ParseHeaderList(data, total, at2)
            case Done(headers, next) =>
              Done(StoredRecord(ToUint64(base + delta), ToInt64(maxTs - age), key, value, headers), next)
            case Reject => Reject
            case Panic => Panic)
          case Reject => Reject
          case Panic => Panic)
        case Reject => Reject
        case Panic => Panic
  }

  function ParseRecords(data: seq<byte>, total: nat, off: nat, base: uint64, maxTs: int64,
                        n: nat): (p: Parsed<seq<StoredRecord>>)
    requires total <= |data| && off <= |data|
    ensures p.Done? ==> |p.value| == n && off <= p.next <= |data|
    decreases n
  {
    if n == 0 then Done([], off) else
      match ParseRecord(data, total, off, base, maxTs)
      case Done(r, mid) => (
        match ParseRecords(data, total, mid, base, maxTs, n - 1)
        case Done(rs, next) => Done([r] + rs, next)
        case Reject => Reject
        case Panic => Panic)
      case Reject => Reject
      case Panic => Panic
  }

  datatype DecodeError = CorruptBatch | MalformedMagic | UnsupportedVersion

  datatype Decoded = Records(records: seq<StoredRecord>) | Failed(error: DecodeError) | Panicked

  function HeaderLength(data: seq<byte>): uint32
    requires |data| >= 9
  {
    Get32(data[5..9])
  }

  function HeaderBase(data: seq<byte>): uint64
    requires |data| >= BATCH_HEADER_SIZE
  {
    Get64(data[13..21])
  }

  function HeaderTimestamp(data: seq<byte>): int64
    requires |data| >= BATCH_HEADER_SIZE
  {
    ToInt64(Get64(data[25..33]))
  }

  function Decode(data: seq<byte>): Decoded {
    if |data| < BATCH_HEADER_SIZE then Failed(CorruptBatch)
    else if data[..4] != MAGIC then Failed(MalformedMagic)
    else if data[4] != VERSION then Failed(UnsupportedVersion)
    else
      var length := HeaderLength(data);
      var total := 9 + length;
      if length < MINIMUM_BATCH_REMAINDER || |data| < total then Failed(CorruptBatch)
      else if Get32(data[9..13]) != Crc32(data[13..total]) then Failed(CorruptBatch)
      else
        var count := Get32(data[21..25]);
        if count > ToUint32(TruncDiv(length - 20, MINIMUM_RECORD_SIZE)) then Failed(CorruptBatch)
        else if count == 0 then Records([])
        else
          match ParseRecords(data, total, BATCH_HEADER_SIZE, HeaderBase(data), HeaderTimestamp(data), count)
          case Done(rs, next) => if next == total then Records(rs) else Failed(CorruptBatch)
          case Reject => Failed(CorruptBatch)
          case Panic => Panicked
  }
}
