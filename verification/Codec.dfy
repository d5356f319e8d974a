/** EncodeBatch and DecodeBatch (internal/storage/format.go), loop by loop, against the format. */
module Codec {
  import opened Bytes
  import opened Checksum
  import opened Format

  datatype EncodeResult = Encoded(bytes: seq<byte>) | EmptyBatch

  /** binary.BigEndian.PutUint32, PutUint64 and copy: overwrite part of the buffer. */
  method Put(buf: array<byte>, at: nat, s: seq<byte>)
    requires at + |s| <= buf.Length
    modifies buf
    ensures buf[at..at + |s|] == s
    ensures buf[..at] == old(buf[..at]) && buf[at + |s|..] == old(buf[at + |s|..])
  {
    forall i | 0 <= i < |s| {
      buf[at + i] := s[i];
    }
  }

  /** Writing next to what is already written extends it. */
  method PutNext(buf: array<byte>, from: nat, at: nat, s: seq<byte>) returns (next: nat)
    requires from <= at && at + |s| <= buf.Length
    modifies buf
    ensures next == at + |s|
    ensures buf[from..next] == old(buf[from..at]) + s
    ensures buf[..from] == old(buf[..from])
  {
    Put(buf, at, s);
    next := at + |s|;
    assert buf[from..at] == buf[..at][from..] == old(buf[from..at]);
    assert buf[from..next] == buf[from..at] + buf[at..next];
    assert buf[..from] == buf[..at][..from];
  }

  lemma Assoc(a: seq<byte>, b: seq<byte>, c: seq<byte>)
    ensures (a + b) + c == a + (b + c)
  {
  }

  method PutField(buf: array<byte>, from: nat, at: nat, f: Option<seq<byte>>) returns (next: nat)
    requires from <= at && at + |FieldWire(f)| <= buf.Length
    modifies buf
    ensures next == at + |FieldWire(f)|
    ensures buf[from..next] == old(buf[from..at]) + FieldWire(f)
    ensures buf[..from] == old(buf[..from])
  {
    hide Put32;
    if f.None? {
      next := PutNext(buf, from, at, Put32(NIL_LENGTH));
    } else {
      next := PutNext(buf, from, at, Put32(ToUint32(|f.value|)));
      next := PutNext(buf, from, next, f.value);
    }
  }

  method PutHeader(buf: array<byte>, from: nat, at: nat, h: Header) returns (next: nat)
    requires from <= at && at + |HeaderWire(h)| <= buf.Length
    modifies buf
    ensures next == at + |HeaderWire(h)|
    ensures buf[from..next] == old(buf[from..at]) + HeaderWire(h)
    ensures buf[..from] == old(buf[..from])
  {
    hide Put32, ToUint32;
    ghost var (done, k, v) := (buf[from..at], Put32(ToUint32(|h.key|)), Put32(ToUint32(|Contents(h.value)|)));
    Assoc(done, k, h.key);
    Assoc(done, k + h.key, v);
    Assoc(done, k + h.key + v, Contents(h.value));
    next := PutNext(buf, from, at, Put32(ToUint32(|h.key|)));
    next := PutNext(buf, from, next, h.key);
    next := PutNext(buf, from, next, Put32(ToUint32(|Contents(h.value)|)));
    next := PutNext(buf, from, next, Contents(h.value));
  }

  method PutHeaders(buf: array<byte>, from: nat, at: nat, hs: seq<Header>) returns (next: nat)
    requires from <= at && at + |HeadersWire(hs)| <= buf.Length
    modifies buf
    ensures next == at + |HeadersWire(hs)|
    ensures buf[from..next] == old(buf[from..at]) + HeadersWire(hs)
    ensures buf[..from] == old(buf[..from])
  {
    hide HeaderWire;
    next := at;
    for i := 0 to |hs|
      invariant from <= next <= buf.Length
      invariant next + |HeadersWire(hs[i..])| == at + |HeadersWire(hs)|
      invariant buf[from..next] + HeadersWire(hs[i..]) == old(buf[from..at]) + HeadersWire(hs)
      invariant buf[..from] == old(buf[..from])
    {
      assert hs[i..][1..] == hs[i + 1..];
      next := PutHeader(buf, from, next, hs[i]);
    }
  }

  method PutHeaderList(buf: array<byte>, from: nat, at: nat, hs: Option<seq<Header>>) returns (next: nat)
    requires from <= at && at + |HeaderListWire(hs)| <= buf.Length
    modifies buf
    ensures next == at + |HeaderListWire(hs)|
    ensures buf[from..next] == old(buf[from..at]) + HeaderListWire(hs)
    ensures buf[..from] == old(buf[..from])
  {
    hide Put32, HeadersWire;
    next := PutNext(buf, from, at, Put32(ToUint32(|Contents(hs)|)));
    next := PutHeaders(buf, from, next, Contents(hs));
  }

  method PutRecord(buf: array<byte>, from: nat, at: nat, base: uint64, maxTs: int64, r: StoredRecord)
    returns (next: nat)
    requires from <= at && at + |RecordWire(base, maxTs, r)| <= buf.Length
    modifies buf
    ensures next == at + |RecordWire(base, maxTs, r)|
    ensures buf[from..next] == old(buf[from..at]) + RecordWire(base, maxTs, r)
    ensures buf[..from] == old(buf[..from])
  {
    hide Put32, Put64, FieldWire, HeaderListWire, ToUint32, ToUint64;
    ghost var (done, d, a) := (buf[from..at], Put32(ToUint32(r.offset - base)), Put64(ToUint64(maxTs - r.timestamp)));
    Assoc(done, d, a);
    Assoc(done, d + a, FieldWire(r.key));
    Assoc(done, d + a + FieldWire(r.key), FieldWire(r.value));
    Assoc(done, d + a + FieldWire(r.key) + FieldWire(r.value), HeaderListWire(r.headers));
    next := PutNext(buf, from, at, Put32(ToUint32(r.offset - base)));
    next := PutNext(buf, from, next, Put64(ToUint64(maxTs - r.timestamp)));
    next := PutField(buf, from, next, r.key);
    next := PutField(buf, from, next, r.value);
    next := PutHeaderList(buf, from, next, r.headers);
  }

  method PutRecords(buf: array<byte>, from: nat, at: nat, base: uint64, maxTs: int64, rs: seq<StoredRecord>)
    returns (next: nat)
    requires from <= at && at + |RecordsWire(base, maxTs, rs)| <= buf.Length
    modifies buf
    ensures next == at + |RecordsWire(base, maxTs, rs)|
    ensures buf[from..next] == old(buf[from..at]) + RecordsWire(base, maxTs, rs)
    ensures buf[..from] == old(buf[..from])
  {
    hide RecordWire;
    next := at;
    for i := 0 to |rs|
      invariant from <= next <= buf.Length
      invariant next + |RecordsWire(base, maxTs, rs[i..])| == at + |RecordsWire(base, maxTs, rs)|
      invariant buf[from..next] + RecordsWire(base, maxTs, rs[i..]) == old(buf[from..at]) + RecordsWire(base, maxTs, rs)
      invariant buf[..from] == old(buf[..from])
    {
      assert rs[i..][1..] == rs[i + 1..];
      next := PutRecord(buf, from, next, base, maxTs, rs[i]);
    }
  }

  method RecordSize(base: uint64, maxTs: int64, r: StoredRecord) returns (size: nat)
    ensures size == |RecordWire(base, maxTs, r)|
  {
    hide Put32, Put64;
    var hs := Contents(r.headers);
    size := MINIMUM_RECORD_SIZE;
    if |Contents(r.key)| > 0 {
      size := size + |Contents(r.key)|;
    }
    if |Contents(r.value)| > 0 {
      size := size + |Contents(r.value)|;
    }
    assert size + |HeadersWire(hs)| == |RecordWire(base, maxTs, r)|;
    for j := 0 to |hs|
      invariant size + |HeadersWire(hs[j..])| == |RecordWire(base, maxTs, r)|
    {
      assert hs[j..][1..] == hs[j + 1..];
      size := size + 8 + |hs[j].key| + |Contents(hs[j].value)|;
    }
  }

  /** The size computed before anything is written is the size of what the writing loops write. */
  method PayloadSize(base: uint64, maxTs: int64, rs: seq<StoredRecord>) returns (size: nat)
    ensures size == |RecordsWire(base, maxTs, rs)|
  {
    hide RecordWire;
    size := 0;
    for i := 0 to |rs|
      invariant size + |RecordsWire(base, maxTs, rs[i..])| == |RecordsWire(base, maxTs, rs)|
    {
      assert rs[i..][1..] == rs[i + 1..];
      var n := RecordSize(base, maxTs, rs[i]);
      size := size + n;
    }
  }

  method LargestTimestamp(rs: seq<StoredRecord>) returns (m: int64)
    ensures m == MaxTimestamp(rs)
  {
    m := 0;
    assert rs[0..] == rs;
    for i := 0 to |rs|
      invariant m >= 0
      invariant MaxTimestamp(rs) == if MaxTimestamp(rs[i..]) > m then MaxTimestamp(rs[i..]) else m
    {
      assert rs[i..][1..] == rs[i + 1..];
      if rs[i].timestamp > m {
        m := rs[i].timestamp;
      }
    }
  }

  method PutBody(buf: array<byte>, base: uint64, maxTs: int64, rs: seq<StoredRecord>) returns (next: nat)
    requires buf.Length == 13 + |Body(base, maxTs, rs)|
    modifies buf
    ensures next == buf.Length && buf[13..] == Body(base, maxTs, rs)
    ensures buf[..13] == old(buf[..13])
  {
    hide Put32, Put64, RecordsWire, ToUint32, ToUint64;
    next := PutNext(buf, 13, 13, Put64(base));
    next := PutNext(buf, 13, next, Put32(ToUint32(|rs|)));
    next := PutNext(buf, 13, next, Put64(ToUint64(maxTs)));
    next := PutRecords(buf, 13, next, base, maxTs, rs);
    assert buf[13..] == buf[13..next];
  }

  lemma Assemble(b: seq<byte>, body: seq<byte>, checksum: uint32)
    requires |b| == 13 + |body|
    requires b[..9] == MAGIC + [VERSION] + Put32(ToUint32(|body| + 4))
    requires b[9..13] == Put32(checksum) && b[13..] == body
    ensures b == Frame(body, checksum)
  {
    hide Put32;
    assert b == b[..9] + b[9..13] + b[13..];
    assert Frame(body, checksum) == MAGIC + [VERSION] + Put32(ToUint32(|body| + 4)) + Put32(checksum) + body;
  }

  method PutPrefix(buf: array<byte>, length: uint32)
    requires buf.Length >= 9
    modifies buf
    ensures buf[..9] == MAGIC + [VERSION] + Put32(length)
  {
    hide Put32;
    var n := PutNext(buf, 0, 0, MAGIC + [VERSION]);
    n := PutNext(buf, 0, n, Put32(length));
    assert buf[..9] == buf[0..n];
  }

  method PutFrame(buf: array<byte>, base: uint64, maxTs: int64, rs: seq<StoredRecord>) returns (next: nat)
    requires buf.Length == 13 + |Body(base, maxTs, rs)|
    modifies buf
    ensures next == buf.Length && buf[..] == BatchWire(base, maxTs, rs)
  {
    hide Put32, ToUint32, Crc32, Body, Frame;
    var total := buf.Length;
    PutPrefix(buf, ToUint32(total - 9));
    ghost var prefix := buf[..9];
    next := PutBody(buf, base, maxTs, rs);
    assert buf[..9] == buf[..13][..9] == prefix;
    Put(buf, 9, Put32(Crc32(buf[13..])));
    Assemble(buf[..], Body(base, maxTs, rs), Crc32(Body(base, maxTs, rs)));
  }

  /** Fills a buffer of the precomputed size, then patches the checksum in. */
  method EncodeBatch(records: seq<StoredRecord>) returns (r: EncodeResult)
    ensures records == [] ==> r.EmptyBatch?
    ensures records != [] ==> r == Encoded(Encode(records))
  {
    if records == [] {
      return EmptyBatch;
    }
    hide RecordsWire, BatchWire, MaxTimestamp, Put32, Put64;
    var base := records[0].offset;
    var maxTs := LargestTimestamp(records);
    var payload := PayloadSize(base, maxTs, records);
    var buf := new byte[BATCH_HEADER_SIZE + payload](_ => 0);
    var n := PutFrame(buf, base, maxTs, records);
    assert buf[..n] == buf[..];
    r := Encoded(buf[..n]);
  }

  /** What is parsed so far, in front of what is still to be parsed. */
  function After<T>(done: seq<T>, p: Parsed<seq<T>>): Parsed<seq<T>> {
    match p
    case Done(rest, next) => Done(done + rest, next)
    case Reject => Reject
    case Panic => Panic
  }

  method ReadHeaders(data: seq<byte>, total: nat, off: nat, n: nat) returns (p: Parsed<seq<Header>>)
    requires off <= |data| && total <= |data|
    ensures p == ParseHeaders(data, total, off, n)
  {
    hide ParseHeader;
    var hs: seq<Header> := [];
    var at: nat, j: nat := off, 0;
    assert forall rest: seq<Header> :: hs + rest == rest;
    while j < n
      invariant at <= |data| && j <= n
      invariant ParseHeaders(data, total, off, n) == After(hs, ParseHeaders(data, total, at, n - j))
    {
      var h := ParseHeader(data, total, at);
      if h.Reject? {
        return Reject;
      }
      if h.Panic? {
        return Panic;
      }
      hs, at, j := hs + [h.value], h.next, j + 1;
      assert forall rest: seq<Header> :: hs[..|hs| - 1] + ([h.value] + rest) == hs + rest;
    }
    assert hs + [] == hs;
    p := Done(hs, at);
  }

  method ReadRecord(data: seq<byte>, total: nat, off: nat, base: uint64, maxTs: int64) returns (p: Parsed<StoredRecord>)
    requires total <= |data|
    ensures p == ParseRecord(data, total, off, base, maxTs)
  {
    hide Get32, Get64, ToInt64, ToUint64, ParseField, ParseHeaders, HeaderCapacity;
    if off + MINIMUM_RECORD_SIZE > total {
      return Reject;
    }
    var delta := Get32(data[off..off + 4]);
    var age := ToInt64(Get64(data[off + 4..off + 12]));
    if age < 0 {
      return Reject;
    }
    var key := ParseField(data, total, off + 12);
    if !key.Done? {
      return if key.Reject? then Reject else Panic;
    }
    var value := ParseField(data, total, key.next);
    if !value.Done? {
      return if value.Reject? then Reject else Panic;
    }
    var at := value.next;
    if at + 4 > |data| {
      return Panic;
    }
    var n := Get32(data[at..at + 4]);
    at := at + 4;
    if n > HeaderCapacity(total, at) {
      return Reject;
    }
    var headers: Option<seq<Header>> := None;
    if n > 0 {
      var hs := ReadHeaders(data, total, at, n);
      if !hs.Done? {
        return if hs.Reject? then Reject else Panic;
      }
      headers, at := Some(hs.value), hs.next;
    }
    p := Done(StoredRecord(ToUint64(base + delta), ToInt64(maxTs - age), key.value, value.value, headers), at);
  }

  method DecodeBatch(data: seq<byte>) returns (d: Decoded)
    ensures d == Decode(data)
  {
    hide Get32, Get64, Crc32, ToInt64, ToUint32, TruncDiv, ParseRecord;
    if |data| < BATCH_HEADER_SIZE {
      return Failed(CorruptBatch);
    }
    if data[..4] != MAGIC {
      return Failed(MalformedMagic);
    }
    if data[4] != VERSION {
      return Failed(UnsupportedVersion);
    }
    var length := Get32(data[5..9]);
    if length < MINIMUM_BATCH_REMAINDER {
      return Failed(CorruptBatch);
    }
    var total := 9 + length;
    if |data| < total {
      return Failed(CorruptBatch);
    }
    if Get32(data[9..13]) != Crc32(data[13..total]) {
      return Failed(CorruptBatch);
    }
    var base, count, maxTs := Get64(data[13..21]), Get32(data[21..25]), ToInt64(Get64(data[25..33]));
    if count > ToUint32(TruncDiv(length - 20, MINIMUM_RECORD_SIZE)) {
      return Failed(CorruptBatch);
    }
    if count == 0 {
      return Records([]);
    }
    var records: seq<StoredRecord> := [];
    var off: nat, i: nat := BATCH_HEADER_SIZE, 0;
    assert forall rest: seq<StoredRecord> :: records + rest == rest;
    while i < count
      invariant off <= |data| && i <= count
      invariant ParseRecords(data, total, BATCH_HEADER_SIZE, base, maxTs, count) ==
                After(records, ParseRecords(data, total, off, base, maxTs, count - i))
    {
      var r := ReadRecord(data, total, off, base, maxTs);
      if r.Reject? {
        return Failed(CorruptBatch);
      }
      if r.Panic? {
        return Panicked;
      }
      records, off, i := records + [r.value], r.next, i + 1;
      assert forall rest: seq<StoredRecord> :: records[..|records| - 1] + ([r.value] + rest) == records + rest;
    }
    if off != total {
      return Failed(CorruptBatch);
    }
    d := Records(records);
  }
}
