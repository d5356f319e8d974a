/** Where the bytes of a batch, an index entry and an offset entry lie, and in which order: the number in a field is the
    one its bytes denote, most significant byte first (docs/storage_format.md). */
module Layout {
  import opened Bytes
  import opened Checksum
  import opened Format
  import opened Index
  import opened OffsetFormat
  import opened Utf8

  // -------------------------------------------------------------------- byte order

  /** The number a row of digits to the base 256 denotes. */
  function Number(s: seq<byte>): nat {
    if s == [] then 0 else Number(s[..|s| - 1]) * 0x100 + s[|s| - 1]
  }

  /** The first byte in which they differ decides. */
  ghost predicate Precedes(s: seq<byte>, t: seq<byte>) {
    exists k | 0 <= k < |s| && k < |t| :: s[..k] == t[..k] && s[k] < t[k]
  }

  lemma {:induction false} NumberUnique(s: seq<byte>, t: seq<byte>)
    requires |s| == |t| && Number(s) == Number(t)
    ensures s == t
    decreases |s|
  {
    if s != [] {
      NumberUnique(s[..|s| - 1], t[..|t| - 1]);
    }
  }

  lemma PrecedesLonger(s: seq<byte>, t: seq<byte>)
    requires |s| == |t| && s != []
    ensures var (p, q, n) := (s[..|s| - 1], t[..|t| - 1], |s| - 1);
            Precedes(s, t) <==> Precedes(p, q) || (p == q && s[n] < t[n])
  {
    var (p, q, n) := (s[..|s| - 1], t[..|t| - 1], |s| - 1);
    if k :| 0 <= k < |s| && s[..k] == t[..k] && s[k] < t[k] {
      if k < n {
        assert p[..k] == s[..k] && q[..k] == t[..k];
      }
    }
    if k :| 0 <= k < |p| && p[..k] == q[..k] && p[k] < q[k] {
      assert s[..k] == p[..k] && t[..k] == q[..k];
    }
  }

  /** Rows of equal length are ordered as the numbers are. */
  lemma {:induction false} NumberOrder(s: seq<byte>, t: seq<byte>)
    requires |s| == |t|
    ensures Number(s) < Number(t) <==> Precedes(s, t)
    decreases |s|
  {
    hide Precedes;
    if s == [] {
      assert !Precedes(s, t) by { NothingPrecedes(s, t); }
    } else {
      var (p, q) := (s[..|s| - 1], t[..|t| - 1]);
      NumberOrder(p, q);
      PrecedesLonger(s, t);
      if Number(p) == Number(q) {
        NumberUnique(p, q);
      }
    }
  }

  lemma NothingPrecedes(s: seq<byte>, t: seq<byte>)
    requires s == []
    ensures !Precedes(s, t)
  {
  }

  lemma Word(s: seq<byte>)
    requires |s| == 4
    ensures Get32(s) == Number(s)
  {
    assert s[..3][..2] == s[..2] && s[..2][..1] == s[..1] && s[..1][..0] == [];
    var (a: int, b: int, c: int) := (s[0], s[1], s[2]);
    assert Number(s[..1]) == a && Number(s[..2]) == a * 0x100 + b && Number(s[..3]) == (a * 0x100 + b) * 0x100 + c;
  }

  lemma {:induction false} NumberConcat(s: seq<byte>, t: seq<byte>)
    requires |t| == 4
    ensures Number(s + t) == Number(s) * 0x1_0000_0000 + Number(t)
  {
    hide Number;
    NumberPush(s, t[0]);
    NumberPush(s + [t[0]], t[1]);
    NumberPush(s + [t[0]] + [t[1]], t[2]);
    NumberPush(s + [t[0]] + [t[1]] + [t[2]], t[3]);
    assert s + t == s + [t[0]] + [t[1]] + [t[2]] + [t[3]];
    NumberPush([], t[0]);
    NumberPush([t[0]], t[1]);
    NumberPush([t[0]] + [t[1]], t[2]);
    NumberPush([t[0]] + [t[1]] + [t[2]], t[3]);
    assert t == [t[0]] + [t[1]] + [t[2]] + [t[3]] && [] + [t[0]] == [t[0]];
    NumberNone();
  }

  lemma NumberNone()
    ensures Number([]) == 0
  {
  }

  lemma NumberPush(s: seq<byte>, b: byte)
    ensures Number(s + [b]) == Number(s) * 0x100 + b
  {
    assert (s + [b])[..|s|] == s;
  }

  lemma LongWord(s: seq<byte>)
    requires |s| == 8
    ensures Get64(s) == Number(s)
  {
    hide Get32, Number;
    Word(s[..4]);
    Word(s[4..]);
    NumberConcat(s[..4], s[4..]);
    assert s == s[..4] + s[4..];
  }

  /** Bytes on disk are in the order of the numbers they stand for. */
  lemma Put32Order(a: uint32, b: uint32)
    ensures Number(Put32(a)) == a && (a < b <==> Precedes(Put32(a), Put32(b)))
  {
    hide Put32, Get32, Number, Precedes;
    Word(Put32(a));
    Word(Put32(b));
    NumberOrder(Put32(a), Put32(b));
  }

  lemma Put64Order(a: uint64, b: uint64)
    ensures Number(Put64(a)) == a && (a < b <==> Precedes(Put64(a), Put64(b)))
  {
    hide Put64, Get64, Number, Precedes;
    LongWord(Put64(a));
    LongWord(Put64(b));
    NumberOrder(Put64(a), Put64(b));
  }

  /** A small number has its digit last. */
  lemma SmallWord(v: byte)
    ensures Put32(v) == [0, 0, 0, v]
  {
    hide Put32, Get32;
    Word([0, 0, 0, v]);
    Word(Put32(v));
    assert [0, 0, 0, v][..3] == [0, 0, 0] && [0, 0, 0][..2] == [0, 0] && [0, 0][..1] == [0];
    assert Number([0]) == 0 && Number([0, 0]) == 0 && Number([0, 0, 0]) == 0;
    assert Number([0, 0, 0, v]) == v;
    NumberUnique(Put32(v), [0, 0, 0, v]);
  }

  // ------------------------------------------------------------------------ fields

  ghost predicate BytesAt(w: seq<byte>, at: nat, part: seq<byte>) {
    at + |part| <= |w| && w[at..at + |part|] == part
  }

  /** The `n` bytes at a position denote the number. */
  ghost predicate NumberAt(w: seq<byte>, at: nat, n: nat, v: int) {
    at + n <= |w| && Number(w[at..at + n]) == v
  }

  lemma Concat(a: seq<byte>, b: seq<byte>, w: seq<byte>)
    requires w == a + b
    ensures |w| == |a| + |b| && BytesAt(w, 0, a) && BytesAt(w, |a|, b)
  {
  }

  lemma SliceOfSlice(w: seq<byte>, from: nat, to: nat, i: nat, j: nat)
    requires from + j <= to <= |w| && i <= j
    ensures w[from..to][i..j] == w[from + i..from + j]
  {
    var (a, b) := (w[from..to][i..j], w[from + i..from + j]);
    assert |a| == |b| && forall k | 0 <= k < |a| :: a[k] == b[k];
  }

  lemma BytesIn(w: seq<byte>, at: nat, part: seq<byte>, i: nat, inner: seq<byte>)
    requires BytesAt(w, at, part) && BytesAt(part, i, inner)
    ensures BytesAt(w, at + i, inner)
  {
    SliceOfSlice(w, at, at + |part|, i, i + |inner|);
  }

  lemma NumberIn(w: seq<byte>, at: nat, part: seq<byte>, i: nat, n: nat, v: int)
    requires BytesAt(w, at, part) && NumberAt(part, i, n, v)
    ensures NumberAt(w, at + i, n, v)
  {
    hide Number;
    SliceOfSlice(w, at, at + |part|, i, i + n);
  }

  lemma WordAt(w: seq<byte>, at: nat, v: uint32)
    requires BytesAt(w, at, Put32(v))
    ensures NumberAt(w, at, 4, v)
  {
    hide Put32, Number, Precedes;
    Put32Order(v, 0);
  }

  lemma LongAt(w: seq<byte>, at: nat, v: uint64)
    requires BytesAt(w, at, Put64(v))
    ensures NumberAt(w, at, 8, v)
  {
    hide Put64, Number, Precedes;
    Put64Order(v, 0);
  }

  /** Three parts, one after another. */
  lemma ThreeParts(a: seq<byte>, b: seq<byte>, c: seq<byte>, w: seq<byte>)
    requires w == a + b + c
    ensures |w| == |a| + |b| + |c|
    ensures BytesAt(w, 0, a) && BytesAt(w, |a|, b) && BytesAt(w, |a| + |b|, c)
  {
  }

  /** Batches and offset entries start alike: magic, version, length, checksum. */
  lemma FrameLayout(magic: seq<byte>, length: uint32, checksum: uint32, body: seq<byte>, w: seq<byte>)
    requires |magic| == 4 && w == magic + [1] + Put32(length) + Put32(checksum) + body
    ensures |w| == 13 + |body| && BytesAt(w, 0, magic) && w[4] == 1
    ensures NumberAt(w, 5, 4, length) && NumberAt(w, 9, 4, checksum) && BytesAt(w, 13, body)
  {
    hide Put32, BytesAt, NumberAt;
    var (front, words) := (magic + [1], Put32(length) + Put32(checksum));
    assert w == front + words + body;
    ThreeParts(front, words, body, w);
    Concat(magic, [1], front);
    BytesIn(w, 0, front, 0, magic);
    Concat(Put32(length), Put32(checksum), words);
    BytesIn(w, 5, words, 0, Put32(length));
    BytesIn(w, 5, words, 4, Put32(checksum));
    WordAt(w, 5, length);
    WordAt(w, 9, checksum);
  }

  // ---------------------------------------------------------------------- a batch

  /** First offset, number of records, largest timestamp. */
  lemma BodyLayout(base: uint64, ts: int64, rs: seq<StoredRecord>)
    requires ts >= 0
    ensures var body := Body(base, ts, rs);
            && NumberAt(body, 0, 8, base) && NumberAt(body, 8, 4, |rs| % 0x1_0000_0000) && NumberAt(body, 12, 8, ts)
            && BytesAt(body, 20, RecordsWire(base, ts, rs)) && |body| == 20 + |RecordsWire(base, ts, rs)|
  {
    hide Put32, Put64, RecordsWire, BytesAt, NumberAt;
    var body := Body(base, ts, rs);
    var numbers := Put64(base) + Put32(ToUint32(|rs|)) + Put64(ToUint64(ts));
    Concat(numbers, RecordsWire(base, ts, rs), body);
    ThreeParts(Put64(base), Put32(ToUint32(|rs|)), Put64(ToUint64(ts)), numbers);
    BytesIn(body, 0, numbers, 0, Put64(base));
    BytesIn(body, 0, numbers, 8, Put32(ToUint32(|rs|)));
    BytesIn(body, 0, numbers, 12, Put64(ToUint64(ts)));
    LongAt(body, 0, base);
    WordAt(body, 8, ToUint32(|rs|));
    LongAt(body, 12, ToUint64(ts));
  }

  /** The 33 bytes before the records, and where the records are. */
  lemma BatchLayout(rs: seq<StoredRecord>)
    requires rs != []
    ensures var (e, base, ts) := (Encode(rs), rs[0].offset, MaxTimestamp(rs));
            && |e| == 33 + |RecordsWire(base, ts, rs)| && BytesAt(e, 0, [0x50, 0x47, 0x4C, 0x47]) && e[4] == 1
            && NumberAt(e, 5, 4, (|e| - 9) % 0x1_0000_0000)
            && NumberAt(e, 9, 4, Crc32(e[13..]))
            && NumberAt(e, 13, 8, base)
            && NumberAt(e, 21, 4, |rs| % 0x1_0000_0000)
            && NumberAt(e, 25, 8, ts)
            && BytesAt(e, 33, RecordsWire(base, ts, rs))
  {
    hide Crc32, RecordsWire, MaxTimestamp, Body, BytesAt, NumberAt, Put32;
    var (e, base, ts) := (Encode(rs), rs[0].offset, MaxTimestamp(rs));
    var body := Body(base, ts, rs);
    FrameLayout(MAGIC, ToUint32(|body| + 4), Crc32(body), body, e);
    RestIs(e, 13, body);
    BodyLayout(base, ts, rs);
    NumberIn(e, 13, body, 0, 8, base);
    NumberIn(e, 13, body, 8, 4, |rs| % 0x1_0000_0000);
    NumberIn(e, 13, body, 12, 8, ts);
    BytesIn(e, 13, body, 20, RecordsWire(base, ts, rs));
  }

  lemma RestIs(w: seq<byte>, at: nat, part: seq<byte>)
    requires BytesAt(w, at, part) && |w| == at + |part|
    ensures w[at..] == part
  {
  }

  /** The length field of a small batch: three zero bytes, and the size of what follows the field. */
  lemma SmallBatch(rs: seq<StoredRecord>)
    requires rs != [] && |Encode(rs)| - 9 < 0x100
    ensures |Encode(rs)| >= 33 && Encode(rs)[5..9] == [0, 0, 0, |Encode(rs)| - 9]
  {
    hide Put32, Get32, Encode, Number, Crc32, RecordsWire, MaxTimestamp, BytesAt, Precedes;
    var e := Encode(rs);
    BatchLayout(rs);
    SmallWord(|e| - 9);
    Put32Order(|e| - 9, 0);
    NumberUnique(e[5..9], Put32(|e| - 9));
  }

  function NilOr(f: Option<seq<byte>>): nat { if f.None? then 0xFFFF_FFFF else |f.value| % 0x1_0000_0000 }

  lemma FieldLayout(f: Option<seq<byte>>)
    ensures var w := FieldWire(f);
            |w| == 4 + |Contents(f)| && NumberAt(w, 0, 4, NilOr(f)) && BytesAt(w, 4, Contents(f))
  {
    hide Put32, BytesAt, NumberAt;
    var length := if f.None? then NIL_LENGTH else ToUint32(|f.value|);
    assert FieldWire(f) == Put32(length) + Contents(f);
    Concat(Put32(length), Contents(f), FieldWire(f));
    WordAt(FieldWire(f), 0, length);
  }

  /** Offset delta and age, key and value, and the header list. */
  lemma RecordParts(base: uint64, ts: int64, r: StoredRecord)
    ensures var (w, k) := (RecordWire(base, ts, r), 16 + |Contents(r.key)|);
            var v := k + 4 + |Contents(r.value)|;
            && |w| == v + |HeaderListWire(r.headers)|
            && BytesAt(w, 0, Put32(ToUint32(r.offset - base)) + Put64(ToUint64(ts - r.timestamp)))
            && BytesAt(w, 12, FieldWire(r.key)) && BytesAt(w, k, FieldWire(r.value))
            && BytesAt(w, v, HeaderListWire(r.headers))
  {
    hide Put32, Put64, HeaderListWire, FieldWire, BytesAt, NumberAt;
    var (w, k) := (RecordWire(base, ts, r), 16 + |Contents(r.key)|);
    FieldLayout(r.key);
    FieldLayout(r.value);
    var front := Put32(ToUint32(r.offset - base)) + Put64(ToUint64(ts - r.timestamp));
    var fields := FieldWire(r.key) + FieldWire(r.value);
    assert w == front + fields + HeaderListWire(r.headers);
    ThreeParts(front, fields, HeaderListWire(r.headers), w);
    Concat(FieldWire(r.key), FieldWire(r.value), fields);
    BytesIn(w, 12, fields, 0, FieldWire(r.key));
    BytesIn(w, 12, fields, k - 12, FieldWire(r.value));
  }

  /** A record: offset delta, age, key, value, headers. */
  lemma RecordLayout(base: uint64, ts: int64, r: StoredRecord)
    ensures var (w, k) := (RecordWire(base, ts, r), 16 + |Contents(r.key)|);
            var v := k + 4 + |Contents(r.value)|;
            && |w| == v + 4 + |HeadersWire(Contents(r.headers))|
            && NumberAt(w, 0, 4, (r.offset - base) % 0x1_0000_0000)
            && NumberAt(w, 4, 8, (ts - r.timestamp) % 0x1_0000_0000_0000_0000)
            && NumberAt(w, 12, 4, NilOr(r.key)) && BytesAt(w, 16, Contents(r.key))
            && NumberAt(w, k, 4, NilOr(r.value)) && BytesAt(w, k + 4, Contents(r.value))
            && NumberAt(w, v, 4, |Contents(r.headers)| % 0x1_0000_0000)
            && BytesAt(w, v + 4, HeadersWire(Contents(r.headers)))
  {
    hide Put32, Put64, HeadersWire, FieldWire, BytesAt, NumberAt, RecordWire;
    var (w, k) := (RecordWire(base, ts, r), 16 + |Contents(r.key)|);
    var v := k + 4 + |Contents(r.value)|;
    var (delta, age) := (ToUint32(r.offset - base), ToUint64(ts - r.timestamp));
    var (count, headers) := (ToUint32(|Contents(r.headers)|), HeadersWire(Contents(r.headers)));
    RecordParts(base, ts, r);
    Concat(Put32(delta), Put64(age), Put32(delta) + Put64(age));
    BytesIn(w, 0, Put32(delta) + Put64(age), 0, Put32(delta));
    BytesIn(w, 0, Put32(delta) + Put64(age), 4, Put64(age));
    WordAt(w, 0, delta);
    LongAt(w, 4, age);
    FieldIn(w, 12, r.key);
    FieldIn(w, k, r.value);
    Concat(Put32(count), headers, HeaderListWire(r.headers));
    BytesIn(w, v, HeaderListWire(r.headers), 0, Put32(count));
    BytesIn(w, v, HeaderListWire(r.headers), 4, headers);
    WordAt(w, v, count);
  }

  lemma FieldIn(w: seq<byte>, at: nat, f: Option<seq<byte>>)
    requires BytesAt(w, at, FieldWire(f))
    ensures NumberAt(w, at, 4, NilOr(f)) && BytesAt(w, at + 4, Contents(f))
  {
    hide FieldWire, BytesAt, NumberAt;
    FieldLayout(f);
    NumberIn(w, at, FieldWire(f), 0, 4, NilOr(f));
    BytesIn(w, at, FieldWire(f), 4, Contents(f));
  }

  lemma HeaderLayout(h: Header)
    ensures var (w, k) := (HeaderWire(h), 4 + |h.key|);
            && |w| == k + 4 + |Contents(h.value)|
            && NumberAt(w, 0, 4, |h.key| % 0x1_0000_0000) && BytesAt(w, 4, h.key)
            && NumberAt(w, k, 4, |Contents(h.value)| % 0x1_0000_0000) && BytesAt(w, k + 4, Contents(h.value))
  {
    hide Put32, BytesAt, NumberAt;
    var (w, k) := (HeaderWire(h), 4 + |h.key|);
    var (key, value) := (Put32(ToUint32(|h.key|)), Put32(ToUint32(|Contents(h.value)|)));
    assert w == key + (h.key + value) + Contents(h.value);
    ThreeParts(key, h.key + value, Contents(h.value), w);
    Concat(h.key, value, h.key + value);
    BytesIn(w, 4, h.key + value, 0, h.key);
    BytesIn(w, 4, h.key + value, |h.key|, value);
    WordAt(w, 0, ToUint32(|h.key|));
    WordAt(w, k, ToUint32(|Contents(h.value)|));
  }

  /** Records follow one another, and so do headers. */
  lemma {:induction false} RecordsFollow(base: uint64, ts: int64, rs: seq<StoredRecord>, i: nat)
    requires i < |rs|
    ensures BytesAt(RecordsWire(base, ts, rs), |RecordsWire(base, ts, rs[..i])|, RecordWire(base, ts, rs[i]))
    decreases i
  {
    hide RecordWire, BytesAt;
    var (w, first) := (RecordsWire(base, ts, rs), RecordWire(base, ts, rs[0]));
    Concat(first, RecordsWire(base, ts, rs[1..]), w);
    if i == 0 {
      assert rs[..0] == [];
    } else {
      RecordsFollow(base, ts, rs[1..], i - 1);
      assert rs[..i][1..] == rs[1..][..i - 1];
      var at := |RecordsWire(base, ts, rs[1..][..i - 1])|;
      BytesIn(w, |first|, RecordsWire(base, ts, rs[1..]), at, RecordWire(base, ts, rs[i]));
    }
  }

  lemma {:induction false} HeadersFollow(hs: seq<Header>, i: nat)
    requires i < |hs|
    ensures BytesAt(HeadersWire(hs), |HeadersWire(hs[..i])|, HeaderWire(hs[i]))
    decreases i
  {
    hide HeaderWire, BytesAt;
    var (w, first) := (HeadersWire(hs), HeaderWire(hs[0]));
    Concat(first, HeadersWire(hs[1..]), w);
    if i == 0 {
      assert hs[..0] == [];
    } else {
      HeadersFollow(hs[1..], i - 1);
      assert hs[..i][1..] == hs[1..][..i - 1];
      BytesIn(w, |first|, HeadersWire(hs[1..]), |HeadersWire(hs[1..][..i - 1])|, HeaderWire(hs[i]));
    }
  }

  // ------------------------------------------------------- index and offset entries

  lemma IndexEntryLayout(e: IndexEntry)
    ensures var w := EntryBytes(e); |w| == 12 && NumberAt(w, 0, 4, e.relative) && NumberAt(w, 4, 8, e.position)
  {
    hide Put32, Put64, BytesAt, NumberAt;
    var w := EntryBytes(e);
    Concat(Put32(e.relative), Put64(e.position), w);
    WordAt(w, 0, e.relative);
    LongAt(w, 4, e.position);
  }

  lemma NumbersLayout(e: Entry)
    ensures var n := Numbers(e);
            NumberAt(n, 0, 4, e.partition) && NumberAt(n, 4, 8, e.next) && NumberAt(n, 12, 8, e.timestamp)
  {
    hide Put32, Put64, BytesAt, NumberAt;
    var n := Numbers(e);
    ThreeParts(Put32(e.partition), Put64(e.next), Put64(e.timestamp), n);
    WordAt(n, 0, e.partition);
    LongAt(n, 4, e.next);
    LongAt(n, 12, e.timestamp);
  }

  lemma NamesLayout(e: Entry)
    requires ValidEntry(e)
    ensures var (w, g) := (Names(e), 4 + |e.group|);
            && |w| == g + 4 + |e.topic| && NumberAt(w, 0, 4, |e.group|) && BytesAt(w, 4, e.group)
            && NumberAt(w, g, 4, |e.topic|) && BytesAt(w, g + 4, e.topic)
  {
    hide Put32, BytesAt, NumberAt, ValidString;
    var w := Names(e);
    var (group, topic) := (Put32(|e.group|), Put32(|e.topic|));
    assert w == group + (e.group + topic) + e.topic;
    ThreeParts(group, e.group + topic, e.topic, w);
    Concat(e.group, topic, e.group + topic);
    BytesIn(w, 4, e.group + topic, 0, e.group);
    BytesIn(w, 4, e.group + topic, |e.group|, topic);
    WordAt(w, 0, |e.group|);
    WordAt(w, 4 + |e.group|, |e.topic|);
  }

  /** An offset entry: magic, version, length, checksum, then group, topic, partition, next offset, timestamp. */
  lemma OffsetEntryLayout(e: Entry)
    requires ValidEntry(e)
    ensures var (w, g) := (EntryWire(e), 17 + |e.group|);
            var t := g + 4 + |e.topic|;
            && |w| == t + 20 && BytesAt(w, 0, [0x4F, 0x46, 0x46, 0x53]) && w[4] == 1
            && NumberAt(w, 5, 4, |w| - 9) && NumberAt(w, 9, 4, Crc32(w[13..]))
            && NumberAt(w, 13, 4, |e.group|) && BytesAt(w, 17, e.group)
            && NumberAt(w, g, 4, |e.topic|) && BytesAt(w, g + 4, e.topic)
            && NumberAt(w, t, 4, e.partition) && NumberAt(w, t + 4, 8, e.next) && NumberAt(w, t + 12, 8, e.timestamp)
  {
    hide Put32, Crc32, ValidString, BytesAt, NumberAt, Names, Numbers;
    EntrySize(e);
    var (w, g, p) := (EntryWire(e), 17 + |e.group|, Payload(e));
    var t := g + 4 + |e.topic|;
    FrameLayout(OFFSET_MAGIC, |p| + 4, Crc32(p), p, w);
    RestIs(w, 13, p);
    NamesLayout(e);
    NumbersLayout(e);
    Concat(Names(e), Numbers(e), p);
    BytesIn(w, 13, p, 0, Names(e));
    BytesIn(w, 13, p, t - 13, Numbers(e));
    NumberIn(w, 13, Names(e), 0, 4, |e.group|);
    BytesIn(w, 13, Names(e), 4, e.group);
    NumberIn(w, 13, Names(e), g - 13, 4, |e.topic|);
    BytesIn(w, 13, Names(e), g - 9, e.topic);
    NumberIn(w, t, Numbers(e), 0, 4, e.partition);
    NumberIn(w, t, Numbers(e), 4, 8, e.next);
    NumberIn(w, t, Numbers(e), 12, 8, e.timestamp);
  }
}
