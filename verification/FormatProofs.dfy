/** The parser accepts exactly the format: each of its functions against the grammar. */
module FormatProofs {
  import opened Bytes
  import opened Checksum
  import opened Format

  /** The bytes from `off` up to `next` are `wire`. */
  predicate Spells(data: seq<byte>, off: nat, next: nat, wire: seq<byte>)
    requires off <= next <= |data|
  {
    next == off + |wire| && data[off..next] == wire
  }

  lemma SpellsTwo(data: seq<byte>, off: nat, next: nat, a: seq<byte>, b: seq<byte>)
    requires off <= next <= |data|
    ensures Spells(data, off, next, a + b) <==>
            off + |a| <= next && Spells(data, off, off + |a|, a) && Spells(data, off + |a|, next, b)
  {
    if next == off + |a| + |b| {
      SplitSlice(data, off, a, b);
    }
  }

  lemma SpellsWord(data: seq<byte>, off: nat, v: uint32)
    requires off + 4 <= |data|
    ensures Spells(data, off, off + 4, Put32(v)) <==> Get32(data[off..off + 4]) == v
  {
    hide Put32, Get32;
    Slice32(data, off, v);
  }

  lemma SpellsBytes(data: seq<byte>, off: nat, next: nat, wire: seq<byte>)
    requires off <= next <= |data|
    ensures Spells(data, off, next, wire) <==> data[off..next] == wire
    ensures Spells(data, off, next, wire) ==> next == off + |wire|
  {
  }

  lemma FieldExact(data: seq<byte>, total: nat, off: nat, f: Option<seq<byte>>, next: nat)
    requires off <= next <= total <= |data|
    ensures ParseField(data, total, off) == Done(f, next) <==>
            FieldFits(f) && Spells(data, off, next, FieldWire(f))
  {
    hide Put32, Get32;
    if off + 4 <= next {
      if f.None? {
        SpellsWord(data, off, NIL_LENGTH);
      } else {
        SpellsTwo(data, off, next, Put32(ToUint32(|f.value|)), f.value);
        SpellsWord(data, off, ToUint32(|f.value|));
      }
    }
  }

  lemma HeaderExact(data: seq<byte>, total: nat, off: nat, h: Header, next: nat)
    requires off <= next <= total <= |data|
    ensures ParseHeader(data, total, off) == Done(h, next) <==>
            HeaderFits(h) && Spells(data, off, next, HeaderWire(h))
  {
    hide Put32, Get32, Spells;
    var (k, v, value) := (ToUint32(|h.key|), ToUint32(|Contents(h.value)|), Contents(h.value));
    var at := off + 4 + |h.key|;
    SpellsTwo(data, off, next, Put32(k) + h.key + Put32(v), value);
    if at + 4 <= next {
      SpellsTwo(data, off, at + 4, Put32(k) + h.key, Put32(v));
      SpellsTwo(data, off, at, Put32(k), h.key);
      SpellsWord(data, off, k);
      SpellsWord(data, at, v);
      SpellsBytes(data, off + 4, at, h.key);
      SpellsBytes(data, at + 4, next, value);
    }
  }

  lemma {:induction false} HeadersExact(data: seq<byte>, total: nat, off: nat, hs: seq<Header>, next: nat)
    requires off <= next <= total <= |data|
    ensures ParseHeaders(data, total, off, |hs|) == Done(hs, next) <==>
            (forall h <- hs :: HeaderFits(h)) && Spells(data, off, next, HeadersWire(hs))
    decreases |hs|
  {
    hide HeaderWire, HeaderFits, ParseHeader;
    if hs != [] {
      var (h, rest) := (hs[0], hs[1..]);
      assert hs == [h] + rest;
      SpellsTwo(data, off, next, HeaderWire(h), HeadersWire(rest));
      var p := ParseHeader(data, total, off);
      if p.Done? && p.next <= next {
        HeaderExact(data, total, off, h, p.next);
        HeadersExact(data, total, p.next, rest, next);
      }
      var mid := off + |HeaderWire(h)|;
      if mid <= next {
        HeaderExact(data, total, off, h, mid);
      }
    }
  }

  lemma {:induction false} HeadersAtLeast(hs: seq<Header>)
    ensures |HeadersWire(hs)| >= 8 * |hs|
    decreases |hs|
  {
    if hs != [] {
      HeadersAtLeast(hs[1..]);
    }
  }

  lemma CapacitySuffices(total: nat, off: nat, n: nat)
    requires total <= 9 + MAX_UINT32 && off + 8 * n <= total
    ensures n <= HeaderCapacity(total, off)
  {
  }

  lemma HeaderListExact(data: seq<byte>, total: nat, off: nat, hs: Option<seq<Header>>, next: nat)
    requires off <= next <= total <= |data| && total <= 9 + MAX_UINT32
    ensures ParseHeaderList(data, total, off) == Done(hs, next) <==>
            HeadersFit(hs) && Spells(data, off, next, HeaderListWire(hs))
  {
    var list := Contents(hs);
    assert HeadersWire([]) == [];
    assert |list| <= MAX_UINT32 ==> ToUint32(|list|) == |list|;
    hide Put32, Get32, ToUint32, HeadersWire, ParseHeaders, HeaderFits, HeaderCapacity;
    SpellsTwo(data, off, next, Put32(ToUint32(|list|)), HeadersWire(list));
    if off + 4 <= next {
      Slice32(data, off, ToUint32(|list|));
      HeadersExact(data, total, off + 4, list, next);
      HeadersAtLeast(list);
      if off + 4 + 8 * |list| <= total {
        CapacitySuffices(total, off + 4, |list|);
      }
    }
  }

  /** The two fixed-width fields that open a record. */
  lemma DeltasExact(data: seq<byte>, off: nat, base: uint64, maxTs: int64, r: StoredRecord)
    requires off + 12 <= |data|
    ensures var age := Get64(data[off + 4..off + 12]);
            && r.offset == ToUint64(base + Get32(data[off..off + 4]))
            && ToInt64(age) >= 0 && r.timestamp == ToInt64(maxTs - ToInt64(age))
            <==>
            && ToUint64(r.offset - base) <= MAX_UINT32 && ToInt64(maxTs - r.timestamp) >= 0
            && Spells(data, off, off + 12, Put32(ToUint32(r.offset - base)) + Put64(ToUint64(maxTs - r.timestamp)))
  {
    hide Put32, Get32, Put64, Get64, ToUint32, ToUint64, ToInt64;
    var (delta, age) := (ToUint32(r.offset - base), ToUint64(maxTs - r.timestamp));
    SpellsTwo(data, off, off + 12, Put32(delta), Put64(age));
    Slice32(data, off, delta);
    Slice64(data, off + 4, age);
    DeltaExact(base, Get32(data[off..off + 4]), r.offset);
    AgeExact(maxTs, Get64(data[off + 4..off + 12]), r.timestamp);
  }

  lemma RecordSplit(data: seq<byte>, off: nat, next: nat, base: uint64, maxTs: int64, r: StoredRecord)
    requires off <= next <= |data|
    ensures
      var at1 := off + 12 + |FieldWire(r.key)|;
      var at2 := at1 + |FieldWire(r.value)|;
      Spells(data, off, next, RecordWire(base, maxTs, r)) <==>
      && at2 <= next
      && Spells(data, off, off + 12, Put32(ToUint32(r.offset - base)) + Put64(ToUint64(maxTs - r.timestamp)))
      && Spells(data, off + 12, at1, FieldWire(r.key))
      && Spells(data, at1, at2, FieldWire(r.value))
      && Spells(data, at2, next, HeaderListWire(r.headers))
  {
    hide Put32, Get32, Put64, Get64, ToUint32, ToUint64, ToInt64, FieldWire, HeaderListWire, Spells;
    var fixed := Put32(ToUint32(r.offset - base)) + Put64(ToUint64(maxTs - r.timestamp));
    var (k, v) := (FieldWire(r.key), FieldWire(r.value));
    SpellsTwo(data, off, next, fixed + k + v, HeaderListWire(r.headers));
    if off + 12 + |k| + |v| <= next {
      SpellsTwo(data, off, off + 12 + |k| + |v|, fixed + k, v);
      SpellsTwo(data, off, off + 12 + |k|, fixed, k);
    }
  }

  lemma RecordSound(data: seq<byte>, total: nat, off: nat, base: uint64, maxTs: int64, r: StoredRecord, next: nat)
    requires off <= next <= total <= |data| && total <= 9 + MAX_UINT32
    requires ParseRecord(data, total, off, base, maxTs) == Done(r, next)
    ensures RecordFits(base, maxTs, r) && Spells(data, off, next, RecordWire(base, maxTs, r))
  {
    hide Put32, Get32, Put64, Get64, ToUint32, ToUint64, ToInt64, FieldWire, HeaderListWire, RecordWire,
         FieldFits, HeadersFit, ParseField, ParseHeaderList, Spells;
    var at1 := ParseField(data, total, off + 12).next;
    var at2 := ParseField(data, total, at1).next;
    DeltasExact(data, off, base, maxTs, r);
    FieldExact(data, total, off + 12, r.key, at1);
    FieldExact(data, total, at1, r.value, at2);
    HeaderListExact(data, total, at2, r.headers, next);
    SpellsBytes(data, off + 12, at1, FieldWire(r.key));
    SpellsBytes(data, at1, at2, FieldWire(r.value));
    RecordSplit(data, off, next, base, maxTs, r);
  }

  lemma RecordComplete(data: seq<byte>, total: nat, off: nat, base: uint64, maxTs: int64, r: StoredRecord, next: nat)
    requires off <= next <= total <= |data| && total <= 9 + MAX_UINT32
    requires RecordFits(base, maxTs, r) && Spells(data, off, next, RecordWire(base, maxTs, r))
    ensures ParseRecord(data, total, off, base, maxTs) == Done(r, next)
  {
    hide Put32, Get32, Put64, Get64, ToUint32, ToUint64, ToInt64, FieldWire, HeaderListWire, RecordWire,
         FieldFits, HeadersFit, ParseField, ParseHeaderList, Spells;
    RecordSplit(data, off, next, base, maxTs, r);
    var at1 := off + 12 + |FieldWire(r.key)|;
    var at2 := at1 + |FieldWire(r.value)|;
    DeltasExact(data, off, base, maxTs, r);
    FieldExact(data, total, off + 12, r.key, at1);
    FieldExact(data, total, at1, r.value, at2);
    HeaderListExact(data, total, at2, r.headers, next);
  }

  lemma {:induction false} RecordsSound(data: seq<byte>, total: nat, off: nat, base: uint64, maxTs: int64,
                                        rs: seq<StoredRecord>, next: nat)
    requires off <= next <= total <= |data| && total <= 9 + MAX_UINT32
    requires ParseRecords(data, total, off, base, maxTs, |rs|) == Done(rs, next)
    ensures (forall r <- rs :: RecordFits(base, maxTs, r)) && Spells(data, off, next, RecordsWire(base, maxTs, rs))
    decreases |rs|
  {
    hide RecordWire, RecordFits, ParseRecord;
    if rs != [] {
      var mid := ParseRecord(data, total, off, base, maxTs).next;
      assert rs == [rs[0]] + rs[1..];
      RecordsSound(data, total, mid, base, maxTs, rs[1..], next);
      RecordSound(data, total, off, base, maxTs, rs[0], mid);
      SpellsBytes(data, off, mid, RecordWire(base, maxTs, rs[0]));
      SpellsTwo(data, off, next, RecordWire(base, maxTs, rs[0]), RecordsWire(base, maxTs, rs[1..]));
    }
  }

  lemma {:induction false} RecordsComplete(data: seq<byte>, total: nat, off: nat, base: uint64, maxTs: int64,
                                           rs: seq<StoredRecord>, next: nat)
    requires off <= next <= total <= |data| && total <= 9 + MAX_UINT32
    requires (forall r <- rs :: RecordFits(base, maxTs, r)) && Spells(data, off, next, RecordsWire(base, maxTs, rs))
    ensures ParseRecords(data, total, off, base, maxTs, |rs|) == Done(rs, next)
    decreases |rs|
  {
    hide RecordWire, RecordFits, ParseRecord;
    if rs != [] {
      var mid := off + |RecordWire(base, maxTs, rs[0])|;
      assert rs == [rs[0]] + rs[1..];
      SpellsTwo(data, off, next, RecordWire(base, maxTs, rs[0]), RecordsWire(base, maxTs, rs[1..]));
      RecordComplete(data, total, off, base, maxTs, rs[0], mid);
      RecordsComplete(data, total, mid, base, maxTs, rs[1..], next);
    }
  }

  lemma SpellsLong(data: seq<byte>, off: nat, v: uint64)
    requires off + 8 <= |data|
    ensures Spells(data, off, off + 8, Put64(v)) <==> Get64(data[off..off + 8]) == v
  {
    hide Put64, Get64;
    Slice64(data, off, v);
  }

  /** The five parts of a framed batch, by position. */
  lemma FrameExact(data: seq<byte>, total: nat, body: seq<byte>, checksum: uint32)
    requires 13 <= total <= |data|
    ensures Spells(data, 0, total, Frame(body, checksum)) <==>
            && data[..4] == MAGIC && data[4] == VERSION
            && HeaderLength(data) == ToUint32(|body| + 4)
            && Get32(data[9..13]) == checksum && Spells(data, 13, total, body)
  {
    hide Put32, Get32, ToUint32, Spells;
    SpellsBytes(data, 0, 4, MAGIC);
    SpellsBytes(data, 4, 5, [VERSION]);
    var (length, word) := (Put32(ToUint32(|body| + 4)), Put32(checksum));
    SpellsTwo(data, 0, total, MAGIC + [VERSION] + length + word, body);
    SpellsTwo(data, 0, 13, MAGIC + [VERSION] + length, word);
    SpellsTwo(data, 0, 9, MAGIC + [VERSION], length);
    SpellsTwo(data, 0, 5, MAGIC, [VERSION]);
    SpellsWord(data, 5, ToUint32(|body| + 4));
    SpellsWord(data, 9, checksum);
    assert data[4..5] == [data[4]];
  }

  /** The four parts of a batch body, by position. */
  lemma BodyExact(data: seq<byte>, total: nat, base: uint64, maxTs: int64, rs: seq<StoredRecord>)
    requires BATCH_HEADER_SIZE <= total <= |data|
    ensures Spells(data, 13, total, Body(base, maxTs, rs)) <==>
            && HeaderBase(data) == base && Get32(data[21..25]) == ToUint32(|rs|)
            && HeaderTimestamp(data) == maxTs && Spells(data, 33, total, RecordsWire(base, maxTs, rs))
  {
    hide Put32, Get32, Put64, Get64, ToUint32, ToUint64, ToInt64, RecordsWire, Spells;
    SignExact(maxTs, Get64(data[25..33]));
    var (b, n, t) := (Put64(base), Put32(ToUint32(|rs|)), Put64(ToUint64(maxTs)));
    SpellsTwo(data, 13, total, b + n + t, RecordsWire(base, maxTs, rs));
    SpellsTwo(data, 13, 33, b + n, t);
    SpellsTwo(data, 13, 25, b, n);
    SpellsLong(data, 13, base);
    SpellsWord(data, 21, ToUint32(|rs|));
    SpellsLong(data, 25, ToUint64(maxTs));
  }

  /** The data begins with the bytes of these records under these header fields, and the format can carry them. */
  predicate Accepts(data: seq<byte>, base: uint64, maxTs: int64, rs: seq<StoredRecord>) {
    BatchFits(base, maxTs, rs) && BatchWire(base, maxTs, rs) <= data
  }

  /** The length field of a batch that fits is its size after that field. */
  lemma LengthExact(base: uint64, maxTs: int64, rs: seq<StoredRecord>)
    requires |Body(base, maxTs, rs)| + 4 <= MAX_UINT32
    ensures ToUint32(|Body(base, maxTs, rs)| + 4) == |Body(base, maxTs, rs)| + 4
    ensures |BatchWire(base, maxTs, rs)| == |Body(base, maxTs, rs)| + 13
    ensures |Body(base, maxTs, rs)| == 20 + |RecordsWire(base, maxTs, rs)|
    ensures ToUint32(|rs|) == |rs|
    ensures |rs| <= ToUint32(TruncDiv(|Body(base, maxTs, rs)| + 4 - 20, MINIMUM_RECORD_SIZE))
  {
    hide Put32, Put64, Crc32, RecordsWire;
    RecordsAtLeast(base, maxTs, rs);
  }

  /** Whatever non-empty batch the decoder accepts is what the data spells, with the data's own header fields. */
  lemma DecodeSound(data: seq<byte>)
    requires var d := Decode(data); d.Records? && d.records != []
    ensures Accepts(data, HeaderBase(data), HeaderTimestamp(data), Decode(data).records)
    ensures |BatchWire(HeaderBase(data), HeaderTimestamp(data), Decode(data).records)| == 9 + HeaderLength(data)
  {
    hide Put32, Get32, Put64, Get64, Crc32, Body, RecordsWire, Frame, RecordFits, ParseRecords, Spells, TruncDiv,
         HeaderBase, HeaderTimestamp, ToInt64;
    var (base, maxTs, rs, total) :=
      (HeaderBase(data), HeaderTimestamp(data), Decode(data).records, 9 + HeaderLength(data));
    var body := Body(base, maxTs, rs);
    RecordsSound(data, total, 33, base, maxTs, rs, total);
    BodyExact(data, total, base, maxTs, rs);
    SpellsBytes(data, 13, total, body);
    LengthExact(base, maxTs, rs);
    FrameExact(data, total, body, Crc32(body));
    SpellsBytes(data, 0, total, Frame(body, Crc32(body)));
  }

  /** The decoder accepts every batch the format can carry, and gives its records back. */
  lemma DecodeComplete(data: seq<byte>, base: uint64, maxTs: int64, rs: seq<StoredRecord>)
    requires rs != [] && Accepts(data, base, maxTs, rs)
    ensures Decode(data) == Records(rs)
    ensures HeaderBase(data) == base && HeaderTimestamp(data) == maxTs
    ensures 9 + HeaderLength(data) == |BatchWire(base, maxTs, rs)|
  {
    hide Put32, Get32, Put64, Get64, ToUint32, Crc32, Body, RecordsWire, Frame, RecordFits, ParseRecords, Spells,
         TruncDiv, HeaderBase, HeaderTimestamp, HeaderLength, ToInt64;
    var body := Body(base, maxTs, rs);
    var total := 13 + |body|;
    LengthExact(base, maxTs, rs);
    SpellsBytes(data, 0, total, Frame(body, Crc32(body)));
    FrameExact(data, total, body, Crc32(body));
    BodyExact(data, total, base, maxTs, rs);
    SpellsBytes(data, 13, total, body);
    RecordsComplete(data, total, 33, base, maxTs, rs, total);
  }

  lemma {:induction false} RecordsAtLeast(base: uint64, maxTs: int64, rs: seq<StoredRecord>)
    ensures |RecordsWire(base, maxTs, rs)| >= 24 * |rs|
    decreases |rs|
  {
    hide Put32, Put64;
    if rs != [] {
      RecordsAtLeast(base, maxTs, rs[1..]);
    }
  }
}
