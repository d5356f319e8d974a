/** The entry format of the consumer offset log (internal/offsets/store.go), as a grammar and as the
    checking parser of its recovery. The entry length is 32 plus the two names, as the code has it;
    docs/storage_format.md says 28. */
module OffsetFormat {
  import opened Bytes
  import opened Checksum
  import opened Format
  import opened FormatProofs
  import opened Utf8

  datatype Entry = Entry(group: seq<byte>, topic: seq<byte>, partition: uint32, next: uint64, timestamp: uint64)

  const OFFSET_MAGIC: seq<byte> := [0x4F, 0x46, 0x46, 0x53]
  const MIN_REMAINDER := 32
  const MAX_NAME := 255
  const MAX_ENTRY := 1024

  predicate ValidName(s: seq<byte>) { 0 < |s| <= MAX_NAME && ValidString(s) }

  predicate ValidEntry(e: Entry) { ValidName(e.group) && ValidName(e.topic) }

  function Names(e: Entry): seq<byte> {
    Put32(ToUint32(|e.group|)) + e.group + Put32(ToUint32(|e.topic|)) + e.topic
  }

  function Numbers(e: Entry): (s: seq<byte>)
    ensures |s| == 20
  {
    Put32(e.partition) + Put64(e.next) + Put64(e.timestamp)
  }

  function Payload(e: Entry): seq<byte> { Names(e) + Numbers(e) }

  function EntryWire(e: Entry): seq<byte> {
    OFFSET_MAGIC + [1] + Put32(ToUint32(|Payload(e)| + 4)) + Put32(Crc32(Payload(e))) + Payload(e)
  }

  /** Every entry Commit writes is within the limits recovery checks. */
  lemma EntrySize(e: Entry)
    requires ValidEntry(e)
    ensures |Payload(e)| == 28 + |e.group| + |e.topic|
    ensures |EntryWire(e)| == 13 + |Payload(e)| && ToUint32(|Payload(e)| + 4) == |Payload(e)| + 4
    ensures MIN_REMAINDER <= |Payload(e)| + 4 <= 542 < MAX_ENTRY
  {
    hide Put32, Put64, Crc32, ValidString;
  }

  // ---------------------------------------------------------------- the parser

  /** A name with its length, from a position in the payload. */
  datatype Name = Named(name: seq<byte>, next: nat) | BadName

  function ParseName(payload: seq<byte>, cursor: nat): (n: Name)
    requires cursor <= |payload|
    ensures n.Named? ==> cursor + 4 <= n.next <= |payload|
  {
    if |payload| - cursor < 4 then BadName else
      var length := Get32(payload[cursor..cursor + 4]);
      var at := cursor + 4;
      if length == 0 || length > MAX_NAME then BadName
      else if length > |payload| - at then BadName
      else if !ValidString(payload[at..at + length]) then BadName
      else Named(payload[at..at + length], at + length)
  }

  datatype FoundEntry = Good(entry: Entry, size: nat) | Torn | Corrupt

  function ParsePayload(payload: seq<byte>): Option<Entry> {
    var g := ParseName(payload, 0);
    if g.BadName? then None else
      var t := ParseName(payload, g.next);
      if t.BadName? then None
      else if |payload| + 4 != MIN_REMAINDER + |g.name| + |t.name| then None
      else if |payload| - t.next != 20 then None
      else
        var at := t.next;
        Some(Entry(g.name, t.name, Get32(payload[at..at + 4]), Get64(payload[at + 4..at + 12]),
                   Get64(payload[at + 12..at + 20])))
  }

  /** The entry at a position: the checks of the recovery loop, in its order. */
  function ParseEntry(bytes: seq<byte>, pos: nat): (p: FoundEntry)
    requires pos < |bytes|
    ensures p.Good? ==> p.size > 0 && pos + p.size <= |bytes|
  {
    if |bytes| - pos < 9 then Torn else
      var head := bytes[pos..pos + 9];
      var length := Get32(head[5..9]);
      if head[..4] != OFFSET_MAGIC || head[4] != 1 then Corrupt
      else if length < MIN_REMAINDER || length > MAX_ENTRY then Corrupt
      else if pos + 9 + length > |bytes| then Torn
      else
        var frame := bytes[pos + 9..pos + 9 + length];
        if Get32(frame[..4]) != Crc32(frame[4..]) then Corrupt
        else
          match ParsePayload(frame[4..])
          case Some(e) => Good(e, 9 + length)
          case None => Corrupt
  }

  // ---------------------------------------------------------------- exactness

  lemma NameExact(payload: seq<byte>, cursor: nat, name: seq<byte>, next: nat)
    requires cursor <= next <= |payload|
    ensures ParseName(payload, cursor) == Named(name, next) <==>
            ValidName(name) && Spells(payload, cursor, next, Put32(ToUint32(|name|)) + name)
  {
    hide Put32, Get32, ValidString;
    SpellsTwo(payload, cursor, next, Put32(ToUint32(|name|)), name);
    if cursor + 4 <= next {
      SpellsWord(payload, cursor, ToUint32(|name|));
    }
  }

  lemma PayloadSound(payload: seq<byte>, e: Entry)
    requires ParsePayload(payload) == Some(e)
    ensures ValidEntry(e) && payload == Payload(e)
  {
    hide Put32, Get32, Put64, Get64, ValidName, ParseName, Spells, ToUint32;
    var g := ParseName(payload, 0);
    var t := ParseName(payload, g.next);
    NameExact(payload, 0, g.name, g.next);
    NameExact(payload, g.next, t.name, t.next);
    SpellsBytes(payload, 0, g.next, Put32(ToUint32(|g.name|)) + g.name);
    SpellsBytes(payload, g.next, t.next, Put32(ToUint32(|t.name|)) + t.name);
    NumbersExact(payload, t.next, e);
    PayloadSplit(payload, g.next, t.next, e);
  }

  lemma PayloadComplete(e: Entry)
    requires ValidEntry(e)
    ensures ParsePayload(Payload(e)) == Some(e)
  {
    hide Put32, Get32, Put64, Get64, ValidName, ParseName, Spells, ToUint32, Payload, EntryWire, Crc32;
    EntrySize(e);
    var payload := Payload(e);
    var (g, t) := (4 + |e.group|, 8 + |e.group| + |e.topic|);
    SpellsBytes(payload, 0, |payload|, payload);
    assert payload[0..|payload|] == payload;
    PayloadSplit(payload, g, t, e);
    NameExact(payload, 0, e.group, g);
    NameExact(payload, g, e.topic, t);
    NumbersExact(payload, t, e);
  }

  /** The three parts of a payload, by position. */
  lemma PayloadSplit(payload: seq<byte>, g: nat, t: nat, e: Entry)
    requires g <= t && |payload| == t + 20
    requires |e.group| + 4 == g && |e.topic| + 4 == t - g
    ensures payload == Payload(e) <==>
            && Spells(payload, 0, g, Put32(ToUint32(|e.group|)) + e.group)
            && Spells(payload, g, t, Put32(ToUint32(|e.topic|)) + e.topic)
            && Spells(payload, t, t + 20, Numbers(e))
  {
    hide Put32, Put64, ToUint32, Numbers, Spells;
    var (a, b) := (Put32(ToUint32(|e.group|)) + e.group, Put32(ToUint32(|e.topic|)) + e.topic);
    assert Names(e) == a + b;
    assert payload[0..|payload|] == payload;
    SpellsBytes(payload, 0, |payload|, Payload(e));
    SpellsTwo(payload, 0, |payload|, a + b, Numbers(e));
    SpellsTwo(payload, 0, t, a, b);
  }

  lemma NumbersExact(payload: seq<byte>, at: nat, e: Entry)
    requires at + 20 == |payload|
    ensures Spells(payload, at, at + 20, Numbers(e)) <==>
            && Get32(payload[at..at + 4]) == e.partition && Get64(payload[at + 4..at + 12]) == e.next
            && Get64(payload[at + 12..at + 20]) == e.timestamp
  {
    hide Put32, Get32, Put64, Get64, Spells;
    SpellsTwo(payload, at, at + 20, Put32(e.partition) + Put64(e.next), Put64(e.timestamp));
    SpellsTwo(payload, at, at + 12, Put32(e.partition), Put64(e.next));
    SpellsWord(payload, at, e.partition);
    SpellsLong(payload, at + 4, e.next);
    SpellsLong(payload, at + 12, e.timestamp);
  }

  /** What the parser accepts is exactly an entry's encoding. */
  lemma EntrySound(bytes: seq<byte>, pos: nat)
    requires pos < |bytes| && ParseEntry(bytes, pos).Good?
    ensures var p := ParseEntry(bytes, pos);
            ValidEntry(p.entry) && p.size == |EntryWire(p.entry)| && bytes[pos..pos + p.size] == EntryWire(p.entry)
  {
    hide Put32, Get32, Put64, Get64, Crc32, ValidEntry, ParsePayload, Payload, Spells, ToUint32;
    var p := ParseEntry(bytes, pos);
    var e := p.entry;
    var data := bytes[pos..pos + p.size];
    var payload := data[13..];
    assert bytes[pos + 9..pos + p.size][4..] == payload;
    PayloadSound(payload, e);
    EntrySize(e);
    EntryFrame(data, e);
    assert bytes[pos..pos + 9] == data[..9];
    assert bytes[pos + 9..pos + p.size][..4] == data[9..13];
  }

  /** The five parts of an entry, by position. */
  lemma EntryFrame(data: seq<byte>, e: Entry)
    requires |data| == 13 + |Payload(e)|
    ensures data == EntryWire(e) <==>
            && data[..9][..4] == OFFSET_MAGIC && data[..9][4] == 1
            && Get32(data[..9][5..9]) == ToUint32(|Payload(e)| + 4)
            && Get32(data[9..13]) == Crc32(Payload(e)) && data[13..] == Payload(e)
  {
    hide Put32, Get32, Crc32, Payload, Spells, ToUint32;
    var (n, length, word) := (|data|, Put32(ToUint32(|Payload(e)| + 4)), Put32(Crc32(Payload(e))));
    assert data[0..n] == data && data[13..n] == data[13..];
    assert data[..9][..4] == data[0..4] && data[..9][5..9] == data[5..9] && data[4..5] == [data[4]];
    SpellsBytes(data, 0, n, EntryWire(e));
    SpellsBytes(data, 13, n, Payload(e));
    SpellsBytes(data, 0, 4, OFFSET_MAGIC);
    SpellsBytes(data, 4, 5, [1]);
    SpellsTwo(data, 0, n, OFFSET_MAGIC + [1] + length + word, Payload(e));
    SpellsTwo(data, 0, 13, OFFSET_MAGIC + [1] + length, word);
    SpellsTwo(data, 0, 9, OFFSET_MAGIC + [1], length);
    SpellsTwo(data, 0, 5, OFFSET_MAGIC, [1]);
    SpellsWord(data, 5, ToUint32(|Payload(e)| + 4));
    SpellsWord(data, 9, Crc32(Payload(e)));
  }

  /** Every entry Commit writes is accepted and read back. */
  lemma EntryComplete(bytes: seq<byte>, pos: nat, e: Entry)
    requires ValidEntry(e) && pos + |EntryWire(e)| <= |bytes| && bytes[pos..pos + |EntryWire(e)|] == EntryWire(e)
    ensures |EntryWire(e)| > 0 && ParseEntry(bytes, pos) == Good(e, |EntryWire(e)|)
  {
    hide Put32, Get32, Put64, Get64, Crc32, ValidEntry, ParsePayload, Payload, EntryWire, ToUint32;
    EntrySize(e);
    PayloadComplete(e);
    var data := EntryWire(e);
    EntryFrame(data, e);
    var end := pos + |data|;
    assert bytes[pos..pos + 9] == data[..9];
    assert bytes[pos + 9..end] == data[9..];
    assert data[9..][..4] == data[9..13] && data[9..][4..] == data[13..];
  }

  /** An entry cut short is a torn tail, however short. */
  lemma EntryTorn(bytes: seq<byte>, pos: nat, e: Entry)
    requires ValidEntry(e) && pos < |bytes| < pos + |EntryWire(e)| && bytes[pos..] == EntryWire(e)[..|bytes| - pos]
    ensures ParseEntry(bytes, pos) == Torn
  {
    hide Put32, Get32, Put64, Get64, Crc32, ValidEntry, ParsePayload, Payload, EntryWire, ToUint32;
    EntrySize(e);
    var data := EntryWire(e);
    EntryFrame(data, e);
    if |bytes| - pos >= 9 {
      assert bytes[pos..pos + 9] == bytes[pos..][..9] == data[..9];
    }
  }
}
