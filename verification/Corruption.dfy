/** What the checksum detects: a batch or an offset entry in which one byte was changed is never taken for another. */
module Corruption {
  import opened Bytes
  import opened Checksum
  import opened Format
  import opened Batches
  import opened Recovery
  import opened OffsetFormat

  // ---------------------------------------------------------------------- bits

  predicate Within(x: bv32, mask: bv32) { x & mask == x }

  predicate Odd(x: bv32) { x & 1 == 1 }

  function Half(x: bv32): bv32 { x >> 1 }

  /** A word within a mask, and one bit more. */
  lemma OneBitMore(x: bv32, mask: bv32, odd: bool)
    requires Within(x, mask) && Within(mask, 0x7FFF_FFFF)
    ensures Within(WithBit(x, odd), WithBit(mask, true))
    ensures Odd(WithBit(x, odd)) == odd && Half(WithBit(x, odd)) == x
  {
  }

  function Power(n: nat): nat { if n == 0 then 1 else 2 * Power(n - 1) }

  function Ones(n: nat): bv32 { if n == 0 then 0 else WithBit(Ones(n - 1), true) }

  lemma OnesSmall(n: nat)
    requires n <= 8
    ensures Within(Ones(n), 0x7FFF_FFFF)
  {
    assert Ones(0) == 0 && Ones(1) == 1 && Ones(2) == 3 && Ones(3) == 7 && Ones(4) == 15;
    assert Ones(5) == 31 && Ones(6) == 63 && Ones(7) == 127 && Ones(8) == 255;
  }

  lemma NoneWithin(mask: bv32)
    ensures Within(0, mask) && !Odd(0) && Half(0) == 0
  {
  }

  lemma {:induction false} BitsWithin(b: nat, n: nat)
    requires b < Power(n) && n <= 8
    ensures Within(Bits(b), Ones(n))
    decreases n
  {
    hide WithBit, Within, Odd, Half;
    if b == 0 {
      NoneWithin(Ones(n));
    } else {
      OnesSmall(n - 1);
      BitsWithin(b / 2, n - 1);
      OneBitMore(Bits(b / 2), Ones(n - 1), b % 2 == 1);
    }
  }

  /** The last bit, and the bits before it. */
  lemma BitsSplit(b: nat)
    requires b < 0x100
    ensures Odd(Bits(b)) == (b % 2 == 1) && Half(Bits(b)) == Bits(b / 2)
  {
    hide WithBit, Within, Odd, Half, Ones;
    NoneWithin(0);
    if b > 0 {
      assert Power(8) == 0x100;
      BitsWithin(b / 2, 8);
      OnesSmall(8);
      OneBitMore(Bits(b / 2), Ones(8), b % 2 == 1);
    }
  }

  lemma {:induction false} BitsInjective(a: nat, b: nat)
    requires a < 0x100 && b < 0x100 && Bits(a) == Bits(b)
    ensures a == b
    decreases a + b
  {
    hide Bits, Odd, Half;
    if a > 0 || b > 0 {
      BitsSplit(a);
      BitsSplit(b);
      BitsInjective(a / 2, b / 2);
    }
  }

  // ------------------------------------------------------------------- the checksum

  /** The highest bit of the polynomial tells which way a step went. */
  lemma ShiftOneInjective(a: bv32, b: bv32)
    requires ShiftOne(a) == ShiftOne(b)
    ensures a == b
  {
  }

  lemma {:induction false} ShiftInjective(a: bv32, b: bv32, bits: nat)
    requires Shift(a, bits) == Shift(b, bits)
    ensures a == b
    decreases bits
  {
    hide ShiftOne;
    if bits > 0 {
      ShiftInjective(ShiftOne(a), ShiftOne(b), bits - 1);
      ShiftOneInjective(a, b);
    }
  }

  lemma XorInjective(a: bv32, b: bv32, x: bv32)
    requires Xor(a, x) == Xor(b, x) || Xor(x, a) == Xor(x, b)
    ensures a == b
  {
  }

  lemma AbsorbInjective(a: bv32, b: bv32, d: byte)
    requires Absorb(a, d) == Absorb(b, d)
    ensures a == b
  {
    hide Shift, Bits, Xor;
    ShiftInjective(Xor(a, Bits(d)), Xor(b, Bits(d)), 8);
    XorInjective(a, b, Bits(d));
  }

  lemma AbsorbDiffers(crc: bv32, c: byte, d: byte)
    requires Absorb(crc, c) == Absorb(crc, d)
    ensures c == d
  {
    hide Shift, Bits, Xor;
    ShiftInjective(Xor(crc, Bits(c)), Xor(crc, Bits(d)), 8);
    XorInjective(Bits(c), Bits(d), crc);
    BitsInjective(c, d);
  }

  lemma {:induction false} UpdateInjective(a: bv32, b: bv32, data: seq<byte>)
    requires Update(a, data) == Update(b, data)
    ensures a == b
    decreases |data|
  {
    hide Absorb;
    if data != [] {
      UpdateInjective(Absorb(a, data[0]), Absorb(b, data[0]), data[1..]);
      AbsorbInjective(a, b, data[0]);
    }
  }

  /** The same bytes except for one. */
  ghost predicate OneByteOff(s: seq<byte>, t: seq<byte>, i: nat) {
    |s| == |t| && i < |s| && s[i] != t[i] && s[..i] == t[..i] && s[i + 1..] == t[i + 1..]
  }

  lemma OneByteOffTail(s: seq<byte>, t: seq<byte>, i: nat)
    requires OneByteOff(s, t, i) && i > 0
    ensures s[0] == t[0] && OneByteOff(s[1..], t[1..], i - 1)
  {
    assert s[..i][0] == t[..i][0];
    assert s[1..][..i - 1] == s[..i][1..] && t[1..][..i - 1] == t[..i][1..];
  }

  lemma {:induction false} UpdateDiffers(crc: bv32, s: seq<byte>, t: seq<byte>, i: nat)
    requires OneByteOff(s, t, i)
    ensures Update(crc, s) != Update(crc, t)
    decreases |s|
  {
    hide Absorb;
    if i > 0 {
      OneByteOffTail(s, t, i);
      UpdateDiffers(Absorb(crc, s[0]), s[1..], t[1..], i - 1);
    } else if Update(crc, s) == Update(crc, t) {
      UpdateInjective(Absorb(crc, s[0]), Absorb(crc, t[0]), s[1..]);
      AbsorbDiffers(crc, s[0], t[0]);
    }
  }

  lemma InvertedInjective(a: bv32, b: bv32)
    requires Inverted(a) == Inverted(b)
    ensures a == b
  {
    hide Xor;
    SameWord(Xor(a, 0xFFFF_FFFF), Xor(b, 0xFFFF_FFFF));
    XorInjective(a, b, 0xFFFF_FFFF);
  }

  lemma SameWord(a: bv32, b: bv32)
    requires a as int == b as int
    ensures a == b
  {
    assert (a as int) as bv32 == a && (b as int) as bv32 == b;
  }

  /** No change of one byte leaves the checksum alone. */
  lemma CrcDiffers(s: seq<byte>, t: seq<byte>, i: nat)
    requires OneByteOff(s, t, i)
    ensures Crc32(s) != Crc32(t)
  {
    hide Update, Inverted, OneByteOff;
    UpdateDiffers(0xFFFF_FFFF, s, t, i);
    if Crc32(s) == Crc32(t) {
      InvertedInjective(Update(0xFFFF_FFFF, s), Update(0xFFFF_FFFF, t));
    }
  }

  // --------------------------------------------------------------- the check value

  function ShiftFour(crc: bv32): bv32 { ShiftOne(ShiftOne(ShiftOne(ShiftOne(crc)))) }

  lemma ShiftEight(crc: bv32)
    ensures Shift(crc, 8) == ShiftFour(ShiftFour(crc))
  {
    hide ShiftOne;
    var (four, six) := (ShiftFour(crc), ShiftOne(ShiftOne(ShiftFour(crc))));
    assert Shift(crc, 8) == Shift(ShiftOne(ShiftOne(crc)), 6) == Shift(four, 4);
    assert Shift(four, 4) == Shift(six, 2) == Shift(ShiftOne(ShiftOne(six)), 0);
  }

  lemma Digest(crc: bv32, d: byte, bits: bv32, next: bv32)
    requires Bits(d) == bits && ShiftFour(ShiftFour(Xor(crc, bits))) == next
    ensures Absorb(crc, d) == next
  {
    hide Shift, Bits, Xor, ShiftFour;
    ShiftEight(Xor(crc, bits));
  }

  lemma FirstDigits()
    ensures Absorb(0xFFFF_FFFF, 0x31) == 0x7C23_1048
    ensures Absorb(0x7C23_1048, 0x32) == 0xB0AC_BB32
    ensures Absorb(0xB0AC_BB32, 0x33) == 0x77B7_9C2D
  {
    hide Absorb;
    Digest(0xFFFF_FFFF, 0x31, 0x31, 0x7C23_1048);
    Digest(0x7C23_1048, 0x32, 0x32, 0xB0AC_BB32);
    Digest(0xB0AC_BB32, 0x33, 0x33, 0x77B7_9C2D);
  }

  lemma MiddleDigits()
    ensures Absorb(0x77B7_9C2D, 0x34) == 0x641C_1F5C
    ensures Absorb(0x641C_1F5C, 0x35) == 0x340A_C5E3
    ensures Absorb(0x340A_C5E3, 0x36) == 0xF68D_2C9E
  {
    hide Absorb;
    Digest(0x77B7_9C2D, 0x34, 0x34, 0x641C_1F5C);
    Digest(0x641C_1F5C, 0x35, 0x35, 0x340A_C5E3);
    Digest(0x340A_C5E3, 0x36, 0x36, 0xF68D_2C9E);
  }

  lemma LastDigits()
    ensures Absorb(0xF68D_2C9E, 0x37) == 0xAFFC_9660
    ensures Absorb(0xAFFC_9660, 0x38) == 0x651F_2550
    ensures Absorb(0x651F_2550, 0x39) == 0x340B_C6D9
  {
    hide Absorb;
    Digest(0xF68D_2C9E, 0x37, 0x37, 0xAFFC_9660);
    Digest(0xAFFC_9660, 0x38, 0x38, 0x651F_2550);
    Digest(0x651F_2550, 0x39, 0x39, 0x340B_C6D9);
  }

  lemma UpdateThree(crc: bv32, a: byte, b: byte, c: byte, rest: seq<byte>)
    ensures Update(crc, [a, b, c] + rest) == Update(Absorb(Absorb(Absorb(crc, a), b), c), rest)
  {
    hide Absorb;
    var (one, two) := (Absorb(crc, a), Absorb(Absorb(crc, a), b));
    assert ([a, b, c] + rest)[1..] == [b, c] + rest && ([b, c] + rest)[1..] == [c] + rest && ([c] + rest)[1..] == rest;
    assert Update(crc, [a, b, c] + rest) == Update(one, [b, c] + rest) == Update(two, [c] + rest);
    assert Update(two, [c] + rest) == Update(Absorb(two, c), rest);
  }

  /** The check value of this CRC: that of the nine digits. */
  lemma CheckValue()
    ensures Crc32([0x31, 0x32, 0x33, 0x34, 0x35, 0x36, 0x37, 0x38, 0x39]) == 0xCBF4_3926
  {
    hide Absorb;
    var (middle, last) := ([0x34, 0x35, 0x36, 0x37, 0x38, 0x39], [0x37, 0x38, 0x39]);
    UpdateThree(0xFFFF_FFFF, 0x31, 0x32, 0x33, middle);
    UpdateThree(0x77B7_9C2D, 0x34, 0x35, 0x36, last);
    UpdateThree(0xF68D_2C9E, 0x37, 0x38, 0x39, []);
    FirstDigits();
    MiddleDigits();
    LastDigits();
    assert [0x31, 0x32, 0x33, 0x34, 0x35, 0x36, 0x37, 0x38, 0x39] == [0x31, 0x32, 0x33] + middle;
    assert middle == [0x34, 0x35, 0x36] + last && last == [0x37, 0x38, 0x39] + [];
    assert Inverted(0x340B_C6D9) == 0xCBF4_3926;
  }

  // ------------------------------------------------------------------------ batches

  lemma OneByteOffParts(s: seq<byte>, t: seq<byte>, i: nat, from: nat, to: nat)
    requires OneByteOff(s, t, i) && from <= to <= |s|
    ensures if from <= i < to then OneByteOff(s[from..to], t[from..to], i - from) else s[from..to] == t[from..to]
  {
    var (a, b) := (s[from..to], t[from..to]);
    forall j | 0 <= j < |s| && j != i
      ensures s[j] == t[j]
    {
      if j < i {
        assert s[..i][j] == t[..i][j];
      } else {
        assert s[i + 1..][j - i - 1] == t[i + 1..][j - i - 1];
      }
    }
    if from <= i < to {
      assert a[..i - from] == b[..i - from] && a[i - from + 1..] == b[i - from + 1..];
    }
  }

  /** Magic and version are as they should be, and the length is that of the data. */
  ghost predicate Framed(data: seq<byte>) {
    |data| >= BATCH_HEADER_SIZE && data[..4] == MAGIC && data[4] == VERSION && 9 + HeaderLength(data) == |data|
  }

  lemma DecodeFramed(data: seq<byte>)
    requires Framed(data)
    ensures Get32(data[9..13]) != Crc32(data[13..|data|]) ==> Decode(data) == Failed(CorruptBatch)
    ensures Decode(data).Records? ==> Get32(data[9..13]) == Crc32(data[13..|data|])
  {
    hide ParseRecords, Crc32, Get32, HeaderBase, HeaderTimestamp, TruncDiv;
  }

  /** The checksum does not match if a byte of it is changed, or a byte behind it. */
  lemma ChecksumOff(w: seq<byte>, data: seq<byte>, i: nat)
    requires |w| >= 33 && OneByteOff(w, data, i) && i >= 9 && Get32(w[9..13]) == Crc32(w[13..|w|])
    ensures |data| == |w| && Get32(data[9..13]) != Crc32(data[13..|data|])
  {
    hide Crc32, Get32, Put32, OneByteOff;
    Differ(w, data, i);
    OneByteOffParts(w, data, i, 9, 13);
    OneByteOffParts(w, data, i, 13, |w|);
    if i < 13 {
      Differ(w[9..13], data[9..13], i - 9);
      Put32Get32(w[9..13]);
      Put32Get32(data[9..13]);
    } else {
      CrcDiffers(w[13..|w|], data[13..|w|], i - 13);
    }
  }

  lemma StillFramed(w: seq<byte>, data: seq<byte>, i: nat)
    requires Framed(w) && OneByteOff(w, data, i) && i >= 9
    ensures Framed(data)
  {
    hide OneByteOff, Get32;
    Differ(w, data, i);
    OneByteOffParts(w, data, i, 0, 4);
    OneByteOffParts(w, data, i, 4, 5);
    OneByteOffParts(w, data, i, 5, 9);
    assert w[0..4] == w[..4] && data[0..4] == data[..4] && w[4..5][0] == data[4..5][0];
  }

  lemma WrongStart(w: seq<byte>, data: seq<byte>, i: nat)
    requires Framed(w) && OneByteOff(w, data, i) && i < 5
    ensures Decode(data) == Failed(if i < 4 then MalformedMagic else UnsupportedVersion)
  {
    hide OneByteOff, ParseRecords, Crc32, Get32, HeaderBase, HeaderTimestamp, TruncDiv;
    Differ(w, data, i);
    OneByteOffParts(w, data, i, 0, 4);
    assert w[0..4] == w[..4] && data[0..4] == data[..4];
    if i < 4 {
      Differ(w[0..4], data[0..4], i);
    }
  }

  /** How the decoder answers to a written batch with one byte changed, anywhere but in the length field. */
  lemma ByteChanged(b: Batch, start: nat, data: seq<byte>, i: nat)
    requires ValidBatch(b, start) && OneByteOff(b.bytes, data, i) && (i < 5 || i >= 9)
    ensures Decode(data) ==
            Failed(if i < 4 then MalformedMagic else if i == 4 then UnsupportedVersion else CorruptBatch)
  {
    hide ValidBatch, Decode, Crc32, Get32, HeaderBase, HeaderTimestamp, OneByteOff;
    BatchReads(b, start, b.bytes);
    if i < 5 {
      WrongStart(b.bytes, data, i);
    } else {
      DecodeFramed(b.bytes);
      StillFramed(b.bytes, data, i);
      ChecksumOff(b.bytes, data, i);
      DecodeFramed(data);
    }
  }

  lemma Differ(s: seq<byte>, t: seq<byte>, i: nat)
    requires OneByteOff(s, t, i)
    ensures s != t && i < |s| == |t| && s[i] != t[i]
  {
  }

  /** A log with such a byte in it is refused. */
  lemma LogChanged(bs: seq<Batch>, base: nat, bytes: seq<byte>, k: nat, i: nat, active: bool, maxBatch: nat)
    requires Run(bs, base) && (forall b <- bs :: |b.bytes| <= maxBatch)
    requires k < |bs| && i < |bs[k].bytes| && (i < 5 || i >= 9)
    requires OneByteOff(LogBytes(bs), bytes, Pos(bs, k) + i)
    ensures Scan(bytes, 0, base, active, maxBatch).Broken?
  {
    hide Run, ValidBatch, LogBytes, Pos, Off, Scan, ScanBatch, OneByteOff;
    var (w, p, q) := (LogBytes(bs), Pos(bs, k), Pos(bs, k + 1));
    BatchAt(bs, k);
    Next(bs, k);
    RunAt(bs, base, k);
    Differ(w, bytes, p + i);
    OneByteOffParts(w, bytes, p + i, 0, p);
    OneByteOffParts(w, bytes, p + i, p, q);
    assert w[0..p] == w[..p] && bytes[0..p] == bytes[..p];
    ChangedStops(bs[k], base + Off(bs, k), bytes, p, i, active, maxBatch);
    ScanStep(bytes, p, base + Off(bs, k), active, maxBatch);
    PosZero(bs);
    Increasing(bs, 0, k);
    ScanReach(bs, bytes, 0, k, base, active, maxBatch);
  }

  lemma ChangedStops(b: Batch, start: nat, bytes: seq<byte>, pos: nat, i: nat, active: bool, maxBatch: nat)
    requires ValidBatch(b, start) && |b.bytes| <= maxBatch && pos + |b.bytes| <= |bytes| && (i < 5 || i >= 9)
    requires OneByteOff(b.bytes, bytes[pos..pos + |b.bytes|], i)
    ensures ScanBatch(bytes, pos, start, active, maxBatch).Stop?
  {
    hide ValidBatch, Decode, OneByteOff, Get32, HeaderBase, HeaderTimestamp;
    var (n, data) := (|b.bytes|, bytes[pos..pos + |b.bytes|]);
    var head := bytes[pos..pos + 9];
    BatchReads(b, start, b.bytes);
    ByteChanged(b, start, data, i);
    Differ(b.bytes, data, i);
    OneByteOffParts(b.bytes, data, i, 0, 9);
    OneByteOffParts(b.bytes, data, i, 5, 9);
    assert head == data[..9] && data[5..9] == head[5..9];
    assert HeaderLength(head) == HeaderLength(b.bytes);
  }

  // ------------------------------------------------------------------ offset entries

  /** And so is an offset entry with such a byte. */
  lemma EntryChanged(e: Entry, bytes: seq<byte>, pos: nat, i: nat)
    requires ValidEntry(e) && pos + |EntryWire(e)| <= |bytes| && (i < 5 || i >= 9)
    requires OneByteOff(EntryWire(e), bytes[pos..pos + |EntryWire(e)|], i)
    ensures pos < |bytes| && ParseEntry(bytes, pos).Corrupt?
  {
    hide ParsePayload, Crc32, Get32, Put32, OneByteOff, ValidEntry, Payload;
    var (w, n) := (EntryWire(e), |EntryWire(e)|);
    var data := bytes[pos..pos + n];
    EntryFramed(e);
    Differ(w, data, i);
    OneByteOffParts(w, data, i, 0, 4);
    OneByteOffParts(w, data, i, 4, 5);
    OneByteOffParts(w, data, i, 5, 9);
    var head := bytes[pos..pos + 9];
    assert head == data[..9];
    assert head[..4] == data[0..4] && head[5..9] == data[5..9];
    assert head[4] == data[4..5][0] && w[4..5][0] == 1;
    if i < 4 {
      Differ(w[0..4], data[0..4], i);
    } else if i >= 9 {
      ChecksumOff(w, data, i);
      var frame := bytes[pos + 9..pos + n];
      assert frame[..4] == data[9..13] && frame[4..] == data[13..n];
    }
  }

  lemma EntryFramed(e: Entry)
    requires ValidEntry(e)
    ensures var w := EntryWire(e);
            && 41 <= |w| <= 9 + MAX_ENTRY && w[0..4] == OFFSET_MAGIC && w[4] == 1 && Get32(w[5..9]) == |w| - 9
            && Get32(w[9..13]) == Crc32(w[13..|w|])
  {
    hide Crc32, Get32, Put32, ValidEntry, Payload;
    EntrySize(e);
    var (w, p) := (EntryWire(e), Payload(e));
    assert w[5..9] == Put32(|p| + 4) && w[9..13] == Put32(Crc32(p)) && w[13..|w|] == p;
  }
}
