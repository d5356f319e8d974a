/** The source's machine integers, and their big-endian byte forms. */
module Bytes {
  type byte = b: int | 0 <= b < 0x100
  type uint32 = n: int | 0 <= n < 0x1_0000_0000
  type uint64 = n: int | 0 <= n < 0x1_0000_0000_0000_0000
  type int64 = n: int | -0x8000_0000_0000_0000 <= n < 0x8000_0000_0000_0000

  const MAX_UINT32 := 0xFFFF_FFFF
  const MAX_INT64 := 0x7FFF_FFFF_FFFF_FFFF
  const MAX_UINT64 := 0xFFFF_FFFF_FFFF_FFFF

  function Min(a: int, b: int): int { if a <= b then a else b }

  /** Conversion to an unsigned type keeps the low bits. */
  function ToUint32(n: int): uint32 { n % 0x1_0000_0000 }

  function ToUint64(n: int): uint64 { n % 0x1_0000_0000_0000_0000 }

  /** Conversion to a signed type keeps the low bits and reads them as two's complement. */
  function ToInt32(n: int): int {
    var u := n % 0x1_0000_0000;
    if u < 0x8000_0000 then u else u - 0x1_0000_0000
  }

  function ToInt64(n: int): int64 {
    var u := n % 0x1_0000_0000_0000_0000;
    if u < 0x8000_0000_0000_0000 then u else u - 0x1_0000_0000_0000_0000
  }

  /** Integer division as Go does it: toward zero. */
  function TruncDiv(n: int, d: int): int
    requires d > 0
  {
    if n >= 0 then n / d else -(-n / d)
  }

  /** Big-endian, Horner style: each byte in turn after the value so far times 256. */
  function Get32(s: seq<byte>): uint32
    requires |s| == 4
  {
    var (a: int, b: int, c: int, d: int) := (s[0], s[1], s[2], s[3]);
    ((a * 0x100 + b) * 0x100 + c) * 0x100 + d
  }

  function Put32(v: uint32): (s: seq<byte>)
    ensures |s| == 4 && Get32(s) == v
  {
    var q1 := v / 0x100;
    var q2 := q1 / 0x100;
    [q2 / 0x100, q2 % 0x100, q1 % 0x100, v % 0x100]
  }

  function Get64(s: seq<byte>): uint64
    requires |s| == 8
  {
    Get32(s[..4]) * 0x1_0000_0000 + Get32(s[4..])
  }

  function Put64(v: uint64): (s: seq<byte>)
    ensures |s| == 8 && Get64(s) == v
  {
    hide Put32, Get32;
    var s := Put32(v / 0x1_0000_0000) + Put32(v % 0x1_0000_0000);
    assert s[..4] == Put32(v / 0x1_0000_0000) && s[4..] == Put32(v % 0x1_0000_0000);
    s
  }

  lemma SplitByte(q: nat, r: byte)
    ensures (q * 0x100 + r) / 0x100 == q && (q * 0x100 + r) % 0x100 == r
  {
  }

  lemma SplitWord(q: nat, r: uint32)
    ensures (q * 0x1_0000_0000 + r) / 0x1_0000_0000 == q && (q * 0x1_0000_0000 + r) % 0x1_0000_0000 == r
  {
  }

  lemma Put32Get32(s: seq<byte>)
    requires |s| == 4
    ensures Put32(Get32(s)) == s
  {
    var (a: int, b: int, c: int, d: int) := (s[0], s[1], s[2], s[3]);
    SplitByte((a * 0x100 + b) * 0x100 + c, d);
    SplitByte(a * 0x100 + b, c);
    SplitByte(a, b);
  }

  lemma Put64Get64(s: seq<byte>)
    requires |s| == 8
    ensures Put64(Get64(s)) == s
  {
    hide Put32, Get32;
    Put32Get32(s[..4]);
    Put32Get32(s[4..]);
    SplitWord(Get32(s[..4]), Get32(s[4..]));
    assert s == s[..4] + s[4..];
  }

  /** A slice holds the bytes of `v` exactly when `v` is read from it. */
  lemma Slice32(s: seq<byte>, at: nat, v: uint32)
    requires at + 4 <= |s|
    ensures s[at..at + 4] == Put32(v) <==> Get32(s[at..at + 4]) == v
  {
    hide Put32, Get32;
    Put32Get32(s[at..at + 4]);
  }

  lemma Slice64(s: seq<byte>, at: nat, v: uint64)
    requires at + 8 <= |s|
    ensures s[at..at + 8] == Put64(v) <==> Get64(s[at..at + 8]) == v
  {
    hide Put64, Get64;
    Put64Get64(s[at..at + 8]);
  }

  /** A slice is a concatenation exactly when its two parts are the parts. */
  lemma SplitSlice<T>(s: seq<T>, at: nat, a: seq<T>, b: seq<T>)
    requires at + |a| + |b| <= |s|
    ensures s[at..at + |a| + |b|] == a + b <==>
            s[at..at + |a|] == a && s[at + |a|..at + |a| + |b|] == b
  {
    var t := s[at..at + |a| + |b|];
    assert t == t[..|a|] + t[|a|..];
    assert t[..|a|] == s[at..at + |a|] && t[|a|..] == s[at + |a|..at + |a| + |b|];
  }

  lemma SignExact(n: int64, u: uint64)
    ensures ToInt64(u) == n <==> u == ToUint64(n)
  {
  }

  /** An offset is a base plus a 32-bit delta exactly when its distance from the base fits, wrap-around or not. */
  lemma DeltaExact(base: uint64, delta: uint32, offset: uint64)
    ensures offset == ToUint64(base + delta) <==>
            ToUint64(offset - base) <= MAX_UINT32 && ToUint32(offset - base) == delta
  {
  }

  /** A timestamp is a maximum minus a non-negative age exactly when its distance from the maximum fits. */
  lemma AgeExact(max: int64, age: uint64, timestamp: int64)
    ensures ToInt64(age) >= 0 && timestamp == ToInt64(max - ToInt64(age)) <==>
            ToInt64(max - timestamp) >= 0 && ToUint64(max - timestamp) == age
  {
  }
}
