/** UTF-8 validity, by the grammar of section 4 of RFC 3629, as utf8.ValidString decides it.
    `ValidExactly` says which byte strings these are. */
module Utf8 {
  import opened Bytes

  predicate Within(b: byte, low: byte, high: byte) { low <= b <= high }

  predicate Continuation(b: byte) { Within(b, 0x80, 0xBF) }

  predicate Two(s: seq<byte>) { |s| >= 2 && Within(s[0], 0xC2, 0xDF) && Continuation(s[1]) }

  predicate Three(s: seq<byte>) {
    && |s| >= 3 && Continuation(s[2])
    && (|| (s[0] == 0xE0 && Within(s[1], 0xA0, 0xBF))
        || (Within(s[0], 0xE1, 0xEC) && Continuation(s[1]))
        || (s[0] == 0xED && Within(s[1], 0x80, 0x9F))
        || (Within(s[0], 0xEE, 0xEF) && Continuation(s[1])))
  }

  predicate Four(s: seq<byte>) {
    && |s| >= 4 && Continuation(s[2]) && Continuation(s[3])
    && (|| (s[0] == 0xF0 && Within(s[1], 0x90, 0xBF))
        || (Within(s[0], 0xF1, 0xF3) && Continuation(s[1]))
        || (s[0] == 0xF4 && Within(s[1], 0x80, 0x8F)))
  }

  predicate ValidString(s: seq<byte>)
    decreases |s|
  {
    || s == []
    || (s[0] < 0x80 && ValidString(s[1..]))
    || (Two(s) && ValidString(s[2..]))
    || (Three(s) && ValidString(s[3..]))
    || (Four(s) && ValidString(s[4..]))
  }

  // --------------------------------------------------------------- what it accepts

  /** A Unicode scalar value: a code point that is no surrogate. */
  predicate Scalar(c: int) { 0 <= c < 0xD800 || 0xE000 <= c < 0x11_0000 }

  /** Its encoding: six bits in every byte but the first. */
  function Encoded(c: int): seq<byte>
    requires Scalar(c)
  {
    if c < 0x80 then [c]
    else if c < 0x800 then [0xC0 + c / 0x40, 0x80 + c % 0x40]
    else if c < 0x1_0000 then [0xE0 + c / 0x1000, 0x80 + c / 0x40 % 0x40, 0x80 + c % 0x40]
    else [0xF0 + c / 0x4_0000, 0x80 + c / 0x1000 % 0x40, 0x80 + c / 0x40 % 0x40, 0x80 + c % 0x40]
  }

  predicate Scalars(cs: seq<int>) { forall c <- cs :: Scalar(c) }

  function EncodedAll(cs: seq<int>): seq<byte>
    requires Scalars(cs)
  {
    if cs == [] then [] else Encoded(cs[0]) + EncodedAll(cs[1..])
  }

  lemma TwoSplit(s: seq<byte>) returns (c: int)
    requires Two(s)
    ensures Scalar(c) && s[..2] == Encoded(c)
  {
    var (a: int, b: int) := (s[0] - 0xC0, s[1] - 0x80);
    c := a * 0x40 + b;
    assert c / 0x40 == a && c % 0x40 == b;
  }

  lemma ThreeSplit(s: seq<byte>) returns (c: int)
    requires Three(s)
    ensures Scalar(c) && s[..3] == Encoded(c)
  {
    var (a: int, b: int, d: int) := (s[0] - 0xE0, s[1] - 0x80, s[2] - 0x80);
    c := (a * 0x40 + b) * 0x40 + d;
    assert c / 0x40 == a * 0x40 + b && c % 0x40 == d && c / 0x1000 == a && (a * 0x40 + b) % 0x40 == b;
  }

  lemma FourSplit(s: seq<byte>) returns (c: int)
    requires Four(s)
    ensures Scalar(c) && s[..4] == Encoded(c)
  {
    var (a: int, b: int, d: int, e: int) := (s[0] - 0xF0, s[1] - 0x80, s[2] - 0x80, s[3] - 0x80);
    var high := a * 0x40 + b;
    c := (high * 0x40 + d) * 0x40 + e;
    assert c / 0x40 == high * 0x40 + d && c % 0x40 == e && (high * 0x40 + d) % 0x40 == d;
    assert c / 0x1000 == high && high % 0x40 == b && c / 0x4_0000 == a;
  }

  /** The first character of a valid string. */
  lemma FirstOf(s: seq<byte>) returns (c: int, n: nat)
    requires ValidString(s) && s != []
    ensures Scalar(c) && 0 < n <= |s| && s[..n] == Encoded(c) && ValidString(s[n..])
  {
    if s[0] < 0x80 && ValidString(s[1..]) {
      c, n := s[0], 1;
    } else if Two(s) && ValidString(s[2..]) {
      c := TwoSplit(s);
      n := 2;
    } else if Three(s) && ValidString(s[3..]) {
      c := ThreeSplit(s);
      n := 3;
    } else {
      c := FourSplit(s);
      n := 4;
    }
  }

  lemma {:induction false} ValidSplits(s: seq<byte>) returns (cs: seq<int>)
    requires ValidString(s)
    ensures Scalars(cs) && EncodedAll(cs) == s
    decreases |s|
  {
    hide Encoded, Scalar;
    cs := [];
    if s != [] {
      var c, n := FirstOf(s);
      var rest := ValidSplits(s[n..]);
      cs := [c] + rest;
      assert s == s[..n] + s[n..] && cs[1..] == rest;
    }
  }

  lemma EncodedFirst(c: int, rest: seq<byte>)
    requires Scalar(c) && ValidString(rest)
    ensures ValidString(Encoded(c) + rest)
  {
    var (s, n) := (Encoded(c) + rest, |Encoded(c)|);
    assert s[n..] == rest;
    if c >= 0x1_0000 {
      assert Four(s);
    } else if c >= 0x800 {
      assert Three(s);
    } else if c >= 0x80 {
      assert Two(s);
    }
  }

  lemma {:induction false} EncodedValid(cs: seq<int>)
    requires Scalars(cs)
    ensures ValidString(EncodedAll(cs))
  {
    hide Encoded, Scalar, Two, Three, Four;
    if cs != [] {
      EncodedValid(cs[1..]);
      EncodedFirst(cs[0], EncodedAll(cs[1..]));
    }
  }

  /** Valid strings are exactly the encodings of scalar values. */
  lemma ValidExactly(s: seq<byte>)
    ensures ValidString(s) <==> exists cs: seq<int> | Scalars(cs) :: EncodedAll(cs) == s
  {
    hide ValidString, EncodedAll;
    if ValidString(s) {
      var cs := ValidSplits(s);
    }
    forall cs: seq<int> | Scalars(cs) && EncodedAll(cs) == s
      ensures ValidString(s)
    {
      EncodedValid(cs);
    }
  }
}
