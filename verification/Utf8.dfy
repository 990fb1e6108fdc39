/** What the byte checks accept is exactly UTF-8 (sections 3 and 4 of RFC 3629): encoded sequences of characters. */
module Utf8 {
  import opened Arith
  import opened Bytes

  /** A character number, surrogates excluded. */
  type Scalar = c: nat | c < 0xD800 || 0xE000 <= c <= 0x10FFFF

  /** The UTF-8 encoding of one character. */
  function EncodeScalar(c: Scalar): (e: bytes)
    ensures |e| > 0
  {
    if c < 0x80 then [c]
    else if c < 0x800 then [0xC0 + c / 0x40, 0x80 + c % 0x40]
    else if c < 0x1_0000 then [0xE0 + c / 0x1000, 0x80 + c / 0x40 % 0x40, 0x80 + c % 0x40]
    else [0xF0 + c / 0x4_0000, 0x80 + c / 0x1000 % 0x40, 0x80 + c / 0x40 % 0x40, 0x80 + c % 0x40]
  }

  function EncodeAll(cs: seq<Scalar>): bytes {
    if cs == [] then [] else EncodeScalar(cs[0]) + EncodeAll(cs[1..])
  }

  lemma ThreeDigits(a: nat, b: nat, c: nat)
    requires b < 0x40 && c < 0x40
    ensures
      var n := (a * 0x40 + b) * 0x40 + c;
      n / 0x1000 == a && n / 0x40 % 0x40 == b && n % 0x40 == c
  {
    var n := (a * 0x40 + b) * 0x40 + c;
    FloorIs(n, 0x40, a * 0x40 + b);
    FloorIs(n, 0x1000, a);
  }

  lemma FourDigits(a: nat, b: nat, c: nat, d: nat)
    requires b < 0x40 && c < 0x40 && d < 0x40
    ensures
      var n := ((a * 0x40 + b) * 0x40 + c) * 0x40 + d;
      n / 0x4_0000 == a && n / 0x1000 % 0x40 == b && n / 0x40 % 0x40 == c && n % 0x40 == d
  {
    var n := ((a * 0x40 + b) * 0x40 + c) * 0x40 + d;
    ThreeDigits(a, b, c);
    FloorIs(n, 0x40, (a * 0x40 + b) * 0x40 + c);
    FloorIs(n, 0x1000, a * 0x40 + b);
    FloorIs(n, 0x4_0000, a);
  }

  /** What is accepted at the head of a text is the encoding of a character. */
  lemma HeadIsScalar(s: bytes) returns (c: Scalar)
    requires HeadLength(s) > 0
    ensures EncodeScalar(c) == s[..HeadLength(s)]
  {
    var n := HeadLength(s);
    var b0: int := s[0];
    if n == 1 {
      return b0;
    }
    var b1: int := s[1];
    if n == 2 {
      return (b0 - 0xC0) * 0x40 + (b1 - 0x80);
    }
    var b2: int := s[2];
    if n == 3 {
      ThreeDigits(b0 - 0xE0, b1 - 0x80, b2 - 0x80);
      return ((b0 - 0xE0) * 0x40 + (b1 - 0x80)) * 0x40 + (b2 - 0x80);
    }
    var b3: int := s[3];
    FourDigits(b0 - 0xF0, b1 - 0x80, b2 - 0x80, b3 - 0x80);
    return (((b0 - 0xF0) * 0x40 + (b1 - 0x80)) * 0x40 + (b2 - 0x80)) * 0x40 + (b3 - 0x80);
  }

  lemma ThreeByteHead(c: Scalar, s: bytes)
    requires 0x800 <= c < 0x1_0000 && |s| >= 3 && EncodeScalar(c) == s[..3]
    ensures HeadLength(s) == 3
  {
    assert s[0] == EncodeScalar(c)[0] && s[1] == EncodeScalar(c)[1] && s[2] == EncodeScalar(c)[2];
  }

  lemma FourByteHead(c: Scalar, s: bytes)
    requires 0x1_0000 <= c && |s| >= 4 && EncodeScalar(c) == s[..4]
    ensures HeadLength(s) == 4
  {
    var e := EncodeScalar(c);
    assert s[0] == e[0] && s[1] == e[1] && s[2] == e[2] && s[3] == e[3];
  }

  /** The encoding of a character is accepted, whatever follows, and nothing more. */
  lemma ScalarIsHead(c: Scalar, rest: bytes)
    ensures HeadLength(EncodeScalar(c) + rest) == |EncodeScalar(c)|
  {
    var e := EncodeScalar(c);
    var s := e + rest;
    assert forall i :: 0 <= i < |e| ==> s[i] == e[i];
    if c >= 0x1_0000 {
      FourByteHead(c, s);
    } else if c >= 0x800 {
      ThreeByteHead(c, s);
    }
  }

  lemma {:induction false} ValidIsEncoded(s: bytes) returns (cs: seq<Scalar>)
    requires ValidUtf8(s)
    ensures EncodeAll(cs) == s
    decreases |s|
  {
    if s == [] {
      cs := [];
    } else {
      var n := HeadLength(s);
      var c := HeadIsScalar(s);
      var rest := ValidIsEncoded(s[n..]);
      cs := [c] + rest;
      TakeDrop(s, n);
    }
  }

  lemma {:induction false} EncodedIsValid(cs: seq<Scalar>)
    ensures ValidUtf8(EncodeAll(cs))
  {
    if cs != [] {
      var e, rest := EncodeScalar(cs[0]), EncodeAll(cs[1..]);
      EncodedIsValid(cs[1..]);
      ScalarIsHead(cs[0], rest);
      PartsOfConcat(e, rest);
    }
  }

  /** A byte sequence is accepted as text if and only if it encodes a sequence of characters. */
  lemma ValidUtf8Iff(s: bytes)
    ensures ValidUtf8(s) <==> exists cs :: EncodeAll(cs) == s
  {
    if ValidUtf8(s) {
      var cs := ValidIsEncoded(s);
    }
    if exists cs :: EncodeAll(cs) == s {
      var cs :| EncodeAll(cs) == s;
      EncodedIsValid(cs);
    }
  }
}
