/** Text and hashes as bytes: a string of the source is a byte sequence that is valid UTF-8. */
module Bytes {
  import opened Arith

  type bytes = seq<u8>

  /** A continuation byte of a multi-byte sequence. */
  predicate Tail(b: u8) {
    0x80 <= b <= 0xBF
  }

  /** The number of bytes of the UTF-8 sequence at the head of `s` (section 4 of RFC 3629), 0 if there is none. */
  function HeadLength(s: bytes): (n: nat)
    ensures n <= |s|
  {
    if s == [] then 0
    else if s[0] <= 0x7F then 1
    else if 0xC2 <= s[0] <= 0xDF && |s| >= 2 && Tail(s[1]) then 2
    else if 0xE0 <= s[0] <= 0xEF && |s| >= 3 && Tail(s[1]) && Tail(s[2])
            && (s[0] == 0xE0 ==> s[1] >= 0xA0) && (s[0] == 0xED ==> s[1] <= 0x9F) then 3
    else if 0xF0 <= s[0] <= 0xF4 && |s| >= 4 && Tail(s[1]) && Tail(s[2]) && Tail(s[3])
            && (s[0] == 0xF0 ==> s[1] >= 0x90) && (s[0] == 0xF4 ==> s[1] <= 0x8F) then 4
    else 0
  }

  predicate ValidUtf8(s: bytes) {
    s == [] || (HeadLength(s) > 0 && ValidUtf8(s[HeadLength(s)..]))
  }

  /** A Rust `String`. */
  type Text = s: bytes | ValidUtf8(s) witness []

  /** A 32-byte hash. */
  type Hash = h: bytes | |h| == 32 witness seq(32, _ => 0)

  function AsciiByte(c: char): u8 {
    if c < 128 as char then c as int else 63
  }

  /** The bytes of an ASCII literal. */
  function Ascii(s: string): (b: bytes)
    ensures |b| == |s|
    ensures forall i :: 0 <= i < |s| && s[i] < 128 as char ==> b[i] == s[i] as int
  {
    seq(|s|, i requires 0 <= i < |s| => AsciiByte(s[i]))
  }

  // ---- lower-case hex ----

  function HexDigit(n: nat): u8
    requires n < 16
  {
    if n < 10 then 48 + n else 87 + n
  }

  /** `hex::encode`. */
  function Hex(s: bytes): (h: bytes)
    ensures |h| == 2 * |s|
  {
    if s == [] then [] else [HexDigit(s[0] / 16), HexDigit(s[0] % 16)] + Hex(s[1..])
  }

  const HEX_DIGITS: string := "0123456789abcdef"

  /** Each byte is two lower-case digits, the high half first. */
  lemma {:induction false} HexAt(s: bytes, i: nat)
    requires i < |s|
    ensures Hex(s)[2 * i] == HEX_DIGITS[s[i] / 16] as int
    ensures Hex(s)[2 * i + 1] == HEX_DIGITS[s[i] % 16] as int
  {
    if i > 0 {
      HexAt(s[1..], i - 1);
    }
  }

  lemma {:induction false} HexInjective(a: bytes, b: bytes)
    requires Hex(a) == Hex(b)
    ensures a == b
  {
    assert |a| == |b|;
    if a != [] {
      assert Hex(a)[0] == HexDigit(a[0] / 16) && Hex(b)[0] == HexDigit(b[0] / 16);
      assert Hex(a)[1] == HexDigit(a[0] % 16) && Hex(b)[1] == HexDigit(b[0] % 16);
      assert Hex(a[1..]) == Hex(a)[2..] && Hex(b[1..]) == Hex(b)[2..];
      HexInjective(a[1..], b[1..]);
    }
  }

  // ---- fixed-width integers ----

  /** `(n as u16).to_le_bytes()`. */
  function U16Le(n: nat): bytes {
    [n % 256, (n / 256) % 256]
  }

  /** `u16::from_le_bytes`. */
  function FromU16Le(low: u8, high: u8): nat {
    (low as int) + 256 * (high as int)
  }

  lemma U16LeReads(low: u8, high: u8)
    ensures FromU16Le(low, high) < 0x1_0000 && U16Le(FromU16Le(low, high)) == [low, high]
  {
  }

  lemma U16LeRoundTrip(n: nat)
    requires n < 0x1_0000
    ensures FromU16Le(U16Le(n)[0], U16Le(n)[1]) == n
  {
  }

  /** `(n as u32).to_be_bytes()`. */
  function U32Be(n: nat): bytes {
    var m := n % 0x1_0000_0000;
    [m / 0x100_0000 % 256, m / 0x1_0000 % 256, m / 0x100 % 256, m % 256]
  }

  /** Four bytes as a number, the high one first. */
  function FromU32Be(b: bytes): int
    requires |b| == 4
  {
    (b[0] as int) * 0x100_0000 + (b[1] as int) * 0x1_0000 + (b[2] as int) * 0x100 + (b[3] as int)
  }

  /** The high byte comes first; a number that does not fit wraps around. */
  lemma U32BeIsBigEndian(n: nat)
    ensures |U32Be(n)| == 4 && FromU32Be(U32Be(n)) == n % 0x1_0000_0000
  {
    FromDigits(n % 0x1_0000_0000);
  }

  /** The low byte comes first; a number that does not fit wraps around. */
  lemma U16LeIsLittleEndian(n: nat)
    ensures |U16Le(n)| == 2 && U16Le(n)[0] == n % 0x100 && U16Le(n)[1] == n / 0x100 % 0x100
    ensures forall low: u8, high: u8 :: FromU16Le(low, high) == low as int + 0x100 * high as int
  {
  }

  lemma U32BeInjective(m: nat, n: nat)
    requires m < 0x1_0000_0000 && n < 0x1_0000_0000
    requires U32Be(m) == U32Be(n)
    ensures m == n
  {
    var x := U32BeValue(m);
    var y := U32BeValue(n);
  }

  lemma U32BeValue(n: nat) returns (b: bytes)
    requires n < 0x1_0000_0000
    ensures b == U32Be(n) && |b| == 4 && FromU32Be(b) == n
  {
    b := U32Be(n);
    U32BeIsBigEndian(n);
  }

  /** A 32-bit number is determined by its four base-256 digits. */
  lemma FromDigits(n: nat)
    requires n < 0x1_0000_0000
    ensures n == (((n / 0x100_0000) % 256 * 256 + (n / 0x1_0000) % 256) * 256 + (n / 0x100) % 256) * 256 + n % 256
  {
    var a := n / 0x100;
    var b := a / 0x100;
    assert b == n / 0x1_0000;
    assert b / 0x100 == n / 0x100_0000;
  }

  // ---- splitting a concatenation ----

  lemma Assoc<T>(a: seq<T>, b: seq<T>, c: seq<T>)
    ensures (a + b) + c == a + (b + c)
  {
  }

  lemma HeadTail<T>(s: seq<T>)
    requires s != []
    ensures [s[0]] + s[1..] == s
  {
  }

  lemma TakeDrop<T>(s: seq<T>, n: nat)
    requires n <= |s|
    ensures s[..n] + s[n..] == s
  {
  }

  lemma PartsOfConcat<T>(a: seq<T>, b: seq<T>)
    ensures (a + b)[..|a|] == a && (a + b)[|a|..] == b
  {
  }

  /** Equal concatenations whose first parts have equal lengths are equal part by part. */
  lemma SplitEqual<T>(a: seq<T>, b: seq<T>, x: seq<T>, y: seq<T>)
    requires a + x == b + y && |a| == |b|
    ensures a == b && x == y
  {
    assert a == (a + x)[..|a|] && b == (b + y)[..|b|];
    assert x == (a + x)[|a|..] && y == (b + y)[|b|..];
  }
}
