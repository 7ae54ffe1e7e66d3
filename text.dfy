/**
 * The string and byte primitives the bootstrap relies on from Rust's standard
 * library and its formatting machinery: UTF-8 encoding of `str`, `str::trim`,
 * `u64::to_string`, `u64::from_str`, and `{:x}` hex rendering of a digest.
 */
module Text {
  import opened Wrappers

  newtype byte = x: int | 0 <= x < 256

  const U64_MAX: nat := 0xFFFF_FFFF_FFFF_FFFF

  /** Rust's `u64`. */
  type u64 = n: nat | n <= U64_MAX

  // ---------------------------------------------------------------------------
  // UTF-8 (the bytes behind `str::as_bytes`, and the check behind `Path::to_str`)
  // ---------------------------------------------------------------------------

  /** The UTF-8 encoding of one Unicode scalar value. */
  function Utf8Char(c: char): (b: seq<byte>)
    ensures 1 <= |b| <= 4
    ensures |b| == 1 <==> c as int < 0x80
  {
    var n := c as int;
    if n < 0x80 then
      [n as byte]
    else if n < 0x800 then
      [(0xC0 + n / 64) as byte, (0x80 + n % 64) as byte]
    else if n < 0x1_0000 then
      [(0xE0 + n / 4096) as byte, (0x80 + (n / 64) % 64) as byte, (0x80 + n % 64) as byte]
    else
      [(0xF0 + n / 262144) as byte, (0x80 + (n / 4096) % 64) as byte,
       (0x80 + (n / 64) % 64) as byte, (0x80 + n % 64) as byte]
  }

  /** The UTF-8 bytes of a string. */
  function Utf8(s: string): (b: seq<byte>)
    ensures |b| >= |s|
    ensures |b| == |s| <==> forall i :: 0 <= i < |s| ==> s[i] as int < 0x80
  {
    if s == [] then [] else Utf8Char(s[0]) + Utf8(s[1..])
  }

  predicate IsContinuation(b: byte) {
    0x80 <= b < 0xC0
  }

  /**
   * Decodes the first scalar value of `b`, returning it and the number of bytes
   * it used; `None` when `b` does not start with a well-formed UTF-8 sequence
   * (stray continuation byte, truncated sequence, overlong form, surrogate,
   * value above U+10FFFF).
   */
  function DecodeChar(b: seq<byte>): (r: Option<(char, nat)>)
    requires b != []
    ensures r.Some? ==> 1 <= r.value.1 <= 4 && r.value.1 <= |b|
  {
    var b0 := b[0] as int;
    if b0 < 0x80 then
      Some((b0 as char, 1))
    else if 0xC2 <= b0 < 0xE0 && |b| >= 2 && IsContinuation(b[1]) then
      var n := (b0 - 0xC0) * 64 + (b[1] as int - 0x80);
      Some((n as char, 2))
    else if 0xE0 <= b0 < 0xF0 && |b| >= 3 && IsContinuation(b[1]) && IsContinuation(b[2]) then
      var n := (b0 - 0xE0) * 4096 + (b[1] as int - 0x80) * 64 + (b[2] as int - 0x80);
      if 0x800 <= n && !(0xD800 <= n < 0xE000) then Some((n as char, 3)) else None
    else if 0xF0 <= b0 < 0xF5 && |b| >= 4 && IsContinuation(b[1]) && IsContinuation(b[2]) && IsContinuation(b[3]) then
      var n := (b0 - 0xF0) * 262144 + (b[1] as int - 0x80) * 4096 + (b[2] as int - 0x80) * 64 + (b[3] as int - 0x80);
      if 0x1_0000 <= n <= 0x10_FFFF then Some((n as char, 4)) else None
    else
      None
  }

  /**
   * Strict UTF-8 validation and decoding (`std::str::from_utf8`). Only the
   * encoding of a string is accepted, and it decodes to that string.
   */
  function Utf8Decode(b: seq<byte>): (r: Option<string>)
    ensures r.Some? ==> Utf8(r.value) == b
    decreases |b|
  {
    if b == [] then Some([])
    else match DecodeChar(b)
      case None => None
      case Some((c, k)) =>
        match Utf8Decode(b[k..])
        case None => None
        case Some(rest) =>
          Utf8DecodeStep(b, c, k, rest);
          Some([c] + rest)
  }

  /** A decoded scalar value in front of a decoded rest encodes back to the whole input. */
  lemma Utf8DecodeStep(b: seq<byte>, c: char, k: nat, rest: string)
    requires b != [] && DecodeChar(b) == Some((c, k)) && Utf8(rest) == b[k..]
    ensures Utf8([c] + rest) == b
  {
    EncodeOfDecodedChar(b);
    assert ([c] + rest)[0] == c && ([c] + rest)[1..] == rest;
    assert b == b[..k] + b[k..];
  }

  /** A scalar value accepted by `DecodeChar` is encoded back to the bytes it was read from. */
  lemma EncodeOfDecodedChar(b: seq<byte>)
    requires b != [] && DecodeChar(b).Some?
    ensures Utf8Char(DecodeChar(b).value.0) == b[..DecodeChar(b).value.1]
  {
    var b0 := b[0] as int;
    if b0 < 0x80 {
    } else if 0xC2 <= b0 < 0xE0 && |b| >= 2 && IsContinuation(b[1]) {
      EncodeOfTwoBytes(b);
    } else if 0xE0 <= b0 < 0xF0 && |b| >= 3 && IsContinuation(b[1]) && IsContinuation(b[2]) {
      EncodeOfThreeBytes(b);
    } else {
      EncodeOfFourBytes(b);
    }
  }

  lemma EncodeOfTwoBytes(b: seq<byte>)
    requires |b| >= 2 && 0xC2 <= b[0] < 0xE0 && IsContinuation(b[1])
    ensures DecodeChar(b).Some? && Utf8Char(DecodeChar(b).value.0) == b[..2]
  {
    var q, r := b[0] as int - 0xC0, b[1] as int - 0x80;
    var n := q * 64 + r;
    assert n / 64 == q && n % 64 == r;
    assert Utf8Char(n as char) == [b[0], b[1]];
  }

  lemma EncodeOfThreeBytes(b: seq<byte>)
    requires |b| >= 3 && 0xE0 <= b[0] < 0xF0 && IsContinuation(b[1]) && IsContinuation(b[2])
    requires DecodeChar(b).Some?
    ensures Utf8Char(DecodeChar(b).value.0) == b[..3]
  {
    var q, r1, r2 := b[0] as int - 0xE0, b[1] as int - 0x80, b[2] as int - 0x80;
    var n := q * 4096 + r1 * 64 + r2;
    assert n / 64 == q * 64 + r1 && n % 64 == r2;
    assert n / 4096 == q;
    assert (n / 64) % 64 == r1;
    assert Utf8Char(n as char) == [b[0], b[1], b[2]];
  }

  lemma EncodeOfFourBytes(b: seq<byte>)
    requires |b| >= 4 && 0xF0 <= b[0] < 0xF5
    requires IsContinuation(b[1]) && IsContinuation(b[2]) && IsContinuation(b[3])
    requires DecodeChar(b).Some?
    ensures Utf8Char(DecodeChar(b).value.0) == b[..4]
  {
    var q, r1, r2, r3 := b[0] as int - 0xF0, b[1] as int - 0x80, b[2] as int - 0x80, b[3] as int - 0x80;
    var n := q * 262144 + r1 * 4096 + r2 * 64 + r3;
    assert n / 64 == q * 4096 + r1 * 64 + r2 && n % 64 == r3;
    assert n / 4096 == q * 64 + r1;
    assert n / 262144 == q;
    assert (n / 4096) % 64 == r1 && (n / 64) % 64 == r2;
    assert Utf8Char(n as char) == [b[0], b[1], b[2], b[3]];
  }

  lemma DecodeCharOfEncoded(c: char, rest: seq<byte>)
    ensures DecodeChar(Utf8Char(c) + rest) == Some((c, |Utf8Char(c)|))
  {
    var n := c as int;
    if n < 0x80 {
    } else if n < 0x800 {
      DecodeTwoBytes(c, rest);
    } else if n < 0x1_0000 {
      DecodeThreeBytes(c, rest);
    } else {
      DecodeFourBytes(c, rest);
    }
  }

  lemma DecodeTwoBytes(c: char, rest: seq<byte>)
    requires 0x80 <= c as int < 0x800
    ensures DecodeChar(Utf8Char(c) + rest) == Some((c, 2))
  {
    var n := c as int;
    var q, r := n / 64, n % 64;
    assert n == q * 64 + r;
    var b := Utf8Char(c) + rest;
    assert b[0] as int == 0xC0 + q && b[1] as int == 0x80 + r;
  }

  lemma DecodeThreeBytes(c: char, rest: seq<byte>)
    requires 0x800 <= c as int < 0x1_0000
    ensures DecodeChar(Utf8Char(c) + rest) == Some((c, 3))
  {
    var n := c as int;
    var q2, r2 := n / 4096, (n / 64) % 64;
    var r := n % 64;
    assert n / 64 == q2 * 64 + r2;
    assert n == (q2 * 64 + r2) * 64 + r;
    assert n == q2 * 4096 + r2 * 64 + r;
    var b := Utf8Char(c) + rest;
    assert b[0] as int == 0xE0 + q2 && b[1] as int == 0x80 + r2 && b[2] as int == 0x80 + r;
  }

  lemma DecodeFourBytes(c: char, rest: seq<byte>)
    requires 0x1_0000 <= c as int
    ensures DecodeChar(Utf8Char(c) + rest) == Some((c, 4))
  {
    var n := c as int;
    var q3, r3 := n / 262144, (n / 4096) % 64;
    var r2, r := (n / 64) % 64, n % 64;
    assert n / 4096 == q3 * 64 + r3;
    assert n / 64 == (n / 4096) * 64 + r2;
    assert n == (n / 64) * 64 + r;
    assert n == q3 * 262144 + r3 * 4096 + r2 * 64 + r;
    var b := Utf8Char(c) + rest;
    assert b[0] as int == 0xF0 + q3 && b[1] as int == 0x80 + r3;
    assert b[2] as int == 0x80 + r2 && b[3] as int == 0x80 + r;
  }

  /** Decoding the UTF-8 encoding of a string gives the string back. */
  lemma {:induction false} Utf8RoundTrip(s: string)
    ensures Utf8Decode(Utf8(s)) == Some(s)
  {
    if s != [] {
      var e := Utf8Char(s[0]);
      var tail := Utf8(s[1..]);
      assert Utf8(s) == e + tail;
      DecodeCharOfEncoded(s[0], tail);
      assert (e + tail)[|e|..] == tail;
      Utf8RoundTrip(s[1..]);
      assert [s[0]] + s[1..] == s;
    }
  }

  /** UTF-8 encoding is injective: distinct strings have distinct bytes. */
  lemma Utf8Injective(s: string, t: string)
    requires Utf8(s) == Utf8(t)
    ensures s == t
  {
    Utf8RoundTrip(s);
    Utf8RoundTrip(t);
  }

  // ---------------------------------------------------------------------------
  // str::trim
  // ---------------------------------------------------------------------------

  /** Unicode's White_Space property, which `char::is_whitespace` tests. */
  predicate IsWhitespace(c: char) {
    || ('\t' <= c <= '\r')
    || c == ' '
    || c == '\U{0085}'
    || c == '\U{00A0}'
    || c == '\U{1680}'
    || ('\U{2000}' <= c <= '\U{200A}')
    || c == '\U{2028}'
    || c == '\U{2029}'
    || c == '\U{202F}'
    || c == '\U{205F}'
    || c == '\U{3000}'
  }

  predicate AllWhitespace(s: string) {
    forall i :: 0 <= i < |s| ==> IsWhitespace(s[i])
  }

  /** `str::trim_start`: `r` is the longest suffix of `s` not starting with whitespace. */
  function TrimStart(s: string): (r: string)
    ensures |r| <= |s| && r == s[|s| - |r|..]
    ensures AllWhitespace(s[..|s| - |r|])
    ensures r == [] || !IsWhitespace(r[0])
  {
    if s != [] && IsWhitespace(s[0]) then
      var r := TrimStart(s[1..]);
      WhitespaceHead(s, r);
      r
    else s
  }

  /** A suffix of `s[1..]` behind whitespace is a suffix of `s` behind whitespace when `s[0]` is whitespace. */
  lemma WhitespaceHead(s: string, r: string)
    requires s != [] && IsWhitespace(s[0])
    requires |r| <= |s| - 1 && r == s[1..][|s| - 1 - |r|..] && AllWhitespace(s[1..][..|s| - 1 - |r|])
    ensures r == s[|s| - |r|..] && AllWhitespace(s[..|s| - |r|])
  {
    assert s[..|s| - |r|] == [s[0]] + s[1..][..|s| - 1 - |r|];
  }

  /** `str::trim_end`: `r` is the longest prefix of `s` not ending in whitespace. */
  function TrimEnd(s: string): (r: string)
    ensures |r| <= |s| && r == s[..|r|]
    ensures AllWhitespace(s[|r|..])
    ensures r == [] || !IsWhitespace(r[|r| - 1])
  {
    if s != [] && IsWhitespace(s[|s| - 1]) then
      var r := TrimEnd(s[..|s| - 1]);
      WhitespaceTail(s, r);
      r
    else s
  }

  /** A prefix of `s[..|s| - 1]` before whitespace is a prefix of `s` before whitespace when `s`'s last character is whitespace. */
  lemma WhitespaceTail(s: string, r: string)
    requires s != [] && IsWhitespace(s[|s| - 1])
    requires |r| <= |s| - 1 && r == s[..|s| - 1][..|r|] && AllWhitespace(s[..|s| - 1][|r|..])
    ensures r == s[..|r|] && AllWhitespace(s[|r|..])
  {
    assert s[|r|..] == s[..|s| - 1][|r|..] + [s[|s| - 1]];
  }

  /** `r` is `s` with some leading and some trailing whitespace removed, and nothing else. */
  predicate IsInfixPaddedBy(r: string, s: string) {
    exists i :: 0 <= i <= |s| - |r| && r == s[i..i + |r|]
                && AllWhitespace(s[..i]) && AllWhitespace(s[i + |r|..])
  }

  /**
   * `str::trim`: `r` is `s` with its leading and trailing whitespace removed,
   * and nothing else.
   */
  function Trim(s: string): (r: string)
    ensures r == [] || (!IsWhitespace(r[0]) && !IsWhitespace(r[|r| - 1]))
    ensures IsInfixPaddedBy(r, s)
  {
    var t := TrimStart(s);
    var r := TrimEnd(t);
    assert r == [] || r[0] == t[0];
    TrimInfix(s, t, r);
    r
  }

  /** A prefix of a suffix, each cut off at whitespace, is a whitespace-padded infix. */
  lemma TrimInfix(s: string, t: string, r: string)
    requires |t| <= |s| && t == s[|s| - |t|..] && AllWhitespace(s[..|s| - |t|])
    requires |r| <= |t| && r == t[..|r|] && AllWhitespace(t[|r|..])
    ensures IsInfixPaddedBy(r, s)
  {
    var i := |s| - |t|;
    assert r == s[i..i + |r|];
    assert s[i + |r|..] == t[|r|..];
  }

  /** A text made of whitespace only trims to the empty string. */
  lemma TrimBlank(s: string)
    requires AllWhitespace(s)
    ensures Trim(s) == []
  {
  }

  lemma {:induction false} TrimStartPadded(l: string, x: string)
    requires AllWhitespace(l)
    requires x == [] || !IsWhitespace(x[0])
    ensures TrimStart(l + x) == x
  {
    if l == [] {
      assert l + x == x;
    } else {
      assert (l + x)[0] == l[0];
      assert (l + x)[1..] == l[1..] + x;
      TrimStartPadded(l[1..], x);
    }
  }

  lemma {:induction false} TrimEndPadded(x: string, r: string)
    requires AllWhitespace(r)
    requires x == [] || !IsWhitespace(x[|x| - 1])
    ensures TrimEnd(x + r) == x
  {
    if r == [] {
      assert x + r == x;
    } else {
      var r' := r[..|r| - 1];
      assert (x + r)[|x + r| - 1] == r[|r| - 1];
      assert (x + r)[..|x + r| - 1] == x + r';
      TrimEndPadded(x, r');
    }
  }

  /** Trimming removes exactly the whitespace padding around a text with non-blank ends. */
  lemma TrimPadded(l: string, x: string, r: string)
    requires AllWhitespace(l) && AllWhitespace(r)
    requires x != [] && !IsWhitespace(x[0]) && !IsWhitespace(x[|x| - 1])
    ensures Trim(l + x + r) == x
  {
    assert l + x + r == l + (x + r);
    assert (x + r)[0] == x[0];
    TrimStartPadded(l, x + r);
    TrimEndPadded(x, r);
  }

  // ---------------------------------------------------------------------------
  // Decimal rendering and parsing of u64
  // ---------------------------------------------------------------------------

  predicate IsDigit(c: char) {
    '0' <= c <= '9'
  }

  predicate AllDigits(s: string) {
    forall i :: 0 <= i < |s| ==> IsDigit(s[i])
  }

  function DigitChar(d: nat): (c: char)
    requires d < 10
    ensures IsDigit(c) && c as int - '0' as int == d
  {
    ('0' as int + d) as char
  }

  /** No leading zero, except for "0" itself. */
  predicate Canonical(s: string) {
    s != [] && AllDigits(s) && (|s| == 1 || s[0] != '0')
  }

  /** `n.to_string()` (the `Display` form of an unsigned integer). */
  function Decimal(n: nat): (s: string)
    ensures Canonical(s)
    decreases n
  {
    if n < 10 then [DigitChar(n)] else Decimal(n / 10) + [DigitChar(n % 10)]
  }

  /** The value of a string of decimal digits, most significant first. */
  function DigitsValue(s: string): nat
    requires AllDigits(s)
  {
    if s == [] then 0 else DigitsValue(s[..|s| - 1]) * 10 + (s[|s| - 1] as int - '0' as int)
  }

  predicate AllZeros(s: string) {
    forall i :: 0 <= i < |s| ==> s[i] == '0'
  }

  /** `s` is an optional `+`, then any number of `0`s, then `d`. */
  predicate PaddedBy(s: string, d: string) {
    && |d| <= |s| && s[|s| - |d|..] == d
    && forall i :: 0 <= i < |s| - |d| ==> s[i] == '0' || (i == 0 && s[i] == '+')
  }

  /** `s` is an optional `+`, then any number of `0`s, then `Decimal(n)`. */
  predicate PaddedDecimal(s: string, n: nat) {
    PaddedBy(s, Decimal(n))
  }

  /**
   * `s.parse::<u64>()`: an optional `+` sign followed by at least one ASCII
   * digit, with a value that fits 64 bits. A lone sign, the empty string, any
   * other character and overflow are errors (their error kinds are not kept).
   * What is accepted is the value's decimal form behind a sign and zeros.
   */
  function ParseU64(s: string): (r: Option<u64>)
    ensures r.Some? ==> PaddedDecimal(s, r.value)
  {
    if s == [] || s == "+" || s == "-" then None
    else
      var k := if s[0] == '+' then 1 else 0;
      var digits := s[k..];
      if !AllDigits(digits) then None
      else if DigitsValue(digits) > U64_MAX then None
      else
        ParsedIsPadded(s, k);
        Some(DigitsValue(digits))
  }

  lemma ParsedIsPadded(s: string, k: nat)
    requires k <= 1 && k < |s| && (k == 1 <==> s[0] == '+')
    requires AllDigits(s[k..])
    ensures PaddedDecimal(s, DigitsValue(s[k..]))
  {
    DigitsArePadded(s, k);
    DecimalOfDigitsValue(StripZeros(s[k..]));
  }

  /** An accepted digit string, behind an optional sign, is its value's decimal form behind zeros. */
  lemma DigitsArePadded(s: string, k: nat)
    requires k <= 1 && k < |s| && (k == 1 <==> s[0] == '+')
    requires AllDigits(s[k..])
    ensures PaddedBy(s, StripZeros(s[k..]))
    ensures DigitsValue(s[k..]) == DigitsValue(StripZeros(s[k..]))
  {
    var digits := s[k..];
    var c := StripZeros(digits);
    var z := |digits| - |c|;
    ZeroRunValue(digits, z);
    assert c == s[k + z..];
    assert digits[..z] == s[k..k + z];
    ZeroRunPadded(s, k, z);
  }

  lemma ZeroRunValue(d: string, k: nat)
    requires AllDigits(d) && k <= |d| && AllZeros(d[..k])
    ensures AllDigits(d[k..]) && DigitsValue(d) == DigitsValue(d[k..])
  {
    assert d == d[..k] + d[k..];
    ZeroPrefixValue(d[..k], d[k..]);
  }

  /** A sign of length `k` and a run of `z` zeros leave `s` padding what follows them. */
  lemma ZeroRunPadded(s: string, k: nat, z: nat)
    requires k <= 1 && k + z <= |s| && (k == 1 ==> s[0] == '+') && AllZeros(s[k..k + z])
    ensures PaddedBy(s, s[k + z..])
  {
    forall i | 0 <= i < k + z
      ensures s[i] == '0' || (i == 0 && s[i] == '+')
    {
      if i >= k {
        assert s[i] == s[k..k + z][i - k];
      }
    }
  }

  /** The digits of `d` after its leading zeros (keeping one digit). */
  function StripZeros(d: string): (c: string)
    requires d != [] && AllDigits(d)
    ensures Canonical(c) && |c| <= |d| && c == d[|d| - |c|..] && AllZeros(d[..|d| - |c|])
    decreases |d|
  {
    if |d| > 1 && d[0] == '0' then
      var c := StripZeros(d[1..]);
      assert d[..|d| - |c|] == [d[0]] + d[1..][..|d| - 1 - |c|];
      c
    else d
  }

  lemma {:induction false} ZerosValue(z: string)
    requires AllZeros(z)
    ensures AllDigits(z) && DigitsValue(z) == 0
    decreases |z|
  {
    if z != [] {
      ZerosValue(z[..|z| - 1]);
    }
  }

  /** Leading zeros do not change a digit string's value. */
  lemma {:induction false} ZeroPrefixValue(z: string, x: string)
    requires AllZeros(z) && AllDigits(x)
    ensures AllDigits(z + x) && DigitsValue(z + x) == DigitsValue(x)
    decreases |x|
  {
    ZerosValue(z);
    if x == [] {
      assert z + x == z;
    } else {
      var x' := x[..|x| - 1];
      assert (z + x)[..|z + x| - 1] == z + x';
      assert (z + x)[|z + x| - 1] == x[|x| - 1];
      ZeroPrefixValue(z, x');
    }
  }

  /**
   * The other direction of `ParseU64`'s contract: a u64's decimal form behind
   * an optional `+` and any number of zeros parses to it.
   */
  lemma ParsePadded(s: string, n: u64)
    requires PaddedDecimal(s, n)
    ensures ParseU64(s) == Some(n)
  {
    PaddedDigits(s, Decimal(n));
    DigitsValueOfDecimal(n);
  }

  /** Stripping the sign of a zero-padded digit string leaves digits of the same value. */
  lemma PaddedDigits(s: string, d: string)
    requires PaddedBy(s, d) && d != [] && AllDigits(d)
    ensures s != [] && s != "+" && s != "-"
    ensures var digits := if s[0] == '+' then s[1..] else s;
      AllDigits(digits) && DigitsValue(digits) == DigitsValue(d)
  {
    var k := |s| - |d|;
    assert s == s[..k] + d;
    assert s[|s| - 1] == d[|d| - 1];
    var digits := if s[0] == '+' then s[1..] else s;
    var z := digits[..|digits| - |d|];
    assert digits == z + d;
    assert AllZeros(z) by {
      forall j | 0 <= j < |z|
        ensures z[j] == '0'
      {
        if s[0] == '+' {
          assert z[j] == s[j + 1];
        } else {
          assert z[j] == s[j];
        }
      }
    }
    ZeroPrefixValue(z, d);
  }

  /** Text that starts with neither a sign `+` nor a digit is not a u64. */
  lemma ParseRejectsLeadingNonDigit(s: string)
    requires s != [] && s[0] != '+' && !IsDigit(s[0])
    ensures ParseU64(s) == None
  {
    if s != "-" {
      assert !AllDigits(s);
    }
  }

  lemma {:induction false} DigitsValueOfDecimal(n: nat)
    ensures DigitsValue(Decimal(n)) == n
    decreases n
  {
    if n >= 10 {
      var s := Decimal(n);
      assert s[..|s| - 1] == Decimal(n / 10);
      DigitsValueOfDecimal(n / 10);
    }
  }

  lemma {:induction false} LeadingDigitPositive(s: string)
    requires Canonical(s) && |s| >= 2
    ensures DigitsValue(s) >= 10
  {
    var p := s[..|s| - 1];
    if |p| >= 2 {
      LeadingDigitPositive(p);
    } else {
      assert p[0] == s[0];
    }
  }

  /** A canonical digit string is the decimal rendering of its value. */
  lemma {:induction false} DecimalOfDigitsValue(s: string)
    requires Canonical(s)
    ensures Decimal(DigitsValue(s)) == s
    decreases |s|
  {
    if |s| >= 2 {
      var p := s[..|s| - 1];
      LeadingDigitPositive(s);
      assert p[0] == s[0];
      DecimalOfDigitsValue(p);
      assert s == p + [s[|s| - 1]];
    }
  }

  /** Parsing a rendered u64 gives it back. */
  lemma ParseDecimal(n: u64)
    ensures ParseU64(Decimal(n)) == Some(n)
  {
    DigitsValueOfDecimal(n);
    var s := Decimal(n);
    assert s[0] != '+' && s[0] != '-';
  }

  /** The only canonical spelling that parses to `n` is `Decimal(n)`. */
  lemma ParseCanonical(s: string, n: u64)
    requires Canonical(s) && ParseU64(s) == Some(n)
    ensures s == Decimal(n)
  {
    DecimalOfDigitsValue(s);
  }

  // ---------------------------------------------------------------------------
  // Hex digits
  // ---------------------------------------------------------------------------

  const LOWER_HEX_DIGITS: string := "0123456789abcdef"
  const UPPER_HEX_DIGITS: string := "0123456789ABCDEF"

  predicate IsLowerHexDigit(c: char) {
    IsDigit(c) || 'a' <= c <= 'f'
  }

  predicate IsUpperHexDigit(c: char) {
    IsDigit(c) || 'A' <= c <= 'F'
  }

  /** The value of a hex digit of either case. */
  function HexDigitValue(c: char): (r: Option<nat>)
    ensures r.Some? ==> r.value < 16
  {
    if IsDigit(c) then Some(c as int - '0' as int)
    else if 'a' <= c <= 'f' then Some(c as int - 'a' as int + 10)
    else if 'A' <= c <= 'F' then Some(c as int - 'A' as int + 10)
    else None
  }

  lemma HexDigitsValues(d: nat)
    requires d < 16
    ensures IsLowerHexDigit(LOWER_HEX_DIGITS[d]) && HexDigitValue(LOWER_HEX_DIGITS[d]) == Some(d)
    ensures IsUpperHexDigit(UPPER_HEX_DIGITS[d]) && HexDigitValue(UPPER_HEX_DIGITS[d]) == Some(d)
  {
  }

  /** The `{:x}` rendering of a byte string: two lowercase digits per byte. */
  function LowerHex(d: seq<byte>): (h: string)
    ensures |h| == 2 * |d|
    ensures forall i :: 0 <= i < |h| ==> IsLowerHexDigit(h[i])
  {
    if d == [] then []
    else
      HexDigitsValues(d[0] as int / 16);
      HexDigitsValues(d[0] as int % 16);
      [LOWER_HEX_DIGITS[d[0] as int / 16], LOWER_HEX_DIGITS[d[0] as int % 16]] + LowerHex(d[1..])
  }

  /** Reads a hex string back into bytes, two digits per byte. */
  function ParseHex(h: string): (r: Option<seq<byte>>)
    decreases |h|
  {
    if h == [] then Some([])
    else if |h| == 1 then None
    else match (HexDigitValue(h[0]), HexDigitValue(h[1]), ParseHex(h[2..]))
      case (Some(hi), Some(lo), Some(rest)) => Some([(hi * 16 + lo) as byte] + rest)
      case _ => None
  }

  /** Two hex digits in front of a readable rest read as one more byte. */
  lemma ParseHexCons(a: char, b: char, rest: string, x: nat, y: nat, tail: seq<byte>)
    requires HexDigitValue(a) == Some(x) && HexDigitValue(b) == Some(y) && ParseHex(rest) == Some(tail)
    ensures ParseHex([a, b] + rest) == Some([(x * 16 + y) as byte] + tail)
  {
    var h := [a, b] + rest;
    assert h[0] == a && h[1] == b && h[2..] == rest;
  }

  /** One more byte in front reads back, given that the rest does. */
  lemma ParseLowerHexStep(b: byte, rest: seq<byte>)
    requires ParseHex(LowerHex(rest)) == Some(rest)
    ensures ParseHex(LowerHex([b] + rest)) == Some([b] + rest)
  {
    var d := [b] + rest;
    assert d[0] == b && d[1..] == rest;
    var hi, lo := b as int / 16, b as int % 16;
    HexDigitsValues(hi);
    HexDigitsValues(lo);
    assert LowerHex(d) == [LOWER_HEX_DIGITS[hi], LOWER_HEX_DIGITS[lo]] + LowerHex(rest);
    ParseHexCons(LOWER_HEX_DIGITS[hi], LOWER_HEX_DIGITS[lo], LowerHex(rest), hi, lo, rest);
    assert (hi * 16 + lo) as byte == b;
  }

  /** `LowerHex` loses nothing: the digest can be read back from its rendering. */
  lemma {:induction false} ParseLowerHex(d: seq<byte>)
    ensures ParseHex(LowerHex(d)) == Some(d)
  {
    if d != [] {
      ParseLowerHex(d[1..]);
      ParseLowerHexStep(d[0], d[1..]);
      assert [d[0]] + d[1..] == d;
    }
  }
}
