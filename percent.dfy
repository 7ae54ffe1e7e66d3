/**
 * Percent-encoding of one URL path segment, as the `urlencoding` crate's
 * `encode` does it: the string's UTF-8 bytes are taken one at a time; the
 * unreserved characters of section 2.3 of RFC 3986 stand for themselves and
 * every other byte becomes `%` followed by two uppercase hex digits (the
 * percent-encoding of section 2.1 of RFC 3986).
 */
module Percent {
  import opened Wrappers
  import opened Text

  /** ALPHA / DIGIT / "-" / "." / "_" / "~" */
  predicate IsUnreserved(c: char) {
    || ('A' <= c <= 'Z')
    || ('a' <= c <= 'z')
    || IsDigit(c)
    || c == '-' || c == '.' || c == '_' || c == '~'
  }

  /** The characters an encoded segment may contain. */
  predicate IsEncodedChar(c: char) {
    IsUnreserved(c) || c == '%'
  }

  /** Every `%` in `t` starts an escape of two uppercase hex digits. */
  predicate UpperEscapes(t: string) {
    forall i :: 0 <= i < |t| && t[i] == '%' ==>
      i + 2 < |t| && IsUpperHexDigit(t[i + 1]) && IsUpperHexDigit(t[i + 2])
  }

  function EncodeByte(b: byte): (t: string)
    ensures IsUnreserved(b as int as char) ==> t == [b as int as char]
    ensures !IsUnreserved(b as int as char) ==>
      && |t| == 3 && t[0] == '%'
      && IsUpperHexDigit(t[1]) && HexDigitValue(t[1]) == Some(b as int / 16)
      && IsUpperHexDigit(t[2]) && HexDigitValue(t[2]) == Some(b as int % 16)
    ensures forall i :: 0 <= i < |t| ==> IsEncodedChar(t[i])
    ensures UpperEscapes(t)
  {
    var c := b as int as char;
    if IsUnreserved(c) then [c]
    else
      HexDigitsValues(b as int / 16);
      HexDigitsValues(b as int % 16);
      ['%', UPPER_HEX_DIGITS[b as int / 16], UPPER_HEX_DIGITS[b as int % 16]]
  }

  function EncodeBytes(bs: seq<byte>): (t: string)
    ensures forall i :: 0 <= i < |t| ==> IsEncodedChar(t[i])
    ensures UpperEscapes(t)
  {
    if bs == [] then []
    else
      var head, tail := EncodeByte(bs[0]), EncodeBytes(bs[1..]);
      UpperEscapesAppend(head, tail);
      head + tail
  }

  lemma UpperEscapesAppend(a: string, b: string)
    requires UpperEscapes(a) && UpperEscapes(b)
    ensures UpperEscapes(a + b)
  {
    var t := a + b;
    forall i | 0 <= i < |t| && t[i] == '%'
      ensures i + 2 < |t| && IsUpperHexDigit(t[i + 1]) && IsUpperHexDigit(t[i + 2])
    {
      if i < |a| {
        assert a[i] == '%';
      } else {
        assert b[i - |a|] == '%';
      }
    }
  }

  /**
   * `urlencoding::encode`: only unreserved characters and `%`, and every `%`
   * starts an uppercase hex escape.
   */
  function Encode(s: string): (t: string)
    ensures forall i :: 0 <= i < |t| ==> IsEncodedChar(t[i])
    ensures UpperEscapes(t)
  {
    EncodeBytes(Utf8(s))
  }

  /**
   * Percent-decoding (the reverse of section 2.1 of RFC 3986): `%` and two hex
   * digits of either case give one byte, an unreserved character gives its own
   * code, anything else is malformed.
   */
  function DecodeBytes(t: string): (r: Option<seq<byte>>)
    decreases |t|
  {
    if t == [] then Some([])
    else if t[0] == '%' then
      if |t| < 3 then None
      else match (HexDigitValue(t[1]), HexDigitValue(t[2]), DecodeBytes(t[3..]))
        case (Some(hi), Some(lo), Some(rest)) => Some([(hi * 16 + lo) as byte] + rest)
        case _ => None
    else if IsUnreserved(t[0]) then
      match DecodeBytes(t[1..])
      case Some(rest) => Some([t[0] as int as byte] + rest)
      case None => None
    else None
  }

  /** Decoding one encoded byte in front of a decodable rest. */
  lemma DecodeEncodeByte(b: byte, rest: string, tail: seq<byte>)
    requires DecodeBytes(rest) == Some(tail)
    ensures DecodeBytes(EncodeByte(b) + rest) == Some([b] + tail)
  {
    var e := EncodeByte(b);
    var t := e + rest;
    assert t[|e|..] == rest;
    if IsUnreserved(b as int as char) {
      assert t[0] == b as int as char;
    } else {
      assert t[0] == '%' && t[1] == e[1] && t[2] == e[2];
      assert (b as int / 16) * 16 + b as int % 16 == b as int;
    }
  }

  /** Decoding an encoded byte string gives it back. */
  lemma {:induction false} DecodeEncodeBytes(bs: seq<byte>)
    ensures DecodeBytes(EncodeBytes(bs)) == Some(bs)
  {
    if bs != [] {
      DecodeEncodeBytes(bs[1..]);
      DecodeEncodeByte(bs[0], EncodeBytes(bs[1..]), bs[1..]);
      assert [bs[0]] + bs[1..] == bs;
    }
  }

  /** A percent-encoded segment decodes to the UTF-8 bytes of the original string. */
  lemma DecodeEncode(s: string)
    ensures DecodeBytes(Encode(s)) == Some(Utf8(s))
  {
    DecodeEncodeBytes(Utf8(s));
  }

  /** Distinct strings encode to distinct segments. */
  lemma EncodeInjective(s: string, t: string)
    requires Encode(s) == Encode(t)
    ensures s == t
  {
    DecodeEncode(s);
    DecodeEncode(t);
    Utf8Injective(s, t);
  }

  /** An encoded segment never holds a path or query delimiter. */
  lemma EncodedHasNoDelimiter(s: string)
    ensures '/' !in Encode(s) && '?' !in Encode(s) && '#' !in Encode(s)
  {
  }

  /** The example `a/b` becomes `a%2Fb`. */
  lemma EncodeSlashExample()
    ensures Encode("a/b") == "a%2Fb"
  {
    Utf8OfThreeAscii('a', '/', 'b');
    assert "a/b" == ['a', '/', 'b'];
    EncodeThreeBytes(0x61, 0x2F, 0x62);
    assert EncodeByte(0x61) == "a";
    assert EncodeByte(0x2F) == "%2F" by {
      assert !IsUnreserved(0x2F as int as char);
      assert UPPER_HEX_DIGITS[2] == '2' && UPPER_HEX_DIGITS[15] == 'F';
    }
    assert EncodeByte(0x62) == "b";
    assert "a" + "%2F" + "b" == "a%2Fb";
  }

  lemma Utf8OfThreeAscii(x: char, y: char, z: char)
    requires x as int < 0x80 && y as int < 0x80 && z as int < 0x80
    ensures Utf8([x, y, z]) == [x as int as byte, y as int as byte, z as int as byte]
  {
    var s := [x, y, z];
    assert s[1..] == [y, z];
    assert s[1..][1..] == [z];
    assert s[1..][1..][1..] == [];
    assert Utf8([z]) == Utf8Char(z) + [];
    assert Utf8([y, z]) == Utf8Char(y) + Utf8([z]);
    assert Utf8(s) == Utf8Char(x) + Utf8([y, z]);
  }

  lemma EncodeThreeBytes(x: byte, y: byte, z: byte)
    ensures EncodeBytes([x, y, z]) == EncodeByte(x) + EncodeByte(y) + EncodeByte(z)
  {
    var bs := [x, y, z];
    assert bs[1..] == [y, z];
    assert bs[1..][1..] == [z];
    assert bs[1..][1..][1..] == [];
    assert EncodeBytes([z]) == EncodeByte(z) + [];
    assert EncodeBytes([y, z]) == EncodeByte(y) + EncodeBytes([z]);
    assert EncodeBytes(bs) == EncodeByte(x) + EncodeBytes([y, z]);
    assert EncodeByte(z) + [] == EncodeByte(z);
  }
}
