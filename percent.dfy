/** QUrl::toPercentEncoding with its default arguments: the text is converted to UTF-8 and every
    byte outside the unreserved set of section 2.3 of RFC 3986 (ALPHA, DIGIT, '-', '.', '_', '~')
    is written as '%' followed by two upper-case hexadecimal digits (section 2.1 of RFC 3986). */
module Percent {
  import opened Utf8

  /** The unreserved set of section 2.3 of RFC 3986, by character code. */
  predicate IsUnreserved(v: int) {
    ('A' as int <= v <= 'Z' as int) || ('a' as int <= v <= 'z' as int)
    || ('0' as int <= v <= '9' as int) || v == '-' as int || v == '.' as int
    || v == '_' as int || v == '~' as int
  }

  predicate IsUpperHex(c: char) {
    ('0' <= c <= '9') || ('A' <= c <= 'F')
  }

  function HexDigit(d: nat): (c: char)
    requires d < 16
    ensures IsUpperHex(c)
  {
    if d < 10 then ('0' as int + d) as char else ('A' as int + d - 10) as char
  }

  function HexValue(c: char): (d: nat)
    requires IsUpperHex(c)
    ensures d < 16
  {
    if c <= '9' then c as int - '0' as int else c as int - 'A' as int + 10
  }

  function EncodeByte(b: byte): (r: string)
    ensures IsUnreserved(b) ==> r == [b as char]
    ensures !IsUnreserved(b) ==> |r| == 3 && r[0] == '%' && IsUpperHex(r[1]) && IsUpperHex(r[2])
  {
    if IsUnreserved(b) then [b as char]
    else ['%', HexDigit(b / 16), HexDigit(b % 16)]
  }

  function EncodeBytes(b: bytes): string {
    if b == [] then [] else EncodeByte(b[0]) + EncodeBytes(b[1..])
  }

  /** QUrl::toPercentEncoding(text). */
  function PercentEncode(s: string): string {
    EncodeBytes(Encode(s))
  }

  /** Characters that can appear in an encoding: unreserved ones, '%' and upper-case hex digits. */
  predicate IsEncodingChar(c: char) {
    IsUnreserved(c as int) || c == '%' || IsUpperHex(c)
  }

  /** QByteArray::fromPercentEncoding over a text whose characters are bytes. */
  function DecodeBytes(s: string): bytes {
    if s == [] then []
    else if |s| >= 3 && s[0] == '%' && IsUpperHex(s[1]) && IsUpperHex(s[2]) then
      [HexValue(s[1]) * 16 + HexValue(s[2])] + DecodeBytes(s[3..])
    else [s[0] as int % 256] + DecodeBytes(s[1..])
  }

  lemma {:induction false} EncodingAlphabet(b: bytes)
    ensures forall i :: 0 <= i < |EncodeBytes(b)| ==> IsEncodingChar(EncodeBytes(b)[i])
  {
    if b != [] {
      EncodingAlphabet(b[1..]);
      var e := EncodeByte(b[0]);
      assert EncodeBytes(b) == e + EncodeBytes(b[1..]);
    }
  }

  lemma HexRoundTrip(d: nat)
    requires d < 16
    ensures HexValue(HexDigit(d)) == d
  {
  }

  lemma DecodeUnreserved(b: byte, rest: string)
    requires IsUnreserved(b)
    ensures DecodeBytes([b as char] + rest) == [b] + DecodeBytes(rest)
  {
    var s := [b as char] + rest;
    assert s[0] != '%';
    assert s[1..] == rest;
  }

  lemma DecodeEscaped(b: byte, rest: string)
    requires !IsUnreserved(b)
    ensures DecodeBytes(EncodeByte(b) + rest) == [b] + DecodeBytes(rest)
  {
    var v: int := b;
    var hi, lo := v / 16, v % 16;
    HexRoundTrip(hi);
    HexRoundTrip(lo);
    var s := EncodeByte(b) + rest;
    assert s[0] == '%' && s[1] == HexDigit(hi) && s[2] == HexDigit(lo) && s[3..] == rest;
    assert hi * 16 + lo == v;
  }

  lemma DecodeEncodeByte(b: byte, rest: string)
    ensures DecodeBytes(EncodeByte(b) + rest) == [b] + DecodeBytes(rest)
  {
    if IsUnreserved(b) {
      DecodeUnreserved(b, rest);
    } else {
      DecodeEscaped(b, rest);
    }
  }

  /** Decoding an encoding gives the bytes back. */
  lemma {:induction false} DecodeEncodeBytes(b: bytes)
    ensures DecodeBytes(EncodeBytes(b)) == b
  {
    if b != [] {
      DecodeEncodeByte(b[0], EncodeBytes(b[1..]));
      DecodeEncodeBytes(b[1..]);
    }
  }

  /** The percent-encoding of a text determines the text: its UTF-8 bytes decode back to it. */
  lemma PercentEncodeInverse(s: string)
    ensures DecodeFrom(DecodeBytes(PercentEncode(s))) == s
  {
    DecodeEncodeBytes(Encode(s));
    DecodeFromEncode(s);
  }

  lemma {:induction false} EncodeBytesAppend(a: bytes, b: bytes)
    ensures EncodeBytes(a + b) == EncodeBytes(a) + EncodeBytes(b)
  {
    if a != [] {
      assert (a + b)[0] == a[0] && (a + b)[1..] == a[1..] + b;
      EncodeBytesAppend(a[1..], b);
      assert EncodeBytes(a + b) == EncodeByte(a[0]) + (EncodeBytes(a[1..]) + EncodeBytes(b));
    } else {
      assert a + b == b;
    }
  }

  /** Text is encoded piece by piece: the encoding of a concatenation is the concatenation of
      the encodings. */
  lemma PercentEncodeAppend(s: string, t: string)
    ensures PercentEncode(s + t) == PercentEncode(s) + PercentEncode(t)
  {
    EncodeAppend(s, t);
    EncodeBytesAppend(Encode(s), Encode(t));
  }

  /** Every space of a text becomes "%20", wherever it stands. */
  lemma SpaceIsEscaped(s: string, t: string)
    ensures PercentEncode(s + " " + t) == PercentEncode(s) + "%20" + PercentEncode(t)
  {
    PercentEncodeAppend(s + " ", t);
    PercentEncodeAppend(s, " ");
    assert Encode(" ") == EncodeChar(' ') + Encode([]);
    assert EncodeBytes([0x20]) == EncodeByte(0x20) + EncodeBytes([]);
  }

  lemma UnreservedChar(c: char)
    requires IsUnreserved(c as int)
    ensures Encode([c]) == [c as int]
    ensures EncodeByte(c as int) == [c]
  {
    assert Encode([c]) == EncodeChar(c) + Encode([]);
  }

  /** Text made of unreserved ASCII characters is its own percent-encoding. */
  lemma {:induction false} UnreservedUnchanged(s: string)
    requires forall i :: 0 <= i < |s| ==> IsUnreserved(s[i] as int)
    ensures PercentEncode(s) == s
  {
    if s != [] {
      UnreservedUnchanged(s[1..]);
      UnreservedChar(s[0]);
      var b: byte := s[0] as int;
      assert Encode(s) == EncodeChar(s[0]) + Encode(s[1..]);
      assert EncodeChar(s[0]) == Encode([s[0]]);
      var rest := Encode(s[1..]);
      assert ([b] + rest)[1..] == rest;
      assert EncodeBytes([b] + rest) == EncodeByte(b) + EncodeBytes(rest);
      assert s == [s[0]] + s[1..];
    }
  }
}
