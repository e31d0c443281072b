/** QString::toUtf8 and QString::fromUtf8 over Unicode scalar values. The decoder skips a byte
    order mark at the very start, accepts exactly the shortest well-formed encodings and turns
    every byte that does not start one into U+FFFD, then resumes at the next byte. */
module Utf8 {

  /** An octet, by its value. */
  type byte = x: int | 0 <= x < 256
  type bytes = seq<byte>

  const Replacement: char := '\U{FFFD}'

  /** U+FEFF, and its UTF-8 encoding. */
  const ByteOrderMark: char := '\U{FEFF}'
  const BomBytes: bytes := [0xEF, 0xBB, 0xBF]

  predicate LeadsWithBom(s: string) {
    |s| > 0 && s[0] == ByteOrderMark
  }

  /** The text without its leading byte order mark, if it has one. */
  function DropBom(s: string): (r: string)
    ensures LeadsWithBom(s) ==> [ByteOrderMark] + r == s
    ensures !LeadsWithBom(s) ==> r == s
  {
    if LeadsWithBom(s) then s[1..] else s
  }

  predicate IsContinuation(b: byte) {
    0x80 <= b < 0xC0
  }

  function EncodeChar(c: char): (r: bytes)
    ensures 1 <= |r| <= 4
    ensures |r| == 1 <==> c as int < 0x80
  {
    var n := c as int;
    if n < 0x80 then [n]
    else if n < 0x800 then [0xC0 + n / 64, 0x80 + n % 64]
    else if n < 0x10000 then [0xE0 + n / 4096, 0x80 + (n / 64) % 64, 0x80 + n % 64]
    else [0xF0 + n / 262144, 0x80 + (n / 4096) % 64, 0x80 + (n / 64) % 64, 0x80 + n % 64]
  }

  /** QString::toUtf8. */
  function Encode(s: string): (r: bytes)
    ensures |r| >= |s|
    ensures s == [] <==> r == []
  {
    if s == [] then [] else EncodeChar(s[0]) + Encode(s[1..])
  }

  /** One decoding step: the character starting at b[0] and the number of bytes it takes. */
  function DecodeOne(b: bytes): (r: (char, nat))
    requires |b| > 0
    ensures 1 <= r.1 <= |b|
  {
    var b0: int := b[0];
    if b0 < 0x80 then (b0 as char, 1)
    else if 0xC2 <= b0 < 0xE0 && |b| >= 2 && IsContinuation(b[1]) then
      (((b0 - 0xC0) * 64 + (b[1] as int - 0x80)) as char, 2)
    else if 0xE0 <= b0 < 0xF0 && |b| >= 3 && IsContinuation(b[1]) && IsContinuation(b[2]) then
      var v := (b0 - 0xE0) * 4096 + (b[1] as int - 0x80) * 64 + (b[2] as int - 0x80);
      if 0x800 <= v && !(0xD800 <= v < 0xE000) then (v as char, 3) else (Replacement, 1)
    else if 0xF0 <= b0 < 0xF5 && |b| >= 4 && IsContinuation(b[1]) && IsContinuation(b[2])
            && IsContinuation(b[3]) then
      var v := (b0 - 0xF0) * 262144 + (b[1] as int - 0x80) * 4096 + (b[2] as int - 0x80) * 64 + (b[3] as int - 0x80);
      if 0x10000 <= v <= 0x10FFFF then (v as char, 4) else (Replacement, 1)
    else (Replacement, 1)
  }

  /** The decoding loop: never fails; malformed input yields replacement characters. */
  function DecodeFrom(b: bytes): (s: string)
    ensures |s| <= |b|
    decreases |b|
  {
    if b == [] then []
    else
      var d := DecodeOne(b);
      [d.0] + DecodeFrom(b[d.1..])
  }

  /** QString::fromUtf8: EF BB BF at byte 0 is skipped, the rest goes through the loop. */
  function Decode(b: bytes): (s: string)
    ensures |s| <= |b|
    ensures |b| >= 3 && b[..3] == BomBytes ==> |s| <= |b| - 3
  {
    if |b| >= 3 && b[..3] == BomBytes then DecodeFrom(b[3..]) else DecodeFrom(b)
  }

  lemma SplitTwo(n: nat)
    ensures n == (n / 64) * 64 + n % 64
  {
  }

  lemma SplitThree(n: nat)
    ensures n == (n / 4096) * 4096 + ((n / 64) % 64) * 64 + n % 64
  {
    var q := n / 64;
    assert n == q * 64 + n % 64;
    assert q == (q / 64) * 64 + q % 64;
    assert n / 4096 == q / 64;
  }

  lemma SplitFour(n: nat)
    ensures n == (n / 262144) * 262144 + ((n / 4096) % 64) * 4096 + ((n / 64) % 64) * 64 + n % 64
  {
    var q := n / 4096;
    SplitThree(n);
    assert q == (q / 64) * 64 + q % 64;
    assert n / 262144 == q / 64;
  }

  lemma DecodeOneOne(c: char, rest: bytes)
    requires c as int < 0x80
    ensures DecodeOne(EncodeChar(c) + rest) == (c, 1)
  {
    var b := EncodeChar(c) + rest;
    assert b[0] == c as int;
  }

  lemma DecodeTwoDigits(b: bytes, d0: int, d1: int)
    requires |b| >= 2 && 2 <= d0 < 32 && 0 <= d1 < 64
    requires b[0] == 0xC0 + d0 && b[1] == 0x80 + d1
    ensures DecodeOne(b) == ((d0 * 64 + d1) as char, 2)
  {
  }

  lemma DecodeOneTwo(c: char, rest: bytes)
    requires 0x80 <= c as int < 0x800
    ensures DecodeOne(EncodeChar(c) + rest) == (c, 2)
  {
    var n := c as int;
    var b := EncodeChar(c) + rest;
    SplitTwo(n);
    DecodeTwoDigits(b, n / 64, n % 64);
  }

  lemma DecodeThreeDigits(b: bytes, d0: int, d1: int, d2: int)
    requires |b| >= 3 && 0 <= d0 < 16 && 0 <= d1 < 64 && 0 <= d2 < 64
    requires b[0] == 0xE0 + d0 && b[1] == 0x80 + d1 && b[2] == 0x80 + d2
    requires 0x800 <= d0 * 4096 + d1 * 64 + d2 && !(0xD800 <= d0 * 4096 + d1 * 64 + d2 < 0xE000)
    ensures DecodeOne(b) == ((d0 * 4096 + d1 * 64 + d2) as char, 3)
  {
  }

  lemma DecodeOneThree(c: char, rest: bytes)
    requires 0x800 <= c as int < 0x10000
    ensures DecodeOne(EncodeChar(c) + rest) == (c, 3)
  {
    var n := c as int;
    var b := EncodeChar(c) + rest;
    SplitThree(n);
    DecodeThreeDigits(b, n / 4096, (n / 64) % 64, n % 64);
  }

  lemma DecodeFourDigits(b: bytes, d0: int, d1: int, d2: int, d3: int)
    requires |b| >= 4 && 0 <= d0 <= 4 && 0 <= d1 < 64 && 0 <= d2 < 64 && 0 <= d3 < 64
    requires b[0] == 0xF0 + d0 && b[1] == 0x80 + d1 && b[2] == 0x80 + d2 && b[3] == 0x80 + d3
    requires 0x10000 <= d0 * 262144 + d1 * 4096 + d2 * 64 + d3 <= 0x10FFFF
    ensures DecodeOne(b) == ((d0 * 262144 + d1 * 4096 + d2 * 64 + d3) as char, 4)
  {
  }

  lemma DecodeOneFour(c: char, rest: bytes)
    requires 0x10000 <= c as int
    ensures DecodeOne(EncodeChar(c) + rest) == (c, 4)
  {
    var n := c as int;
    var b := EncodeChar(c) + rest;
    SplitFour(n);
    DecodeFourDigits(b, n / 262144, (n / 4096) % 64, (n / 64) % 64, n % 64);
  }

  lemma DecodeOneEncodeChar(c: char, rest: bytes)
    ensures DecodeOne(EncodeChar(c) + rest) == (c, |EncodeChar(c)|)
  {
    var n := c as int;
    if n < 0x80 {
      DecodeOneOne(c, rest);
    } else if n < 0x800 {
      assert |EncodeChar(c)| == 2;
      DecodeOneTwo(c, rest);
    } else if n < 0x10000 {
      assert |EncodeChar(c)| == 3;
      DecodeOneThree(c, rest);
    } else {
      assert |EncodeChar(c)| == 4;
      DecodeOneFour(c, rest);
    }
  }

  /** toUtf8 encodes character by character: the bytes of a concatenation are the bytes of its
      parts. */
  lemma {:induction false} EncodeAppend(s: string, t: string)
    ensures Encode(s + t) == Encode(s) + Encode(t)
  {
    if s != [] {
      assert (s + t)[0] == s[0] && (s + t)[1..] == s[1..] + t;
      EncodeAppend(s[1..], t);
      assert Encode(s + t) == EncodeChar(s[0]) + (Encode(s[1..]) + Encode(t));
    } else {
      assert s + t == t;
    }
  }

  /** The decoding loop inverts toUtf8 on every string. */
  lemma {:induction false} DecodeFromEncode(s: string)
    ensures DecodeFrom(Encode(s)) == s
  {
    if s != [] {
      var e := EncodeChar(s[0]);
      var b := Encode(s);
      assert b == e + Encode(s[1..]);
      DecodeOneEncodeChar(s[0], Encode(s[1..]));
      assert b[|e|..] == Encode(s[1..]);
      DecodeFromEncode(s[1..]);
    }
  }

  /** The encoded text starts with EF BB BF exactly when the text starts with U+FEFF. */
  lemma EncodeLeadsWithBom(s: string)
    ensures |Encode(s)| >= 3 && Encode(s)[..3] == BomBytes <==> LeadsWithBom(s)
  {
    if s != [] {
      var b := Encode(s);
      assert b == EncodeChar(s[0]) + Encode(s[1..]);
      DecodeOneEncodeChar(s[0], Encode(s[1..]));
      if |b| >= 3 && b[..3] == BomBytes {
        assert b[0] == 0xEF && b[1] == 0xBB && b[2] == 0xBF;
        DecodeThreeDigits(b, 15, 59, 63);
      }
      if s[0] == ByteOrderMark {
        assert EncodeChar(s[0]) == BomBytes;
      }
    }
  }

  /** fromUtf8(toUtf8(s)) is s without a leading U+FEFF: every other string comes back as it was. */
  lemma DecodeEncode(s: string)
    ensures Decode(Encode(s)) == DropBom(s)
    ensures !LeadsWithBom(s) ==> Decode(Encode(s)) == s
  {
    EncodeLeadsWithBom(s);
    if LeadsWithBom(s) {
      assert Encode(s) == BomBytes + Encode(s[1..]);
      assert Encode(s)[3..] == Encode(s[1..]);
      DecodeFromEncode(s[1..]);
    } else {
      DecodeFromEncode(s);
    }
  }

  /** A leading U+FEFF does not survive toUtf8 and fromUtf8. */
  lemma BomDropped(s: string)
    ensures Decode(Encode([ByteOrderMark] + s)) == s
  {
    DecodeEncode([ByteOrderMark] + s);
    assert ([ByteOrderMark] + s)[1..] == s;
  }
}
