/** QByteArray::toBase64 and QByteArray::fromBase64 with their default options: the standard
    alphabet of section 4 of RFC 4648 with '=' padding on encoding, and on decoding a bit
    accumulator that takes six bits from every alphabet character, ignores every other character
    (padding included), and emits a byte whenever it holds eight bits. Decoding works on the
    characters of the text; a character outside Latin-1, which toLatin1 turns into '?', is ignored
    like any other non-alphabet character. */
module Base64 {
  import opened Utf8

  /** The character for a six-bit value. */
  function Digit(d: nat): (c: char)
    requires d < 64
    ensures SextetValue(c) == d
  {
    if d < 26 then ('A' as int + d) as char
    else if d < 52 then ('a' as int + d - 26) as char
    else if d < 62 then ('0' as int + d - 52) as char
    else if d == 62 then '+'
    else '/'
  }

  /** The six-bit value of an alphabet character, -1 for any other character. */
  function SextetValue(c: char): (d: int)
    ensures -1 <= d < 64
  {
    if 'A' <= c <= 'Z' then c as int - 'A' as int
    else if 'a' <= c <= 'z' then c as int - 'a' as int + 26
    else if '0' <= c <= '9' then c as int - '0' as int + 52
    else if c == '+' then 62
    else if c == '/' then 63
    else -1
  }

  /** Three bytes as four characters. */
  function Quad(v0: nat, v1: nat, v2: nat): string
    requires v0 < 256 && v1 < 256 && v2 < 256
  {
    [Digit(v0 / 4), Digit((v0 % 4) * 16 + v1 / 16), Digit((v1 % 16) * 4 + v2 / 64), Digit(v2 % 64)]
  }

  /** Two final bytes as three characters and one '='. */
  function Pair(v0: nat, v1: nat): string
    requires v0 < 256 && v1 < 256
  {
    [Digit(v0 / 4), Digit((v0 % 4) * 16 + v1 / 16), Digit((v1 % 16) * 4), '=']
  }

  /** One final byte as two characters and two '='. */
  function Single(v0: nat): string
    requires v0 < 256
  {
    [Digit(v0 / 4), Digit((v0 % 4) * 16), '=', '=']
  }

  /** QByteArray::toBase64: four characters for every three bytes or fewer, so the text length is
      a multiple of four. */
  function Encode(b: bytes): (r: string)
    ensures |r| == 4 * ((|b| + 2) / 3)
  {
    if b == [] then []
    else if |b| == 1 then Single(b[0])
    else if |b| == 2 then Pair(b[0], b[1])
    else Quad(b[0], b[1], b[2]) + Encode(b[3..])
  }

  /** 2 to the power `bits`, for the accumulator sizes that occur. */
  function Scale(bits: nat): (p: nat)
    requires bits in {0, 2, 4, 6}
  {
    if bits == 0 then 1 else if bits == 2 then 4 else if bits == 4 then 16 else 64
  }

  /** The accumulator holds `bits` bits, valued `buf`: between two characters it holds 0, 2, 4
      or 6 bits. */
  predicate Accumulator(buf: nat, bits: nat) {
    bits in {0, 2, 4, 6} && buf < Scale(bits)
  }

  /** QByteArray::fromBase64 from accumulator state (`buf`, `bits`). */
  function DecodeFrom(s: string, buf: nat, bits: nat): bytes
    requires Accumulator(buf, bits)
  {
    if s == [] then []
    else
      var d := SextetValue(s[0]);
      if d < 0 then DecodeFrom(s[1..], buf, bits)
      else if bits == 0 then DecodeFrom(s[1..], d, 6)
      else
        var acc := buf * 64 + d;
        var p := Scale(bits - 2);
        AccumulatorSplit(buf, d, bits);
        [acc / p] + DecodeFrom(s[1..], acc % p, bits - 2)
  }

  /** With 2, 4 or 6 bits held, a further six make a byte and leave 0, 2 or 4 bits. */
  lemma AccumulatorSplit(buf: nat, d: nat, bits: nat)
    requires Accumulator(buf, bits) && d < 64 && bits != 0
    ensures (buf * 64 + d) / Scale(bits - 2) < 256
    ensures Accumulator((buf * 64 + d) % Scale(bits - 2), bits - 2)
  {
  }

  lemma Split(hi: nat, lo: nat, p: nat)
    requires p in {1, 4, 16} && lo < p
    ensures (hi * p + lo) / p == hi && (hi * p + lo) % p == lo
  {
    if p == 1 {
    } else if p == 4 {
      assert hi * p + lo == hi * 4 + lo;
    } else {
      assert hi * p + lo == hi * 16 + lo;
    }
  }

  function Decode(s: string): bytes {
    DecodeFrom(s, 0, 0)
  }

  lemma SkipFirst(c: char, rest: string, buf: nat, bits: nat)
    requires Accumulator(buf, bits) && SextetValue(c) < 0
    ensures DecodeFrom([c] + rest, buf, bits) == DecodeFrom(rest, buf, bits)
  {
    assert ([c] + rest)[1..] == rest;
  }

  lemma TakeFirst(c: char, rest: string)
    requires SextetValue(c) >= 0
    ensures DecodeFrom([c] + rest, 0, 0) == DecodeFrom(rest, SextetValue(c), 6)
  {
    assert ([c] + rest)[1..] == rest;
  }

  lemma EmitFirst(c: char, rest: string, buf: nat, bits: nat, v: nat, left: nat)
    requires Accumulator(buf, bits) && SextetValue(c) >= 0 && bits != 0
    requires buf * 64 + SextetValue(c) == v * Scale(bits - 2) + left && left < Scale(bits - 2)
    ensures Accumulator(left, bits - 2) && v < 256
    ensures DecodeFrom([c] + rest, buf, bits) == [v] + DecodeFrom(rest, left, bits - 2)
  {
    assert ([c] + rest)[1..] == rest;
    AccumulatorSplit(buf, SextetValue(c), bits);
    Split(v, left, Scale(bits - 2));
  }

  /** A full group of four characters gives its three bytes back and empties the accumulator. */
  lemma DecodeQuad(v0: nat, v1: nat, v2: nat, rest: string)
    requires v0 < 256 && v1 < 256 && v2 < 256
    ensures DecodeFrom(Quad(v0, v1, v2) + rest, 0, 0)
      == [v0, v1, v2] + DecodeFrom(rest, 0, 0)
  {
    var s1, s2, s3, s4 := v0 / 4, (v0 % 4) * 16 + v1 / 16, (v1 % 16) * 4 + v2 / 64, v2 % 64;
    var c1, c2, c3, c4 := Digit(s1), Digit(s2), Digit(s3), Digit(s4);
    assert Quad(v0, v1, v2) + rest == [c1] + ([c2] + ([c3] + ([c4] + rest)));
    TakeFirst(c1, [c2] + ([c3] + ([c4] + rest)));
    EmitFirst(c2, [c3] + ([c4] + rest), s1, 6, v0, v1 / 16);
    EmitFirst(c3, [c4] + rest, v1 / 16, 4, v1, v2 / 64);
    EmitFirst(c4, rest, v2 / 64, 2, v2, 0);
  }

  /** The last group for one remaining byte. */
  lemma DecodeSingle(v0: nat)
    requires v0 < 256
    ensures DecodeFrom(Single(v0), 0, 0) == [v0]
  {
    var s1, s2 := v0 / 4, (v0 % 4) * 16;
    var c1, c2 := Digit(s1), Digit(s2);
    assert Single(v0) == [c1] + ([c2] + (['='] + (['='] + [])));
    TakeFirst(c1, [c2] + (['='] + (['='] + [])));
    EmitFirst(c2, ['='] + (['='] + []), s1, 6, v0, 0);
    SkipFirst('=', ['='] + [], 0, 4);
    SkipFirst('=', [], 0, 4);
  }

  /** The last group for two remaining bytes. */
  lemma DecodePair(v0: nat, v1: nat)
    requires v0 < 256 && v1 < 256
    ensures DecodeFrom(Pair(v0, v1), 0, 0) == [v0, v1]
  {
    var s1, s2, s3 := v0 / 4, (v0 % 4) * 16 + v1 / 16, (v1 % 16) * 4;
    var c1, c2, c3 := Digit(s1), Digit(s2), Digit(s3);
    assert Pair(v0, v1) == [c1] + ([c2] + ([c3] + (['='] + [])));
    TakeFirst(c1, [c2] + ([c3] + (['='] + [])));
    EmitFirst(c2, [c3] + (['='] + []), s1, 6, v0, v1 / 16);
    EmitFirst(c3, ['='] + [], v1 / 16, 4, v1, 0);
    SkipFirst('=', [], 0, 2);
  }

  lemma DecodeEncodeOne(b: bytes)
    requires |b| == 1
    ensures Decode(Encode(b)) == b
  {
    DecodeSingle(b[0]);
  }

  lemma DecodeEncodeTwo(b: bytes)
    requires |b| == 2
    ensures Decode(Encode(b)) == b
  {
    var e := Pair(b[0], b[1]);
    assert Encode(b) == e;
    DecodePair(b[0], b[1]);
    assert DecodeFrom(e, 0, 0) == b;
  }

  lemma EncodeStep(b: bytes)
    requires |b| >= 3
    ensures Encode(b) == Quad(b[0], b[1], b[2]) + Encode(b[3..])
  {
  }

  /** Three bytes in front of a text that decodes to the rest of them. */
  lemma DecodeGroup(b: bytes, rest: string)
    requires |b| >= 3 && DecodeFrom(rest, 0, 0) == b[3..]
    ensures DecodeFrom(Quad(b[0], b[1], b[2]) + rest, 0, 0) == b
  {
    DecodeQuad(b[0], b[1], b[2], rest);
    assert [b[0], b[1], b[2]] + b[3..] == b;
  }

  /** fromBase64(toBase64(b)) == b. */
  lemma {:induction false} DecodeEncode(b: bytes)
    ensures Decode(Encode(b)) == b
  {
    if |b| == 1 {
      DecodeEncodeOne(b);
    } else if |b| == 2 {
      DecodeEncodeTwo(b);
    } else if |b| >= 3 {
      DecodeEncode(b[3..]);
      EncodeStep(b);
      DecodeGroup(b, Encode(b[3..]));
    }
  }
}
