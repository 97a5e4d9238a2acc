/** Percent-decoding as the `percent_encoding` crate's `percent_decode_str`
    performs it: section 2.1 of RFC 3986, where `%` followed by two hex digits
    (of either case) stands for one byte, and a `%` not so followed is kept as
    it is rather than rejected. */
module Percent {
  import opened Utf8

  const PercentSign: byte := 0x25

  predicate IsHexDigit(b: byte) {
    (0x30 <= b <= 0x39) || (0x41 <= b <= 0x46) || (0x61 <= b <= 0x66)
  }

  /** `char::to_digit(16)` on an ASCII hex digit. */
  function HexValue(b: byte): (v: nat)
    requires IsHexDigit(b)
    ensures v < 16
  {
    if b <= 0x39 then b - 0x30 else if b <= 0x46 then b - 0x41 + 10 else b - 0x61 + 10
  }

  /** True when `b` starts with a complete escape `%XY`. */
  predicate StartsWithEscape(b: seq<byte>) {
    |b| >= 3 && b[0] == PercentSign && IsHexDigit(b[1]) && IsHexDigit(b[2])
  }

  /** One left-to-right pass: every complete escape becomes its byte, every
      other byte (a stray `%` included) is copied. */
  function PercentDecode(b: seq<byte>): (r: seq<byte>)
    ensures |r| <= |b|
  {
    if b == [] then []
    else if StartsWithEscape(b) then [HexValue(b[1]) * 16 + HexValue(b[2])] + PercentDecode(b[3..])
    else [b[0]] + PercentDecode(b[1..])
  }

  /** Upper-case hex digit of a value below 16. */
  function HexDigit(v: nat): (b: byte)
    requires v < 16
    ensures IsHexDigit(b) && HexValue(b) == v
  {
    if v < 10 then 0x30 + v else 0x41 + v - 10
  }

  /** The partner of `PercentDecode`: escapes every byte. */
  function PercentEncode(b: seq<byte>): (r: seq<byte>)
    ensures |r| == 3 * |b|
  {
    if b == [] then [] else [PercentSign, HexDigit(b[0] / 16), HexDigit(b[0] % 16)] + PercentEncode(b[1..])
  }

  /** Decoding undoes encoding. */
  lemma {:induction false} DecodeOfEncode(b: seq<byte>)
    ensures PercentDecode(PercentEncode(b)) == b
  {
    if b != [] {
      var e := PercentEncode(b);
      assert StartsWithEscape(e);
      assert e[3..] == PercentEncode(b[1..]);
      DecodeOfEncode(b[1..]);
      assert [b[0]] + b[1..] == b;
    }
  }

  /** A `%` not followed by two hex digits is kept as it is, and decoding
      resumes right after it. */
  lemma StrayPercentKept(b: seq<byte>)
    requires b != [] && b[0] == PercentSign && !StartsWithEscape(b)
    ensures PercentDecode(b) == [PercentSign] + PercentDecode(b[1..])
  {
  }

  /** Text holding no `%` decodes to itself. */
  lemma {:induction false} DecodeWithoutPercent(b: seq<byte>)
    requires PercentSign !in b
    ensures PercentDecode(b) == b
  {
    if b != [] {
      assert PercentSign !in b[1..];
      DecodeWithoutPercent(b[1..]);
      assert [b[0]] + b[1..] == b;
    }
  }

  /** Only one pass is made: an escaped escape decodes to the escape, not to
      the byte the escape stands for. */
  lemma DecodesOnce(b: seq<byte>)
    ensures PercentDecode(PercentEncode(PercentEncode(b))) == PercentEncode(b)
  {
    DecodeOfEncode(PercentEncode(b));
  }

  /** Text without `%` passes through, whatever follows it. */
  lemma {:induction false} DecodePlainPrefix(p: seq<byte>, rest: seq<byte>)
    requires PercentSign !in p
    ensures PercentDecode(p + rest) == p + PercentDecode(rest)
  {
    if p != [] {
      assert (p + rest)[1..] == p[1..] + rest;
      DecodePlainPrefix(p[1..], rest);
    } else {
      assert p + rest == rest;
    }
  }

  /** A complete escape at the front becomes its byte. */
  lemma DecodeEscapePrefix(h: byte, l: byte, rest: seq<byte>)
    requires IsHexDigit(h) && IsHexDigit(l)
    ensures PercentDecode([PercentSign, h, l] + rest) == [HexValue(h) * 16 + HexValue(l)] + PercentDecode(rest)
  {
    assert ([PercentSign, h, l] + rest)[3..] == rest;
  }

  /** The value of the escape `%hl`. */
  function EscapeValue(h: char, l: char): (v: byte)
    requires h as int < 0x80 && l as int < 0x80 && IsHexDigit(h as int) && IsHexDigit(l as int)
  {
    HexValue(h as int) * 16 + HexValue(l as int)
  }

  /** Decoding `p%hlq` whose `p` holds no `%`: `p`'s bytes, the escaped
      byte, then `q` decoded. */
  lemma EscapedFragmentBytes(p: string, h: char, l: char, q: string)
    requires '%' !in p
    requires h as int < 0x80 && l as int < 0x80 && IsHexDigit(h as int) && IsHexDigit(l as int)
    ensures PercentDecode(Encode(p + ['%', h, l] + q))
            == Encode(p) + ([EscapeValue(h, l)] + PercentDecode(Encode(q)))
  {
    var escape: seq<byte> := [PercentSign, h as int, l as int];
    EscapedFragmentEncoding(p, h, l, q);
    PlainThenEscape(p, h, l, q);
    EscapeThenRest(h, l, q);
  }

  lemma PlainThenEscape(p: string, h: char, l: char, q: string)
    requires '%' !in p
    requires h as int < 0x80 && l as int < 0x80
    ensures PercentDecode(Encode(p) + ([PercentSign, h as int, l as int] + Encode(q)))
            == Encode(p) + PercentDecode([PercentSign, h as int, l as int] + Encode(q))
  {
    AsciiByteInEncode(p, '%');
    DecodePlainPrefix(Encode(p), [PercentSign, h as int, l as int] + Encode(q));
  }

  lemma EscapeThenRest(h: char, l: char, q: string)
    requires h as int < 0x80 && l as int < 0x80 && IsHexDigit(h as int) && IsHexDigit(l as int)
    ensures PercentDecode([PercentSign, h as int, l as int] + Encode(q))
            == [EscapeValue(h, l)] + PercentDecode(Encode(q))
  {
    DecodeEscapePrefix(h as int, l as int, Encode(q));
  }
}
