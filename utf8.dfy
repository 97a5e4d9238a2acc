/** UTF-8 as RFC 3629 defines it: the encoding Rust's `str` is stored in, and
    the validation `str::from_utf8` (and so `Cow<[u8]>::decode_utf8`) performs. */
module Utf8 {
  import opened Results

  type byte = x: int | 0 <= x < 256

  /** A Unicode scalar value: what a `char` holds. */
  predicate IsScalar(v: int) {
    (0 <= v < 0xD800) || (0xE000 <= v < 0x11_0000)
  }

  predicate IsContinuation(b: byte) {
    0x80 <= b <= 0xBF
  }

  /** The bytes of one character: 1 to 4 of them by the ranges of section 3 of RFC 3629. */
  function EncodeChar(c: char): (r: seq<byte>)
    ensures 1 <= |r| <= 4
    ensures (|r| == 1) <==> c as int < 0x80
    ensures |r| > 1 ==> forall i :: 0 < i < |r| ==> IsContinuation(r[i])
    ensures |r| > 1 ==> r[0] >= 0xC2
  {
    var v := c as int;
    if v < 0x80 then [v]
    else if v < 0x800 then [0xC0 + v / 64, 0x80 + v % 64]
    else if v < 0x10000 then [0xE0 + v / 4096, 0x80 + (v / 64) % 64, 0x80 + v % 64]
    else [0xF0 + v / 262144, 0x80 + (v / 4096) % 64, 0x80 + (v / 64) % 64, 0x80 + v % 64]
  }

  /** The UTF-8 form of a string: its characters' bytes, in order. */
  function Encode(s: string): (r: seq<byte>)
    ensures |s| <= |r| <= 4 * |s|
  {
    if s == [] then [] else EncodeChar(s[0]) + Encode(s[1..])
  }

  /** The bounds the second byte of a multi-byte sequence must lie in, given
      the first (the table of section 4 of RFC 3629): they exclude overlong
      forms, surrogates and values above U+10FFFF. */
  function SecondByteLow(b0: byte): byte {
    if b0 == 0xE0 then 0xA0 else if b0 == 0xF0 then 0x90 else 0x80
  }

  function SecondByteHigh(b0: byte): byte {
    if b0 == 0xED then 0x9F else if b0 == 0xF4 then 0x8F else 0xBF
  }

  /** The six payload bits of a continuation byte. */
  function Low6(x: byte): int {
    x as int - 0x80
  }

  /** Decodes the character at the start of `b`, giving it and its width, or
      None when `b` does not start with a well-formed sequence. */
  function DecodeFirst(b: seq<byte>): (r: Option<(char, nat)>)
    requires b != []
    ensures r.Some? ==> 1 <= r.value.1 <= |b| && r.value.1 <= 4
  {
    var b0: int := b[0];
    if b0 < 0x80 then Some((b0 as char, 1))
    else if 0xC2 <= b0 <= 0xDF then
      if |b| >= 2 && IsContinuation(b[1])
      then Some((((b0 - 0xC0) * 64 + Low6(b[1])) as char, 2))
      else None
    else if 0xE0 <= b0 <= 0xEF then
      if |b| >= 3 && SecondByteLow(b0) <= b[1] <= SecondByteHigh(b0) && IsContinuation(b[2])
      then Some((((b0 - 0xE0) * 4096 + Low6(b[1]) * 64 + Low6(b[2])) as char, 3))
      else None
    else if 0xF0 <= b0 <= 0xF4 then
      if |b| >= 4 && SecondByteLow(b0) <= b[1] <= SecondByteHigh(b0)
         && IsContinuation(b[2]) && IsContinuation(b[3])
      then Some((((b0 - 0xF0) * 262144 + Low6(b[1]) * 4096 + Low6(b[2]) * 64 + Low6(b[3])) as char, 4))
      else None
    else None
  }

  /** `str::from_utf8`: the string `b` encodes, or None when `b` is not
      well-formed UTF-8. */
  function Decode(b: seq<byte>): (r: Option<string>)
    // every character takes one to four bytes
    ensures r.Some? ==> |r.value| <= |b| <= 4 * |r.value|
    decreases |b|
  {
    if b == [] then Some([])
    else match DecodeFirst(b)
      case None => None
      case Some((c, n)) =>
        match Decode(b[n..])
        case None => None
        case Some(rest) => Some([c] + rest)
  }

  lemma DivMod64(q: int, r: int)
    requires 0 <= r < 64
    ensures (q * 64 + r) / 64 == q && (q * 64 + r) % 64 == r
  {
  }

  /** Decoding the bytes of a character, whatever follows them, gives the character back. */
  lemma DecodeFirstOfEncodeChar(c: char, rest: seq<byte>)
    ensures DecodeFirst(EncodeChar(c) + rest) == Some((c, |EncodeChar(c)|))
  {
    var v := c as int;
    if v < 0x80 {
    } else if v < 0x800 {
      DecodeFirstOfTwoBytes(c, rest);
    } else if v < 0x10000 {
      DecodeFirstOfThreeBytes(c, rest);
    } else {
      DecodeFirstOfFourBytes(c, rest);
    }
  }

  lemma DecodeFirstOfTwoBytes(c: char, rest: seq<byte>)
    requires 0x80 <= c as int < 0x800
    ensures DecodeFirst(EncodeChar(c) + rest) == Some((c, 2))
  {
    var v := c as int;
    var b := EncodeChar(c) + rest;
    assert b[0] == 0xC0 + v / 64 && b[1] == 0x80 + v % 64;
    assert (v / 64) * 64 + v % 64 == v;
  }

  lemma DecodeFirstOfThreeBytes(c: char, rest: seq<byte>)
    requires 0x800 <= c as int < 0x10000
    ensures DecodeFirst(EncodeChar(c) + rest) == Some((c, 3))
  {
    var v := c as int;
    var b := EncodeChar(c) + rest;
    var x, y, z := v / 4096, (v / 64) % 64, v % 64;
    assert b[0] == 0xE0 + x && b[1] == 0x80 + y && b[2] == 0x80 + z;
    assert v / 64 == x * 64 + y;
    assert v == x * 4096 + y * 64 + z;
    assert b[0] == 0xE0 ==> b[1] >= 0xA0;
    assert b[0] == 0xED ==> b[1] <= 0x9F;
  }

  lemma DecodeFirstOfFourBytes(c: char, rest: seq<byte>)
    requires 0x10000 <= c as int
    ensures DecodeFirst(EncodeChar(c) + rest) == Some((c, 4))
  {
    var v := c as int;
    var b := EncodeChar(c) + rest;
    var w, x, y, z := v / 262144, (v / 4096) % 64, (v / 64) % 64, v % 64;
    assert b[0] == 0xF0 + w && b[1] == 0x80 + x && b[2] == 0x80 + y && b[3] == 0x80 + z;
    assert v / 4096 == w * 64 + x;
    assert v / 64 == (w * 64 + x) * 64 + y;
    assert v == w * 262144 + x * 4096 + y * 64 + z;
    assert b[0] == 0xF0 ==> b[1] >= 0x90;
    assert b[0] == 0xF4 ==> b[1] <= 0x8F;
  }

  /** A well-formed sequence that `DecodeFirst` accepts is exactly the
      encoding of the character it yields: there are no overlong forms. */
  lemma DecodeFirstIsEncodeChar(b: seq<byte>)
    requires b != [] && DecodeFirst(b).Some?
    ensures b[..DecodeFirst(b).value.1] == EncodeChar(DecodeFirst(b).value.0)
  {
    var n := DecodeFirst(b).value.1;
    var b0: int := b[0];
    if n == 1 {
      assert b0 < 0x80;
    } else if n == 2 {
      TwoBytesAreEncodeChar(b[0], b[1]);
    } else if n == 3 {
      ThreeBytesAreEncodeChar(b[0], b[1], b[2]);
    } else if n == 4 {
      FourBytesAreEncodeChar(b[0], b[1], b[2], b[3]);
    }
  }

  lemma TwoBytesAreEncodeChar(b0: byte, b1: byte)
    requires 0xC2 <= b0 <= 0xDF && IsContinuation(b1)
    ensures EncodeChar(((b0 as int - 0xC0) * 64 + Low6(b1)) as char) == [b0, b1]
  {
    DivMod64(b0 as int - 0xC0, Low6(b1));
  }

  lemma ThreeBytesAreEncodeChar(b0: byte, b1: byte, b2: byte)
    requires 0xE0 <= b0 <= 0xEF && SecondByteLow(b0) <= b1 <= SecondByteHigh(b0) && IsContinuation(b2)
    ensures IsScalar((b0 as int - 0xE0) * 4096 + Low6(b1) * 64 + Low6(b2))
    ensures EncodeChar(((b0 as int - 0xE0) * 4096 + Low6(b1) * 64 + Low6(b2)) as char) == [b0, b1, b2]
  {
    var v := (b0 as int - 0xE0) * 4096 + Low6(b1) * 64 + Low6(b2);
    assert v == ((b0 as int - 0xE0) * 64 + Low6(b1)) * 64 + Low6(b2);
    DivMod64((b0 as int - 0xE0) * 64 + Low6(b1), Low6(b2));
    DivMod64(b0 as int - 0xE0, Low6(b1));
  }

  lemma FourBytesAreEncodeChar(b0: byte, b1: byte, b2: byte, b3: byte)
    requires 0xF0 <= b0 <= 0xF4 && SecondByteLow(b0) <= b1 <= SecondByteHigh(b0)
    requires IsContinuation(b2) && IsContinuation(b3)
    ensures IsScalar((b0 as int - 0xF0) * 262144 + Low6(b1) * 4096 + Low6(b2) * 64 + Low6(b3))
    ensures EncodeChar(((b0 as int - 0xF0) * 262144 + Low6(b1) * 4096 + Low6(b2) * 64 + Low6(b3)) as char)
            == [b0, b1, b2, b3]
  {
    var v := (b0 as int - 0xF0) * 262144 + Low6(b1) * 4096 + Low6(b2) * 64 + Low6(b3);
    assert v == (((b0 as int - 0xF0) * 64 + Low6(b1)) * 64 + Low6(b2)) * 64 + Low6(b3);
    DivMod64(((b0 as int - 0xF0) * 64 + Low6(b1)) * 64 + Low6(b2), Low6(b3));
    DivMod64((b0 as int - 0xF0) * 64 + Low6(b1), Low6(b2));
    DivMod64(b0 as int - 0xF0, Low6(b1));
  }

  /** Every string survives a trip through UTF-8. */
  lemma {:induction false} DecodeEncode(s: string)
    ensures Decode(Encode(s)) == Some(s)
  {
    if s != [] {
      var e := EncodeChar(s[0]);
      DecodeFirstOfEncodeChar(s[0], Encode(s[1..]));
      assert (e + Encode(s[1..]))[|e|..] == Encode(s[1..]);
      DecodeEncode(s[1..]);
      assert [s[0]] + s[1..] == s;
    }
  }

  /** Decoding succeeds only on the encoding of the string it yields, so a
      byte sequence is valid UTF-8 exactly when it encodes some string. */
  lemma {:induction false} EncodeDecode(b: seq<byte>, s: string)
    requires Decode(b) == Some(s)
    ensures Encode(s) == b
    decreases |b|
  {
    if b != [] {
      var c, n := DecodeStep(b);
      var rest := Decode(b[n..]).value;
      EncodeDecode(b[n..], rest);
      EncodeCons(c, rest);
      assert b[..n] + b[n..] == b;
    }
  }

  /** One step of `Decode`: a first character, which the first `n` bytes
      encode, then the rest decoded. */
  lemma DecodeStep(b: seq<byte>) returns (c: char, n: nat)
    requires b != [] && Decode(b).Some?
    ensures 1 <= n <= |b| && b[..n] == EncodeChar(c)
    ensures Decode(b[n..]).Some? && Decode(b).value == [c] + Decode(b[n..]).value
  {
    c, n := DecodeFirst(b).value.0, DecodeFirst(b).value.1;
    DecodeFirstIsEncodeChar(b);
  }

  lemma EncodeCons(c: char, s: string)
    ensures Encode([c] + s) == EncodeChar(c) + Encode(s)
  {
    assert ([c] + s)[1..] == s;
  }

  /** Both directions at once. */
  lemma DecodeIffEncode(b: seq<byte>, s: string)
    ensures Decode(b) == Some(s) <==> Encode(s) == b
  {
    if Decode(b) == Some(s) {
      EncodeDecode(b, s);
    }
    if Encode(s) == b {
      DecodeEncode(s);
    }
  }

  /** An ASCII byte appears in a string's encoding only where the character
      itself appears: multi-byte sequences hold no byte below 0x80. */
  lemma {:induction false} AsciiByteInEncode(s: string, c: char)
    requires c as int < 0x80
    requires c !in s
    ensures c as int !in Encode(s)
  {
    if s != [] {
      AsciiByteInEncode(s[1..], c);
      assert s[0] != c;
    }
  }

  /** The encoding of a concatenation is the concatenation of the encodings. */
  lemma {:induction false} EncodeConcat(a: string, b: string)
    ensures Encode(a + b) == Encode(a) + Encode(b)
  {
    if a != [] {
      assert (a + b)[1..] == a[1..] + b;
      EncodeConcat(a[1..], b);
    } else {
      assert a + b == b;
    }
  }

  /** ASCII text is its own encoding, one byte per character. */
  lemma {:induction false} EncodeAscii(s: string)
    requires forall i :: 0 <= i < |s| ==> s[i] as int < 0x80
    ensures |Encode(s)| == |s|
    ensures forall i :: 0 <= i < |s| ==> Encode(s)[i] == s[i] as int
  {
    if s != [] {
      EncodeAscii(s[1..]);
    }
  }

  /** A byte that no well-formed sequence starts with: a continuation byte,
      a lead byte of an overlong form (0xC0, 0xC1), or one above 0xF4. */
  predicate NeverLeads(b: byte) {
    (0x80 <= b < 0xC2) || b >= 0xF5
  }

  /** Well-formed text followed by a byte that cannot lead is not UTF-8. */
  lemma {:induction false} DecodeStopsAtBadLead(s: string, rest: seq<byte>)
    requires rest != [] && NeverLeads(rest[0])
    ensures Decode(Encode(s) + rest).None?
  {
    if s == [] {
      assert Encode(s) + rest == rest;
    } else {
      var e := EncodeChar(s[0]);
      assert Encode(s) + rest == e + (Encode(s[1..]) + rest);
      DecodeFirstOfEncodeChar(s[0], Encode(s[1..]) + rest);
      assert (e + (Encode(s[1..]) + rest))[|e|..] == Encode(s[1..]) + rest;
      DecodeStopsAtBadLead(s[1..], rest);
    }
  }

  /** An ASCII character is its own single byte. */
  lemma EncodeAsciiChar(c: char)
    requires c as int < 0x80
    ensures Encode([c]) == [c as int]
  {
    assert [c][1..] == [];
  }

  lemma ConcatAssoc<T>(x: seq<T>, y: seq<T>, z: seq<T>)
    ensures x + y + z == x + (y + z)
  {
  }

  lemma EncodeConcat3(a: string, b: string, c: string)
    ensures Encode(a + b + c) == Encode(a) + (Encode(b) + Encode(c))
  {
    EncodeConcat(a + b, c);
    EncodeConcat(a, b);
    ConcatAssoc(Encode(a), Encode(b), Encode(c));
  }

  /** The bytes of `p%hlq`: those of `p`, the three ASCII bytes of the
      escape, then those of `q`. */
  lemma EscapedFragmentEncoding(p: string, h: char, l: char, q: string)
    requires h as int < 0x80 && l as int < 0x80
    ensures Encode(p + ['%', h, l] + q) == Encode(p) + ([0x25, h as int, l as int] + Encode(q))
  {
    EncodeConcat3(p, ['%', h, l], q);
    EncodeEscape(h, l);
  }

  lemma EncodeEscape(h: char, l: char)
    requires h as int < 0x80 && l as int < 0x80
    ensures Encode(['%', h, l]) == [0x25, h as int, l as int]
  {
    assert ['%', h, l] == ['%'] + [h] + [l];
    EncodeConcat3(['%'], [h], [l]);
    EncodeAsciiChar('%');
    EncodeAsciiChar(h);
    EncodeAsciiChar(l);
  }

  /** The bytes of `p c q` for an ASCII character `c`. */
  lemma AsciiInfixEncoding(p: string, c: char, q: string)
    requires c as int < 0x80
    ensures Encode(p + [c] + q) == Encode(p) + ([c as int] + Encode(q))
  {
    EncodeConcat3(p, [c], q);
    EncodeAsciiChar(c);
  }
}
