/**
 * The cursor codec of utils/index.js.
 *
 * `encodeCursor` turns a string into its UTF-8 bytes and writes them in the
 * Base64 alphabet of section 4 of RFC 4648, with `=` padding.  `decodeCusor`
 * reads Base64 back into bytes and turns every byte into a character with
 * Node's 'ascii' decoding, which clears the high bit of the byte.
 */
module Cursor {
  import opened Wrappers

  type byte = x: int | 0 <= x < 0x100

  /** A six-bit group: the value of one Base64 digit. */
  type sextet = x: int | 0 <= x < 64

  // ---------------------------------------------------------------------------
  // The alphabet
  // ---------------------------------------------------------------------------

  /** The digit for value v in the table of section 4 of RFC 4648. */
  function Digit(v: sextet): (c: char)
  {
    if v < 26 then ('A' as int + v) as char
    else if v < 52 then ('a' as int + (v - 26)) as char
    else if v < 62 then ('0' as int + (v - 52)) as char
    else if v == 62 then '+'
    else '/'
  }

  /** `A`-`Z`, `a`-`z`, `0`-`9`, `+` and `/`: the characters the encoder writes besides padding. */
  predicate IsDigit(c: char)
  {
    ('A' <= c <= 'Z') || ('a' <= c <= 'z') || ('0' <= c <= '9') || c == '+' || c == '/'
  }

  /**
   * The value the decoder's table gives a byte, or None when the byte is
   * skipped.  Like Node's decoder, it also reads the URL-safe digits `-` and `_`
   * (section 5 of RFC 4648) as 62 and 63.
   */
  function Value(c: char): (r: Option<sextet>)
    requires c as int < 0x100
    ensures IsDigit(c) ==> r.Some? && Digit(r.value) == c
    ensures r.Some? ==> IsDigit(c) || c == '-' || c == '_'
  {
    if 'A' <= c <= 'Z' then Some(c as int - 'A' as int)
    else if 'a' <= c <= 'z' then Some(c as int - 'a' as int + 26)
    else if '0' <= c <= '9' then Some(c as int - '0' as int + 52)
    else if c == '+' || c == '-' then Some(62)
    else if c == '/' || c == '_' then Some(63)
    else None
  }

  lemma DigitIsDigit(v: sextet)
    ensures IsDigit(Digit(v)) && Digit(v) as int < 0x80 && Value(Digit(v)) == Some(v)
  {
  }

  function Digits(v: seq<sextet>): (s: string)
    ensures |s| == |v|
    ensures forall k | 0 <= k < |v| :: s[k] == Digit(v[k])
  {
    if v == [] then [] else [Digit(v[0])] + Digits(v[1..])
  }

  // ---------------------------------------------------------------------------
  // Encoding: Buffer.from(cursor).toString("base64")
  // ---------------------------------------------------------------------------

  /**
   * The six-bit groups of up to three bytes: three bytes give four groups, a
   * pair gives three and a single byte gives two, the last group padded with
   * zero bits.
   */
  function Quantum(t: seq<byte>): (v: seq<sextet>)
    requires |t| <= 3
    ensures |v| == if t == [] then 0 else |t| + 1
  {
    if |t| == 0 then []
    else if |t| == 1 then [t[0] / 4, (t[0] % 4) * 16]
    else if |t| == 2 then [t[0] / 4, (t[0] % 4) * 16 + t[1] / 16, (t[1] % 16) * 4]
    else [t[0] / 4, (t[0] % 4) * 16 + t[1] / 16, (t[1] % 16) * 4 + t[2] / 64, t[2] % 64]
  }

  /** Splits bytes into six-bit groups, three bytes at a time. */
  function Sextets(b: seq<byte>): (v: seq<sextet>)
    ensures |v| == 4 * (|b| / 3) + (if |b| % 3 == 0 then 0 else |b| % 3 + 1)
  {
    if |b| <= 3 then Quantum(b) else Quantum(b[..3]) + Sextets(b[3..])
  }

  /** The `=` characters that fill the last quantum to four characters. */
  function Padding(n: nat): string
  {
    if n % 3 == 1 then "==" else if n % 3 == 2 then "=" else ""
  }

  /** Base64 with padding (section 4 of RFC 4648). */
  function Encode(b: seq<byte>): (s: string)
    ensures |s| == 4 * ((|b| + 2) / 3)
  {
    Digits(Sextets(b)) + Padding(|b|)
  }

  /** Every character is a digit of the alphabet, or `=` among the last two. */
  lemma EncodeAlphabet(b: seq<byte>)
    ensures var s := Encode(b);
      forall k | 0 <= k < |s| :: IsDigit(s[k]) || (s[k] == '=' && k >= |s| - 2)
  {
    var s := Encode(b);
    var d := Digits(Sextets(b));
    forall k | 0 <= k < |s|
      ensures IsDigit(s[k]) || (s[k] == '=' && k >= |s| - 2)
    {
      if k < |d| {
        DigitIsDigit(Sextets(b)[k]);
      }
    }
  }

  /** The padding is a suffix of `=`: 0 characters when 3 divides n, else 3 - n % 3. */
  lemma EncodePadding(b: seq<byte>)
    ensures var s := Encode(b); var p := (3 - |b| % 3) % 3;
      p <= 2 && s[|s| - p..] == Padding(|b|) &&
      (forall k | |s| - p <= k < |s| :: s[k] == '=') &&
      (forall k | 0 <= k < |s| - p :: IsDigit(s[k]))
  {
    var s := Encode(b);
    var d := Digits(Sextets(b));
    var p := (3 - |b| % 3) % 3;
    assert |Padding(|b|)| == p;
    assert |s| - p == |d|;
    assert s[|s| - p..] == Padding(|b|);
    forall k | 0 <= k < |s| - p
      ensures IsDigit(s[k])
    {
      DigitIsDigit(Sextets(b)[k]);
    }
  }

  // ---------------------------------------------------------------------------
  // Decoding: Buffer.from(cursor, "base64")
  // ---------------------------------------------------------------------------

  /**
   * The UTF-16 code units of one character, as a JavaScript string holds it:
   * the code point below U+10000, a surrogate pair above.
   */
  function CodeUnits(c: char): (u: seq<int>)
    ensures c as int < 0x1_0000 <==> u == [c as int]
    ensures 1 <= |u| <= 2 && forall k | 0 <= k < |u| :: 0 <= u[k] < 0x1_0000
  {
    var n := c as int;
    if n < 0x1_0000 then [n] else [0xD800 + (n - 0x1_0000) / 0x400, 0xDC00 + (n - 0x1_0000) % 0x400]
  }

  function Utf16(s: string): (u: seq<int>)
    ensures |s| <= |u| <= 2 * |s|
    ensures forall k | 0 <= k < |u| :: 0 <= u[k] < 0x1_0000
  {
    if s == [] then [] else CodeUnits(s[0]) + Utf16(s[1..])
  }

  /** The low byte of a code unit: the only part of it Node's decoder looks at. */
  function LowByte(unit: int): (c: char)
    ensures c as int < 0x100 && c as int == unit % 0x100
  {
    (unit % 0x100) as char
  }

  /**
   * The values of the code units of a string, read leniently as Node does:
   * each unit is cut to its low byte, bytes outside the alphabet are skipped
   * and the first `=` ends the input.
   */
  function Values(u: seq<int>): (v: seq<sextet>)
    ensures |v| <= |u|
    ensures (forall k | 0 <= k < |u| :: LowByte(u[k]) != '=' && Value(LowByte(u[k])).Some?) ==> |v| == |u|
  {
    if u == [] || LowByte(u[0]) == '=' then []
    else match Value(LowByte(u[0]))
      case Some(x) => [x] + Values(u[1..])
      case None => Values(u[1..])
  }

  /**
   * The bytes of up to four six-bit groups: four groups give three bytes,
   * three give two, two give one, and a single dangling group gives none.
   */
  function Bytes(q: seq<sextet>): (t: seq<byte>)
    requires |q| <= 4
    ensures |t| == if |q| < 2 then 0 else |q| - 1
  {
    if |q| < 2 then []
    else
      var b0: byte := (q[0] as int) * 4 + q[1] / 16;
      if |q| == 2 then [b0]
      else
        var b1: byte := (q[1] as int % 16) * 16 + q[2] / 4;
        if |q| == 3 then [b0, b1]
        else
          var b2: byte := (q[2] as int % 4) * 64 + q[3];
          [b0, b1, b2]
  }

  /** Joins six-bit groups back into bytes, four groups at a time. */
  function FromSextets(v: seq<sextet>): (b: seq<byte>)
    ensures |b| == 3 * (|v| / 4) + (if |v| % 4 == 0 then 0 else |v| % 4 - 1)
  {
    if |v| <= 4 then Bytes(v) else Bytes(v[..4]) + FromSextets(v[4..])
  }

  /** `Buffer.from(s, "base64")`: at most three bytes for every four code units. */
  function Decode(s: string): (b: seq<byte>)
    ensures 4 * |b| <= 3 * |Utf16(s)|
  {
    FromSextets(Values(Utf16(s)))
  }

  /** A code unit above U+00FF reads as its low byte: U+0141 as `A`, U+013D as `=`, which ends the input. */
  lemma LowByteAliases()
    ensures Values([0x141, 'Q' as int, '=' as int]) == [0, 16]
    ensures Values(['Q' as int, 0x13D, 'Q' as int]) == [16]
  {
    var u := [0x141, 'Q' as int, '=' as int];
    assert LowByte(u[0]) == 'A' && LowByte(u[1]) == 'Q' && LowByte(u[2]) == '=';
    assert u[1..][1..] == ['=' as int];
    assert Values(u[1..]) == [16] + Values(u[1..][1..]);
    var w := ['Q' as int, 0x13D, 'Q' as int];
    assert LowByte(w[0]) == 'Q' && LowByte(w[1]) == '=';
    assert Values(w) == [16] + Values(w[1..]);
  }

  lemma {:induction false} ValuesOfDigits(v: seq<sextet>, rest: string)
    ensures Values(Utf16(Digits(v) + rest)) == v + Values(Utf16(rest))
  {
    if v != [] {
      var s := Digits(v) + rest;
      var d := Digit(v[0]);
      DigitIsDigit(v[0]);
      assert s[0] == d && s[1..] == Digits(v[1..]) + rest;
      assert Utf16(s) == [d as int] + Utf16(s[1..]);
      assert LowByte(d as int) == d && d != '=';
      assert Values(Utf16(s)) == [v[0]] + Values(Utf16(s[1..]));
      ValuesOfDigits(v[1..], rest);
      assert v == [v[0]] + v[1..];
    } else {
      assert Digits(v) + rest == rest;
    }
  }

  /** Up to three bytes survive the split into groups and back. */
  lemma QuantumRoundTrip(t: seq<byte>)
    requires |t| <= 3
    ensures Bytes(Quantum(t)) == t
  {
    var q := Quantum(t);
    if |t| >= 1 {
      assert (q[0] as int) * 4 + q[1] / 16 == t[0];
    }
    if |t| >= 2 {
      assert (q[1] as int % 16) * 16 + q[2] / 4 == t[1];
    }
    if |t| == 3 {
      assert (q[2] as int % 4) * 64 + q[3] == t[2];
    }
  }

  lemma {:induction false} FromSextetsOfSextets(b: seq<byte>)
    ensures FromSextets(Sextets(b)) == b
  {
    if |b| <= 3 {
      QuantumRoundTrip(b);
    } else {
      var q := Quantum(b[..3]);
      var v := Sextets(b);
      assert v == q + Sextets(b[3..]);
      assert v[..4] == q && v[4..] == Sextets(b[3..]);
      QuantumRoundTrip(b[..3]);
      FromSextetsOfSextets(b[3..]);
      assert b == b[..3] + b[3..];
    }
  }

  /** The padding ends the input at once. */
  lemma PaddingValues(n: nat)
    ensures Values(Utf16(Padding(n))) == []
  {
    var p := Padding(n);
    if p != [] {
      assert p[0] == '=' && Utf16(p)[0] == '=' as int;
    }
  }

  /** Decoding inverts encoding on every byte string. */
  lemma DecodeEncode(b: seq<byte>)
    ensures Decode(Encode(b)) == b
  {
    ValuesOfDigits(Sextets(b), Padding(|b|));
    PaddingValues(|b|);
    assert Sextets(b) + [] == Sextets(b);
    FromSextetsOfSextets(b);
  }

  lemma EncodeInjective(a: seq<byte>, b: seq<byte>)
    ensures Encode(a) == Encode(b) <==> a == b
  {
    if Encode(a) == Encode(b) {
      DecodeEncode(a);
      DecodeEncode(b);
    }
  }

  // ---------------------------------------------------------------------------
  // Text: Buffer.from(string) is UTF-8, toString("ascii") clears the high bit
  // ---------------------------------------------------------------------------

  predicate IsAscii(s: string)
  {
    forall k | 0 <= k < |s| :: s[k] as int < 0x80
  }

  /** The UTF-8 encoding of one Unicode scalar value (section 3 of RFC 3629). */
  function Utf8Char(c: char): (b: seq<byte>)
    ensures 1 <= |b| <= 4
    ensures c as int < 0x80 <==> b == [c as int]
  {
    var n := c as int;
    if n < 0x80 then [n]
    else if n < 0x800 then [0xC0 + n / 0x40, 0x80 + n % 0x40]
    else if n < 0x1_0000 then [0xE0 + n / 0x1000, 0x80 + (n / 0x40) % 0x40, 0x80 + n % 0x40]
    else [0xF0 + n / 0x4_0000, 0x80 + (n / 0x1000) % 0x40, 0x80 + (n / 0x40) % 0x40, 0x80 + n % 0x40]
  }

  function Utf8(s: string): (b: seq<byte>)
    ensures |s| <= |b| <= 4 * |s|
  {
    if s == [] then [] else Utf8Char(s[0]) + Utf8(s[1..])
  }

  /** The code points of an ASCII string, each one byte. */
  function AsciiBytes(s: string): (b: seq<byte>)
    requires IsAscii(s)
    ensures |b| == |s| && forall k | 0 <= k < |s| :: b[k] == s[k] as int
  {
    if s == [] then [] else [s[0] as int] + AsciiBytes(s[1..])
  }

  lemma {:induction false} Utf8OfAscii(s: string)
    requires IsAscii(s)
    ensures Utf8(s) == AsciiBytes(s)
  {
    if s != [] {
      Utf8OfAscii(s[1..]);
    }
  }

  /** Node's 'ascii' decoding: each byte becomes the character of its low seven bits. */
  function AsciiDecode(b: seq<byte>): (s: string)
    ensures |s| == |b| && IsAscii(s)
    ensures forall k | 0 <= k < |b| :: s[k] as int == b[k] % 0x80
  {
    seq(|b|, k requires 0 <= k < |b| => (b[k] % 0x80) as char)
  }

  /** encodeCursor (utils/index.js line 1). */
  function EncodeCursor(cursor: string): (token: string)
    ensures |token| == 4 * ((|Utf8(cursor)| + 2) / 3)
    ensures |token| >= 4 * ((|cursor| + 2) / 3)
  {
    Encode(Utf8(cursor))
  }

  /** decodeCusor (utils/index.js line 2): the result is always ASCII. */
  function DecodeCursor(token: string): (cursor: string)
    ensures IsAscii(cursor)
    ensures |cursor| == |Decode(token)|
  {
    AsciiDecode(Decode(token))
  }

  /** 'ascii' decoding of the code points of an ASCII string gives the string back. */
  lemma AsciiDecodeOfAscii(s: string)
    requires IsAscii(s)
    ensures AsciiDecode(AsciiBytes(s)) == s
  {
    var r := AsciiDecode(AsciiBytes(s));
    assert forall k | 0 <= k < |s| :: r[k] == s[k];
  }

  /** The codec round-trips exactly the ASCII strings. */
  lemma CursorRoundTrip(s: string)
    ensures DecodeCursor(EncodeCursor(s)) == s <==> IsAscii(s)
  {
    if IsAscii(s) {
      Utf8OfAscii(s);
      DecodeEncode(AsciiBytes(s));
      AsciiDecodeOfAscii(s);
    }
  }

  /** Distinct ASCII strings get distinct tokens. */
  lemma EncodeCursorInjective(s: string, t: string)
    requires IsAscii(s) && IsAscii(t)
    ensures EncodeCursor(s) == EncodeCursor(t) <==> s == t
  {
    CursorRoundTrip(s);
    CursorRoundTrip(t);
  }
}
