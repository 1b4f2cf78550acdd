/**
 * The three byte-to-text codecs the scripts call through `bytes.decode`:
 * strict UTF-8 (the well-formed sequences of section 4 of RFC 3629),
 * ISO/IEC 8859-1 (Latin-1) and ASCII, plus the lower-case hexadecimal
 * rendering of `bytes.hex()`.
 */
module Codecs {

  import opened Wrappers

  type byte = x: int | 0 <= x < 0x100

  datatype Encoding = Utf8 | Latin1 | Ascii

  predicate IsAscii(b: seq<byte>) {
    forall k :: 0 <= k < |b| ==> b[k] < 0x80
  }

  // ---------------------------------------------------------------------
  // UTF-8, section 4 of RFC 3629
  // ---------------------------------------------------------------------

  /** Length of the sequence announced by a lead byte; 0 if `b0` cannot lead. */
  function SequenceWidth(b0: byte): (w: nat)
    ensures w <= 4
  {
    if b0 < 0x80 then 1
    else if 0xC2 <= b0 <= 0xDF then 2
    else if 0xE0 <= b0 <= 0xEF then 3
    else if 0xF0 <= b0 <= 0xF4 then 4
    else 0
  }

  /** Smallest admissible second byte after lead byte `b0` (UTF8-3, UTF8-4). */
  function SecondMin(b0: byte): byte {
    if b0 == 0xE0 then 0xA0 else if b0 == 0xF0 then 0x90 else 0x80
  }

  /** Largest admissible second byte after lead byte `b0` (UTF8-3, UTF8-4). */
  function SecondMax(b0: byte): byte {
    if b0 == 0xED then 0x9F else if b0 == 0xF4 then 0x8F else 0xBF
  }

  predicate IsTail(x: byte) {
    0x80 <= x <= 0xBF
  }

  /**
   * Length of the well-formed UTF-8 character that begins `b`, or 0 when `b`
   * is empty or does not begin with one.
   */
  function CharLength(b: seq<byte>): (n: nat)
    ensures n <= 4 && n <= |b|
    ensures n > 0 ==> n == SequenceWidth(b[0])
  {
    if b == [] then 0
    else
      var w := SequenceWidth(b[0]);
      if w == 0 || |b| < w then 0
      else if w >= 2 && !(SecondMin(b[0]) <= b[1] <= SecondMax(b[0])) then 0
      else if w >= 3 && !IsTail(b[2]) then 0
      else if w == 4 && !IsTail(b[3]) then 0
      else w
  }

  /** Smallest code point that needs `w` bytes. */
  function WidthFloor(w: nat): nat {
    if w <= 1 then 0 else if w == 2 then 0x80 else if w == 3 then 0x800 else 0x10000
  }

  /** Largest code point that fits in `w` bytes, plus one. */
  function WidthCeiling(w: nat): nat {
    if w <= 1 then 0x80 else if w == 2 then 0x800 else if w == 3 then 0x10000 else 0x110000
  }

  /**
   * The code point of the character that begins `b`: never a surrogate,
   * never above U+10FFFF, and never an overlong form.
   */
  function CodePoint(b: seq<byte>): (cp: int)
    requires CharLength(b) > 0
    ensures 0 <= cp < 0xD800 || 0xE000 <= cp < 0x110000
    ensures WidthFloor(CharLength(b)) <= cp < WidthCeiling(CharLength(b))
  {
    var n := CharLength(b);
    if n == 1 then b[0] as int
    else if n == 2 then Bits2(b[0] as int - 0xC0, b[1] as int - 0x80)
    else if n == 3 then Bits3(b[0] as int - 0xE0, b[1] as int - 0x80, b[2] as int - 0x80)
    else Bits4(b[0] as int - 0xF0, b[1] as int - 0x80, b[2] as int - 0x80, b[3] as int - 0x80)
  }

  /** Concatenation of a lead payload `x` with one 6-bit tail payload `y`. */
  function Bits2(x: int, y: int): int {
    x * 0x40 + y
  }

  function Bits3(x: int, y: int, z: int): int {
    x * 0x1000 + y * 0x40 + z
  }

  function Bits4(x: int, y: int, z: int, t: int): int {
    x * 0x40000 + y * 0x1000 + z * 0x40 + t
  }

  /**
   * `bytes.decode('utf-8')`: the decoded text, or None where Python raises
   * `UnicodeDecodeError` (any byte sequence that is not well formed).
   */
  function DecodeUtf8(b: seq<byte>): (r: Option<string>)
    ensures r.Some? ==> |r.value| <= |b|
    ensures IsAscii(b) ==> r == Some(Latin1Text(b))
    decreases |b|
  {
    if b == [] then Some([])
    else
      var n := CharLength(b);
      if n == 0 then None
      else
        match DecodeUtf8(b[n..])
        case None => None
        case Some(rest) =>
          AsciiLead(b);
          Some([CodePoint(b) as char] + rest)
  }

  /** An ASCII byte string decodes one byte at a time, each to the character of its value. */
  lemma AsciiLead(b: seq<byte>)
    requires b != []
    ensures IsAscii(b) ==> CharLength(b) == 1 && CodePoint(b) == b[0] as int && IsAscii(b[1..])
                           && Latin1Text(b) == [b[0] as char] + Latin1Text(b[1..])
  {
    if IsAscii(b) {
      assert b[0] < 0x80;
      var t := Latin1Text(b);
      assert t == [b[0] as char] + Latin1Text(b[1..]) by {
        forall k | 0 <= k < |t| ensures t[k] == ([b[0] as char] + Latin1Text(b[1..]))[k] {
          if k > 0 {
            assert b[1..][k - 1] == b[k];
          }
        }
      }
    }
  }

  /** The UTF-8 encoding of one character (`str.encode('utf-8')`). */
  function EncodeChar(c: char): (r: seq<byte>)
    ensures 1 <= |r| <= 4
  {
    var n := c as int;
    if n < 0x80 then [n]
    else if n < 0x800 then [0xC0 + n / 0x40, 0x80 + n % 0x40]
    else if n < 0x10000 then [0xE0 + n / 0x1000, 0x80 + n / 0x40 % 0x40, 0x80 + n % 0x40]
    else [0xF0 + n / 0x40000, 0x80 + n / 0x1000 % 0x40, 0x80 + n / 0x40 % 0x40, 0x80 + n % 0x40]
  }

  function EncodeUtf8(s: string): seq<byte> {
    if s == [] then [] else EncodeChar(s[0]) + EncodeUtf8(s[1..])
  }

  lemma DivMod64(n: int, q: int, r: int)
    requires 0 <= r < 0x40 && n == q * 0x40 + r
    ensures n / 0x40 == q && n % 0x40 == r
  {
  }

  lemma DivMod4096(n: int, q: int, r: int)
    requires 0 <= r < 0x1000 && n == q * 0x1000 + r
    ensures n / 0x1000 == q && n % 0x1000 == r
  {
  }

  lemma DivMod262144(n: int, q: int, r: int)
    requires 0 <= r < 0x40000 && n == q * 0x40000 + r
    ensures n / 0x40000 == q && n % 0x40000 == r
  {
  }

  /** The encoding of a character is a well-formed sequence that decodes back to it. */
  lemma EncodeCharDecodes(c: char, rest: seq<byte>)
    ensures CharLength(EncodeChar(c) + rest) == |EncodeChar(c)|
    ensures CodePoint(EncodeChar(c) + rest) == c as int
  {
    var n := c as int;
    if 0x800 <= n < 0x10000 {
      EncodeThreeBytes(c, rest);
    } else if n >= 0x10000 {
      EncodeFourBytes(c, rest);
    }
  }

  lemma EncodeThreeBytes(c: char, rest: seq<byte>)
    requires 0x800 <= c as int < 0x10000
    ensures CharLength(EncodeChar(c) + rest) == 3
    ensures CodePoint(EncodeChar(c) + rest) == c as int
  {
    var n := c as int;
    var b := EncodeChar(c) + rest;
    var q, r := n / 0x40, n % 0x40;
    var a, m := q / 0x40, q % 0x40;
    DivMod4096(n, a, m * 0x40 + r);
    assert b[..3] == [0xE0 + a, 0x80 + m, 0x80 + r];
    assert CodePoint(b) == Bits3(a, m, r);
  }

  lemma EncodeFourBytes(c: char, rest: seq<byte>)
    requires 0x10000 <= c as int
    ensures CharLength(EncodeChar(c) + rest) == 4
    ensures CodePoint(EncodeChar(c) + rest) == c as int
  {
    var n := c as int;
    var b := EncodeChar(c) + rest;
    var q, r := n / 0x40, n % 0x40;
    var a, m := q / 0x40, q % 0x40;
    var h, l := a / 0x40, a % 0x40;
    DivMod4096(n, a, m * 0x40 + r);
    DivMod262144(n, h, l * 0x1000 + m * 0x40 + r);
    assert b[..4] == [0xF0 + h, 0x80 + l, 0x80 + m, 0x80 + r];
    assert CodePoint(b) == Bits4(h, l, m, r);
  }

  /** A decoded character re-encodes to exactly the bytes it came from. */
  lemma CodePointEncodes(b: seq<byte>)
    requires CharLength(b) > 0
    ensures EncodeChar(CodePoint(b) as char) == b[..CharLength(b)]
  {
    var n := CharLength(b);
    if n == 2 {
      TwoBytesEncode(b);
    } else if n == 3 {
      ThreeBytesEncode(b);
    } else if n == 4 {
      FourBytesEncode(b);
    }
  }

  lemma TwoBytesEncode(b: seq<byte>)
    requires CharLength(b) == 2
    ensures EncodeChar(CodePoint(b) as char) == b[..2]
  {
    DivMod64(CodePoint(b), b[0] as int - 0xC0, b[1] as int - 0x80);
  }

  lemma ThreeBytesEncode(b: seq<byte>)
    requires CharLength(b) == 3
    ensures EncodeChar(CodePoint(b) as char) == b[..3]
  {
    var cp := CodePoint(b);
    var x, y, z := b[0] as int - 0xE0, b[1] as int - 0x80, b[2] as int - 0x80;
    DivMod64(cp, x * 0x40 + y, z);
    DivMod64(x * 0x40 + y, x, y);
    DivMod4096(cp, x, y * 0x40 + z);
  }

  lemma FourBytesEncode(b: seq<byte>)
    requires CharLength(b) == 4
    ensures EncodeChar(CodePoint(b) as char) == b[..4]
  {
    var cp := CodePoint(b);
    var x, y, z, t := b[0] as int - 0xF0, b[1] as int - 0x80, b[2] as int - 0x80, b[3] as int - 0x80;
    DivMod64(cp, (x * 0x40 + y) * 0x40 + z, t);
    DivMod64((x * 0x40 + y) * 0x40 + z, x * 0x40 + y, z);
    DivMod4096(cp, x * 0x40 + y, z * 0x40 + t);
    DivMod64(x * 0x40 + y, x, y);
    DivMod262144(cp, x, y * 0x1000 + z * 0x40 + t);
  }

  /** Decoding inverts encoding: every string round-trips through UTF-8. */
  lemma {:induction false} DecodeEncodeUtf8(s: string)
    ensures DecodeUtf8(EncodeUtf8(s)) == Some(s)
  {
    if s != [] {
      var e, rest := EncodeChar(s[0]), EncodeUtf8(s[1..]);
      var b := e + rest;
      assert b == EncodeUtf8(s);
      EncodeCharDecodes(s[0], rest);
      DecodeEncodeUtf8(s[1..]);
      assert b[|e|..] == rest;
      assert CodePoint(b) as char == s[0];
      assert DecodeUtf8(b) == Some([s[0]] + s[1..]);
      assert [s[0]] + s[1..] == s;
    }
  }

  /** A decodable non-empty byte string decodes to its first character followed by the rest. */
  lemma DecodeUtf8Cons(b: seq<byte>)
    requires b != [] && DecodeUtf8(b).Some?
    ensures CharLength(b) > 0 && DecodeUtf8(b[CharLength(b)..]).Some?
    ensures DecodeUtf8(b).value == [CodePoint(b) as char] + DecodeUtf8(b[CharLength(b)..]).value
  {
  }

  /** Encoding inverts decoding: a decodable byte string is the encoding of its text. */
  lemma {:induction false} EncodeDecodeUtf8(b: seq<byte>)
    requires DecodeUtf8(b).Some?
    ensures EncodeUtf8(DecodeUtf8(b).value) == b
    decreases |b|
  {
    if b != [] {
      DecodeUtf8Cons(b);
      var n := CharLength(b);
      var c := CodePoint(b) as char;
      var rest := DecodeUtf8(b[n..]).value;
      EncodeDecodeUtf8(b[n..]);
      CodePointEncodes(b);
      EncodeUtf8Cons(b, n, c, rest);
    }
  }

  /** A text whose first character encodes to `b[..n]` and the rest to `b[n..]` encodes to `b`. */
  lemma EncodeUtf8Cons(b: seq<byte>, n: nat, c: char, rest: string)
    requires n <= |b| && EncodeChar(c) == b[..n] && EncodeUtf8(rest) == b[n..]
    ensures EncodeUtf8([c] + rest) == b
  {
    assert ([c] + rest)[1..] == rest;
    assert b == b[..n] + b[n..];
  }

  // ---------------------------------------------------------------------
  // Latin-1 and ASCII
  // ---------------------------------------------------------------------

  /** ISO/IEC 8859-1: one character per byte, with the byte's value as code point. */
  function Latin1Text(b: seq<byte>): (s: string)
    ensures |s| == |b|
    ensures forall k :: 0 <= k < |b| ==> s[k] as int == b[k]
  {
    seq(|b|, k requires 0 <= k < |b| => b[k] as char)
  }

  /** `str.encode('latin-1')` for text whose characters are all below U+0100. */
  function Latin1Bytes(s: string): (b: seq<byte>)
    requires forall k :: 0 <= k < |s| ==> s[k] as int < 0x100
    ensures Latin1Text(b) == s
  {
    seq(|s|, k requires 0 <= k < |s| => s[k] as int)
  }

  /** The bytes of an ASCII text: one byte per character. */
  function AsciiBytes(s: string): (b: seq<byte>)
    requires forall k :: 0 <= k < |s| ==> s[k] as int < 0x80
    ensures IsAscii(b) && Latin1Text(b) == s
  {
    Latin1Bytes(s)
  }

  /**
   * `bytes.decode(encoding)`: the text, or None where Python raises
   * `UnicodeDecodeError`. Latin-1 accepts every byte string; ASCII accepts
   * exactly the strings of bytes below 0x80.
   */
  function Decode(e: Encoding, b: seq<byte>): (r: Option<string>)
    ensures e == Latin1 ==> r == Some(Latin1Text(b))
    ensures e == Ascii ==> (r.Some? <==> IsAscii(b))
  {
    match e
    case Utf8 => DecodeUtf8(b)
    case Latin1 => Some(Latin1Text(b))
    case Ascii => if IsAscii(b) then Some(Latin1Text(b)) else None
  }

  /** On bytes below 0x80 the three codecs give the same text. */
  lemma AsciiDecodingsAgree(b: seq<byte>)
    requires IsAscii(b)
    ensures Decode(Utf8, b) == Decode(Latin1, b) == Decode(Ascii, b) == Some(Latin1Text(b))
  {
  }

  // ---------------------------------------------------------------------
  // bytes.hex()
  // ---------------------------------------------------------------------

  function HexDigit(d: nat): (c: char)
    requires d < 16
  {
    if d < 10 then ('0' as int + d) as char else ('a' as int + d - 10) as char
  }

  /** `bytes.hex()`: two lower-case hexadecimal digits per byte. */
  function Hex(b: seq<byte>): (s: string)
    ensures |s| == 2 * |b|
  {
    if b == [] then [] else [HexDigit(b[0] / 16), HexDigit(b[0] % 16)] + Hex(b[1..])
  }
}
