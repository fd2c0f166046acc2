/**
 * Modified UTF-8, the text encoding of names and strings on the wire. The
 * codec itself is a foreign library; the model keeps text in its encoded form
 * and stands in for the library's decoder with the strict well-formedness
 * rule of modified UTF-8, unit by unit:
 *   - one byte 0x01..0x7F for U+0001..U+007F;
 *   - two bytes for U+0080..U+07FF, and `C0 80` for U+0000;
 *   - three bytes for U+0800..U+FFFF except the surrogates;
 *   - six bytes, a high and a low surrogate of three bytes each, for
 *     U+10000..U+10FFFF.
 * No overlong form other than `C0 80`, no raw 0x00 and no lone surrogate is
 * accepted, so each code point has exactly one encoding (DecodeInjective).
 */
module Mutf8 {
  import opened Bytes

  predicate IsContinuation(b: byte) {
    0x80 <= b < 0xC0
  }

  /** The lead and second byte of a three-byte unit that is not overlong and not a surrogate. */
  predicate ThreeByteLead(b0: byte, b1: byte) {
    || (b0 == 0xE0 && b1 >= 0xA0)
    || (0xE1 <= b0 < 0xF0 && b0 != 0xED)
    || (b0 == 0xED && b1 < 0xA0)
  }

  /** A surrogate pair: `ED A0..AF xx` followed by `ED B0..BF xx`. */
  predicate SurrogatePair(s: seq<byte>)
    requires |s| >= 6
  {
    && s[0] == 0xED && 0xA0 <= s[1] < 0xB0 && IsContinuation(s[2])
    && s[3] == 0xED && 0xB0 <= s[4] < 0xC0 && IsContinuation(s[5])
  }

  /** The width of the well-formed unit `s` starts with, or 0 when it starts with none. */
  function UnitWidth(s: seq<byte>): (n: nat)
    ensures n <= |s| && (s == [] ==> n == 0)
    ensures n in {0, 1, 2, 3, 6}
  {
    if s == [] then 0
    else if 0x01 <= s[0] < 0x80 then 1
    else if |s| >= 2 && IsContinuation(s[1]) && ((0xC2 <= s[0] < 0xE0) || (s[0] == 0xC0 && s[1] == 0x80)) then 2
    else if |s| >= 3 && IsContinuation(s[1]) && IsContinuation(s[2]) && ThreeByteLead(s[0], s[1]) then 3
    else if |s| >= 6 && SurrogatePair(s) then 6
    else 0
  }

  /** `s` splits into well-formed units; this is when the library's decoder succeeds. */
  predicate Valid(s: seq<byte>)
    decreases |s|
  {
    s == [] || (UnitWidth(s) > 0 && Valid(s[UnitWidth(s)..]))
  }

  /** Text that the encoder can write: well formed, and short enough for a 16-bit length. */
  predicate Writable(s: seq<byte>) {
    |s| <= U16_MAX && Valid(s)
  }

  /** The payload bits of a unit byte: the byte without its marker bits `marker`. */
  function Bits(b: byte, marker: byte): int {
    b as int - marker as int
  }

  /** The code point of the unit `s` starts with. */
  function CodePoint(s: seq<byte>): (c: int)
    requires UnitWidth(s) > 0
    ensures UnitWidth(s) == 1 ==> 0x01 <= c < 0x80
    ensures UnitWidth(s) == 2 ==> c == 0 || 0x80 <= c < 0x800
    ensures UnitWidth(s) == 3 ==> 0x800 <= c < 0x1_0000 && !(0xD800 <= c < 0xE000)
    ensures UnitWidth(s) == 6 ==> 0x1_0000 <= c < 0x11_0000
  {
    var n := UnitWidth(s);
    if n == 1 then s[0]
    else if n == 2 then Bits(s[0], 0xC0) * 0x40 + Bits(s[1], 0x80)
    else if n == 3 then (Bits(s[0], 0xE0) * 0x40 + Bits(s[1], 0x80)) * 0x40 + Bits(s[2], 0x80)
    else 0x1_0000 + (Bits(s[1], 0xA0) * 0x40 + Bits(s[2], 0x80)) * 0x400 + Bits(s[4], 0xB0) * 0x40 + Bits(s[5], 0x80)
  }

  /** The code points of well-formed text, one per unit. */
  function Decode(s: seq<byte>): (cs: seq<int>)
    requires Valid(s)
    ensures |cs| <= |s| && (cs == [] <==> s == [])
    decreases |s|
  {
    if s == [] then [] else [CodePoint(s)] + Decode(s[UnitWidth(s)..])
  }

  /** A code point's unit is unique: two units with the same code point are the same bytes. */
  lemma UnitDetermined(a: seq<byte>, b: seq<byte>)
    requires UnitWidth(a) > 0 && UnitWidth(b) > 0 && CodePoint(a) == CodePoint(b)
    ensures UnitWidth(a) == UnitWidth(b) && a[..UnitWidth(a)] == b[..UnitWidth(b)]
  {
    var n := UnitWidth(a);
    assert n == UnitWidth(b);
    if n == 2 {
      Digits(0x40, Bits(a[0], 0xC0), Bits(a[1], 0x80), Bits(b[0], 0xC0), Bits(b[1], 0x80));
    } else if n == 3 {
      Digits(0x40, Bits(a[0], 0xE0) * 0x40 + Bits(a[1], 0x80), Bits(a[2], 0x80),
             Bits(b[0], 0xE0) * 0x40 + Bits(b[1], 0x80), Bits(b[2], 0x80));
      Digits(0x40, Bits(a[0], 0xE0), Bits(a[1], 0x80), Bits(b[0], 0xE0), Bits(b[1], 0x80));
    } else if n == 6 {
      var high, high' := Bits(a[1], 0xA0) * 0x40 + Bits(a[2], 0x80), Bits(b[1], 0xA0) * 0x40 + Bits(b[2], 0x80);
      var low, low' := Bits(a[4], 0xB0) * 0x40 + Bits(a[5], 0x80), Bits(b[4], 0xB0) * 0x40 + Bits(b[5], 0x80);
      Digits(0x400, high, low, high', low');
      Digits(0x40, Bits(a[1], 0xA0), Bits(a[2], 0x80), Bits(b[1], 0xA0), Bits(b[2], 0x80));
      Digits(0x40, Bits(a[4], 0xB0), Bits(a[5], 0x80), Bits(b[4], 0xB0), Bits(b[5], 0x80));
    }
    assert a[..n] == b[..n];
  }

  /** A number has one pair of digits in base 64 or 1024: its quotient and its remainder. */
  lemma Digits(base: int, x: int, y: int, x': int, y': int)
    requires base == 0x40 || base == 0x400
    requires 0 <= y < base && 0 <= y' < base
    requires x * base + y == x' * base + y'
    ensures x == x' && y == y'
  {
  }

  /** Decoding is injective on well-formed text, so text compares equal exactly when its bytes do. */
  lemma {:induction false} DecodeInjective(a: seq<byte>, b: seq<byte>)
    requires Valid(a) && Valid(b) && Decode(a) == Decode(b)
    ensures a == b
    decreases |a|
  {
    if a != [] {
      DecodeFirst(a);
      DecodeFirst(b);
      UnitDetermined(a, b);
      var n := UnitWidth(a);
      DecodeInjective(a[n..], b[n..]);
      assert a == a[..n] + a[n..] && b == b[..n] + b[n..];
    }
  }

  /** Decoding non-empty text: the first unit's code point, then the rest decoded. */
  lemma DecodeFirst(s: seq<byte>)
    requires Valid(s) && s != []
    ensures UnitWidth(s) > 0 && Valid(s[UnitWidth(s)..])
    ensures Decode(s)[0] == CodePoint(s) && Decode(s)[1..] == Decode(s[UnitWidth(s)..])
  {
  }

  /** Plain ASCII text without NUL (bytes 0x01..0x7F) is well formed. */
  lemma {:induction false} AsciiValid(s: seq<byte>)
    requires forall k :: 0 <= k < |s| ==> 0x01 <= s[k] < 0x80
    ensures Valid(s)
    decreases |s|
  {
    if s != [] {
      AsciiValid(s[1..]);
    }
  }
}
