/**
 * Fixed-width two's-complement numbers in big- or little-endian byte order:
 * the `ByteOrder::bytes` conversion the encoder uses (src/byte_order.rs) and
 * its inverse, which the decoder's fixed-width readers apply.
 */
module Bytes {

  type byte = x: int | 0 <= x < 0x100

  type i8 = x: int | -0x80 <= x < 0x80
  type i16 = x: int | -0x8000 <= x < 0x8000
  type i32 = x: int | -0x8000_0000 <= x < 0x8000_0000
  type i64 = x: int | -0x8000_0000_0000_0000 <= x < 0x8000_0000_0000_0000
  type u16 = x: int | 0 <= x < 0x1_0000
  type u32 = x: int | 0 <= x < 0x1_0000_0000
  type u64 = x: int | 0 <= x < 0x1_0000_0000_0000_0000

  const I32_MAX: int := 0x7FFF_FFFF
  const U16_MAX: int := 0xFFFF

  /** Java Edition uses big endian, Bedrock Edition little endian. */
  datatype ByteOrder = BigEndian | LittleEndian

  /** The number of distinct values of `w` bytes. */
  function Pow256(w: nat): (p: nat)
    ensures p >= 1
  {
    if w == 0 then 1 else 256 * Pow256(w - 1)
  }

  lemma Pow256Values()
    ensures Pow256(1) == 0x100 && Pow256(2) == 0x1_0000
    ensures Pow256(4) == 0x1_0000_0000 && Pow256(8) == 0x1_0000_0000_0000_0000
  {
  }

  /**
   * The size of `n` items of `w` bytes each, `n * w` (SpanIsProduct),
   * written as repeated addition so that proofs about array layouts stay
   * linear.
   */
  function Span(n: nat, w: nat): nat
    decreases n
  {
    if n == 0 then 0 else w + Span(n - 1, w)
  }

  lemma {:induction false} SpanIsProduct(n: nat, w: nat)
    ensures Span(n, w) == n * w
    decreases n
  {
    if n > 0 {
      SpanIsProduct(n - 1, w);
      assert n * w == w + (n - 1) * w;
    }
  }

  /** The number of non-negative values of a signed `w`-byte integer. */
  function Half(w: nat): (h: int)
    ensures h >= 0
    ensures w > 0 ==> Pow256(w) == 2 * h
  {
    if w == 0 then 0 else 128 * Pow256(w - 1)
  }

  /** The `w` base-256 digits of `u`, most significant first. */
  function BigEndianDigits(u: nat, w: nat): (s: seq<byte>)
    requires u < Pow256(w)
    ensures |s| == w
  {
    if w == 0 then [] else BigEndianDigits(u / 256, w - 1) + [u % 256]
  }

  /** The `w` base-256 digits of `u`, least significant first. */
  function LittleEndianDigits(u: nat, w: nat): (s: seq<byte>)
    requires u < Pow256(w)
    ensures |s| == w
  {
    if w == 0 then [] else [u % 256] + LittleEndianDigits(u / 256, w - 1)
  }

  /** The number whose big-endian digits are `s`. */
  function BigEndianValue(s: seq<byte>): (u: nat)
    ensures u < Pow256(|s|)
  {
    if s == [] then 0 else BigEndianValue(s[..|s| - 1]) * 256 + s[|s| - 1]
  }

  /** The number whose little-endian digits are `s`. */
  function LittleEndianValue(s: seq<byte>): (u: nat)
    ensures u < Pow256(|s|)
  {
    if s == [] then 0 else s[0] + 256 * LittleEndianValue(s[1..])
  }

  /** Two's-complement wrap of a signed or unsigned `w`-byte value into 0 .. 256^w - 1. */
  function Wrap(v: int, w: nat): (u: nat)
    requires -Half(w) <= v < Pow256(w)
    ensures u < Pow256(w)
    ensures v >= 0 ==> u == v
    ensures v < 0 ==> u == v + Pow256(w)
  {
    if v < 0 then v + Pow256(w) else v
  }

  /**
   * `byte_order.bytes(v)` for a value of a `w`-byte integer type, signed or
   * unsigned: exactly `w` bytes in the chosen order.
   */
  function Encode(o: ByteOrder, w: nat, v: int): (s: seq<byte>)
    requires -Half(w) <= v < Pow256(w)
    ensures |s| == w
  {
    match o
    case BigEndian => BigEndianDigits(Wrap(v, w), w)
    case LittleEndian => LittleEndianDigits(Wrap(v, w), w)
  }

  /** The unsigned number the bytes `s` stand for in byte order `o`. */
  function DecodeUnsigned(o: ByteOrder, s: seq<byte>): (u: nat)
    ensures u < Pow256(|s|)
  {
    match o
    case BigEndian => BigEndianValue(s)
    case LittleEndian => LittleEndianValue(s)
  }

  /** The two's-complement signed number the bytes `s` stand for in byte order `o`. */
  function DecodeSigned(o: ByteOrder, s: seq<byte>): (v: int)
    ensures s != [] ==> -Half(|s|) <= v < Half(|s|)
  {
    var u := DecodeUnsigned(o, s);
    if u < Half(|s|) then u else u - Pow256(|s|)
  }

  lemma {:induction false} BigEndianRoundTrip(u: nat, w: nat)
    requires u < Pow256(w)
    ensures BigEndianValue(BigEndianDigits(u, w)) == u
  {
    if w > 0 {
      var s := BigEndianDigits(u, w);
      assert s[..|s| - 1] == BigEndianDigits(u / 256, w - 1);
      BigEndianRoundTrip(u / 256, w - 1);
    }
  }

  lemma {:induction false} LittleEndianRoundTrip(u: nat, w: nat)
    requires u < Pow256(w)
    ensures LittleEndianValue(LittleEndianDigits(u, w)) == u
  {
    if w > 0 {
      var s := LittleEndianDigits(u, w);
      assert s[1..] == LittleEndianDigits(u / 256, w - 1);
      LittleEndianRoundTrip(u / 256, w - 1);
    }
  }

  lemma {:induction false} BigEndianDigitsOfValue(s: seq<byte>)
    ensures BigEndianDigits(BigEndianValue(s), |s|) == s
  {
    if s != [] {
      var init := s[..|s| - 1];
      BigEndianDigitsOfValue(init);
      var u := BigEndianValue(s);
      assert u / 256 == BigEndianValue(init) && u % 256 == s[|s| - 1];
      assert s == init + [s[|s| - 1]];
    }
  }

  lemma {:induction false} LittleEndianDigitsOfValue(s: seq<byte>)
    ensures LittleEndianDigits(LittleEndianValue(s), |s|) == s
  {
    if s != [] {
      LittleEndianDigitsOfValue(s[1..]);
      var u := LittleEndianValue(s);
      assert u / 256 == LittleEndianValue(s[1..]) && u % 256 == s[0];
      assert s == [s[0]] + s[1..];
    }
  }

  /** Reading back an unsigned value gives the value that was written. */
  lemma UnsignedRoundTrip(o: ByteOrder, w: nat, u: int)
    requires 0 <= u < Pow256(w)
    ensures DecodeUnsigned(o, Encode(o, w, u)) == u
  {
    match o
    case BigEndian => BigEndianRoundTrip(u, w);
    case LittleEndian => LittleEndianRoundTrip(u, w);
  }

  /** Reading back a signed value gives the value that was written. */
  lemma SignedRoundTrip(o: ByteOrder, w: nat, v: int)
    requires w > 0 && -Half(w) <= v < Half(w)
    ensures DecodeSigned(o, Encode(o, w, v)) == v
  {
    UnsignedRoundTrip(o, w, Wrap(v, w));
  }

  /** Every byte string is the encoding of the unsigned number it stands for. */
  lemma EncodeDecoded(o: ByteOrder, s: seq<byte>)
    ensures Encode(o, |s|, DecodeUnsigned(o, s)) == s
  {
    match o
    case BigEndian => BigEndianDigitsOfValue(s);
    case LittleEndian => LittleEndianDigitsOfValue(s);
  }

  /** The two byte orders write the same digits in opposite orders. */
  lemma {:induction false} LittleIsReversedBig(u: nat, w: nat)
    requires u < Pow256(w)
    ensures forall k :: 0 <= k < w ==> LittleEndianDigits(u, w)[k] == BigEndianDigits(u, w)[w - 1 - k]
  {
    if w > 0 {
      LittleIsReversedBig(u / 256, w - 1);
    }
  }

  /** A one-byte value is written as the same single byte in both orders. */
  lemma SingleByte(o: ByteOrder, v: int)
    requires 0 <= v < 0x100
    ensures Encode(o, 1, v) == [v]
  {
  }
}
