/**
 * The byte layout the encoder produces (src/tag.rs:48-185), as functions:
 * the specification the imperative encoder in module Encoder is proved
 * against, and the object of the layout lemmas below.
 */
module Layout {
  import opened Wrappers
  import opened Bytes
  import opened Errors
  import opened Tags
  import opened Seqs

  /** `bytes_id`: the type-id as one byte, the same in both byte orders. */
  function BytesId(t: Tag, o: ByteOrder): (s: seq<byte>)
    ensures s == [Id(t)]
  {
    SingleByte(o, Id(t));
    Encode(o, 1, Id(t))
  }

  /** A 16-bit length in byte order `o` followed by the bytes of `s`. */
  function LengthPrefixed(o: ByteOrder, s: seq<byte>): (r: seq<byte>)
    requires |s| <= U16_MAX
    ensures |r| == 2 + |s| && r[2..] == s
    ensures DecodeUnsigned(o, r[..2]) == |s|
  {
    UnsignedRoundTrip(o, 2, |s|);
    assert (Encode(o, 2, |s|) + s)[..2] == Encode(o, 2, |s|);
    Encode(o, 2, |s|) + s
  }

  /**
   * `bytes_name`: fails with MissingName when the tag has no name and with
   * StringTooBig when the name needs more than a 16-bit length; otherwise
   * the length-prefixed name.
   */
  function BytesName(t: Tag, o: ByteOrder): (r: Result<seq<byte>, Error>)
    ensures t.name.None? ==> r == Err(MissingName)
    ensures t.name.Some? && |t.name.value| > U16_MAX ==> r == Err(StringTooBig)
    ensures r.Ok? <==> t.name.Some? && |t.name.value| <= U16_MAX
    ensures r.Ok? ==> |r.value| == 2 + |t.name.value| && r.value[2..] == t.name.value
    ensures r.Ok? ==> DecodeUnsigned(o, r.value[..2]) == |t.name.value|
  {
    match t.name
    case None => Err(MissingName)
    case Some(n) => if |n| > U16_MAX then Err(StringTooBig) else Ok(LengthPrefixed(o, n))
  }

  /** The elements of an array, each written at width `w`, one after the other. */
  function Elements(o: ByteOrder, w: nat, xs: seq<int>): (s: seq<byte>)
    requires forall k :: 0 <= k < |xs| ==> -Half(w) <= xs[k] < Half(w)
  {
    if xs == [] then [] else Encode(o, w, xs[0]) + Elements(o, w, xs[1..])
  }

  /** One more element in front adds its encoding in front. */
  lemma ElementsCons(o: ByteOrder, w: nat, x: int, xs: seq<int>)
    requires -Half(w) <= x < Half(w)
    requires forall k :: 0 <= k < |xs| ==> -Half(w) <= xs[k] < Half(w)
    ensures forall k :: 0 <= k < |[x] + xs| ==> -Half(w) <= ([x] + xs)[k] < Half(w)
    ensures Elements(o, w, [x] + xs) == Encode(o, w, x) + Elements(o, w, xs)
  {
    assert ([x] + xs)[1..] == xs;
  }

  /** The element area is `|xs| * w` bytes long. */
  lemma {:induction false} ElementsLength(o: ByteOrder, w: nat, xs: seq<int>)
    requires forall k :: 0 <= k < |xs| ==> -Half(w) <= xs[k] < Half(w)
    ensures |Elements(o, w, xs)| == Span(|xs|, w)
    decreases xs
  {
    if xs != [] {
      ElementsLength(o, w, xs[1..]);
    }
  }

  /** A 32-bit count followed by the elements, or the array's own error when the count does not fit. */
  function ArrayPayload(o: ByteOrder, w: nat, xs: seq<int>, tooBig: Error): (r: Result<seq<byte>, Error>)
    requires forall k :: 0 <= k < |xs| ==> -Half(w) <= xs[k] < Half(w)
    ensures r.Err? <==> |xs| > I32_MAX
    ensures r.Err? ==> r.error == tooBig
    ensures r.Ok? ==> |r.value| == 4 + Span(|xs|, w) && DecodeSigned(o, r.value[..4]) == |xs|
  {
    if |xs| > I32_MAX then Err(tooBig)
    else
      Pow256Values();
      SignedRoundTrip(o, 4, |xs|);
      assert (Encode(o, 4, |xs|) + Elements(o, w, xs))[..4] == Encode(o, 4, |xs|);
      ElementsLength(o, w, xs);
      Ok(Encode(o, 4, |xs|) + Elements(o, w, xs))
  }

  /** `bytes_payload`: the per-variant payload layout. */
  function Payload(t: Tag, o: ByteOrder): (r: Result<seq<byte>, Error>)
    decreases t, 0
  {
    Pow256Values();
    match t
    case Byte(_, v) => Ok(Encode(o, 1, v))
    case Short(_, v) => Ok(Encode(o, 2, v))
    case Int(_, v) => Ok(Encode(o, 4, v))
    case Long(_, v) => Ok(Encode(o, 8, v))
    case Float(_, bits) => Ok(Encode(o, 4, bits))
    case Double(_, bits) => Ok(Encode(o, 8, bits))
    case ByteArray(_, xs) => ArrayPayload(o, 1, xs, ByteArrayTooBig)
    case String(_, s) => if |s| > U16_MAX then Err(StringTooBig) else Ok(LengthPrefixed(o, s))
    case List(_, es) =>
      var header := if es == [] then [] else BytesId(es[0], o);
      if |es| > I32_MAX then Err(ListTooBig)
      else
        var body :- ElementPayloads(es, o);
        Ok(header + Encode(o, 4, |es|) + body)
    case Compound(_, cs) =>
      var body :- Children(cs, o);
      Ok(body + Encode(o, 1, 0))
    case IntArray(_, xs) => ArrayPayload(o, 4, xs, IntArrayTooBig)
    case LongArray(_, xs) => ArrayPayload(o, 8, xs, LongArrayTooBig)
  }

  /** The payloads of list elements, one after the other, with no ids and no names. */
  function ElementPayloads(es: seq<Tag>, o: ByteOrder): (r: Result<seq<byte>, Error>)
    decreases es
  {
    if es == [] then Ok([])
    else
      var head :- Payload(es[0], o);
      var tail :- ElementPayloads(es[1..], o);
      Ok(head + tail)
  }

  /** The children of a compound, each as a complete tag, one after the other. */
  function Children(cs: seq<Tag>, o: ByteOrder): (r: Result<seq<byte>, Error>)
    decreases cs
  {
    if cs == [] then Ok([])
    else
      var head :- ToBytes(cs[0], o);
      var tail :- Children(cs[1..], o);
      Ok(head + tail)
  }

  /** `to_bytes`: type-id, then name, then payload; the first error met, if any. */
  function ToBytes(t: Tag, o: ByteOrder): (r: Result<seq<byte>, Error>)
    decreases t, 1
  {
    var name :- BytesName(t, o);
    var payload :- Payload(t, o);
    Ok(BytesId(t, o) + name + payload)
  }

  /** Variants with a fixed-width payload, and that width: 1, 2, 4, 8, 4, 8 bytes. */
  function ScalarWidth(t: Tag): (w: nat)
    requires t.Byte? || t.Short? || t.Int? || t.Long? || t.Float? || t.Double?
    ensures t.Byte? ==> w == 1
    ensures t.Short? ==> w == 2
    ensures (t.Int? || t.Float?) ==> w == 4
    ensures (t.Long? || t.Double?) ==> w == 8
  {
    match t
    case Byte(_, _) => 1
    case Short(_, _) => 2
    case Int(_, _) => 4
    case Float(_, _) => 4
    case Long(_, _) => 8
    case Double(_, _) => 8
  }

  /** A complete tag is its id byte, its length-prefixed name and its payload, so it starts with the id. */
  lemma ToBytesLayout(t: Tag, o: ByteOrder)
    ensures ToBytes(t, o).Ok? <==> BytesName(t, o).Ok? && Payload(t, o).Ok?
    ensures ToBytes(t, o).Ok? ==>
      ToBytes(t, o).value == [Id(t)] + BytesName(t, o).value + Payload(t, o).value
    ensures ToBytes(t, o).Ok? ==> ToBytes(t, o).value[0] == Id(t)
    ensures BytesName(t, o).Err? ==> ToBytes(t, o) == Err(BytesName(t, o).error)
  {
  }

  /** Fixed-width payloads always encode, at exactly their width, and read back as the value. */
  lemma ScalarPayload(t: Tag, o: ByteOrder)
    requires t.Byte? || t.Short? || t.Int? || t.Long? || t.Float? || t.Double?
    ensures Payload(t, o).Ok? && |Payload(t, o).value| == ScalarWidth(t)
    ensures t.Byte? ==> DecodeSigned(o, Payload(t, o).value) == t.byteValue
    ensures t.Short? ==> DecodeSigned(o, Payload(t, o).value) == t.shortValue
    ensures t.Int? ==> DecodeSigned(o, Payload(t, o).value) == t.intValue
    ensures t.Long? ==> DecodeSigned(o, Payload(t, o).value) == t.longValue
    ensures t.Float? ==> DecodeUnsigned(o, Payload(t, o).value) == t.floatBits
    ensures t.Double? ==> DecodeUnsigned(o, Payload(t, o).value) == t.doubleBits
  {
    Pow256Values();
    match t
    case Byte(_, v) => SignedRoundTrip(o, 1, v);
    case Short(_, v) => SignedRoundTrip(o, 2, v);
    case Int(_, v) => SignedRoundTrip(o, 4, v);
    case Long(_, v) => SignedRoundTrip(o, 8, v);
    case Float(_, v) => UnsignedRoundTrip(o, 4, v);
    case Double(_, v) => UnsignedRoundTrip(o, 8, v);
  }

  /** Element `k` of an array occupies bytes k*w .. (k+1)*w of the element area. */
  lemma {:induction false} ElementAt(o: ByteOrder, w: nat, xs: seq<int>, k: nat)
    requires forall j :: 0 <= j < |xs| ==> -Half(w) <= xs[j] < Half(w)
    requires k < |xs|
    ensures Span(k + 1, w) <= |Elements(o, w, xs)|
    ensures Elements(o, w, xs)[Span(k, w)..Span(k + 1, w)] == Encode(o, w, xs[k])
  {
    var s, head, tail := Elements(o, w, xs), Encode(o, w, xs[0]), Elements(o, w, xs[1..]);
    assert s == head + tail;
    if k == 0 {
      assert Span(1, w) == w;
      assert s[0..w] == head;
    } else {
      ElementAt(o, w, xs[1..], k - 1);
      assert xs[1..][k - 1] == xs[k];
      var a, b := Span(k - 1, w), Span(k, w);
      assert b == w + a && Span(k + 1, w) == w + b;
      assert tail[a..b] == Encode(o, w, xs[k]);
      SliceOfAppend(head, tail, s, Span(k, w), Span(k + 1, w), a, b);
    }
  }

  /** The elements of an array tag, as numbers. */
  function ArrayValues(t: Tag): (xs: seq<int>)
    requires t.ByteArray? || t.IntArray? || t.LongArray?
  {
    match t
    case ByteArray(_, xs) => xs
    case IntArray(_, xs) => xs
    case LongArray(_, xs) => xs
  }

  /** The width of one element of an array tag: 1, 4 or 8 bytes. */
  function ArrayWidth(t: Tag): (w: nat)
    requires t.ByteArray? || t.IntArray? || t.LongArray?
  {
    if t.ByteArray? then 1 else if t.IntArray? then 4 else 8
  }

  /**
   * The arrays: a 4-byte count equal to the number of elements, then each
   * element at width 1, 4 or 8, so 4 + n * w bytes in all; a count beyond the
   * 32-bit signed range is the array's own error.
   */
  lemma ArrayLayout(t: Tag, o: ByteOrder, k: nat)
    requires t.ByteArray? || t.IntArray? || t.LongArray?
    ensures Payload(t, o).Err? <==> |ArrayValues(t)| > I32_MAX
    ensures t.ByteArray? && Payload(t, o).Err? ==> Payload(t, o).error == ByteArrayTooBig
    ensures t.IntArray? && Payload(t, o).Err? ==> Payload(t, o).error == IntArrayTooBig
    ensures t.LongArray? && Payload(t, o).Err? ==> Payload(t, o).error == LongArrayTooBig
    ensures Payload(t, o).Ok? ==>
      && |Payload(t, o).value| == 4 + Span(|ArrayValues(t)|, ArrayWidth(t))
      && DecodeSigned(o, Payload(t, o).value[..4]) == |ArrayValues(t)|
    ensures Payload(t, o).Ok? && k < |ArrayValues(t)| ==>
      var w := ArrayWidth(t);
      && 4 + Span(k + 1, w) <= |Payload(t, o).value|
      && DecodeSigned(o, Payload(t, o).value[4 + Span(k, w)..4 + Span(k + 1, w)]) == ArrayValues(t)[k]
  {
    var xs, w := ArrayValues(t), ArrayWidth(t);
    ArrayPayloadOf(t, o);
    var p := ArrayPayload(o, w, xs, ArrayTooBig(t));
    assert Payload(t, o) == p;
    if p.Ok? && k < |xs| {
      ArrayElementAt(o, w, xs, ArrayTooBig(t), k);
    }
  }

  /** The error an over-long array tag reports. */
  function ArrayTooBig(t: Tag): Error
    requires t.ByteArray? || t.IntArray? || t.LongArray?
  {
    if t.ByteArray? then ByteArrayTooBig else if t.IntArray? then IntArrayTooBig else LongArrayTooBig
  }

  lemma ArrayPayloadOf(t: Tag, o: ByteOrder)
    requires t.ByteArray? || t.IntArray? || t.LongArray?
    ensures ArrayWidth(t) > 0
    ensures forall j :: 0 <= j < |ArrayValues(t)| ==> -Half(ArrayWidth(t)) <= ArrayValues(t)[j] < Half(ArrayWidth(t))
    ensures Payload(t, o) == ArrayPayload(o, ArrayWidth(t), ArrayValues(t), ArrayTooBig(t))
  {
    Pow256Values();
  }

  /** Element `k` of an encoded array reads back as `xs[k]`, right after the count. */
  lemma ArrayElementAt(o: ByteOrder, w: nat, xs: seq<int>, tooBig: Error, k: nat)
    requires w > 0 && forall j :: 0 <= j < |xs| ==> -Half(w) <= xs[j] < Half(w)
    requires ArrayPayload(o, w, xs, tooBig).Ok? && k < |xs|
    ensures 4 + Span(k + 1, w) <= |ArrayPayload(o, w, xs, tooBig).value|
    ensures DecodeSigned(o, ArrayPayload(o, w, xs, tooBig).value[4 + Span(k, w)..4 + Span(k + 1, w)]) == xs[k]
  {
    var p := ArrayPayload(o, w, xs, tooBig).value;
    var count := Encode(o, 4, |xs|);
    assert p == count + Elements(o, w, xs);
    ElementAt(o, w, xs, k);
    assert p[4 + Span(k, w)..4 + Span(k + 1, w)] == Elements(o, w, xs)[Span(k, w)..Span(k + 1, w)];
    SignedRoundTrip(o, w, xs[k]);
  }

  /** A string payload is a 16-bit byte length followed by exactly those bytes. */
  lemma StringLayout(t: Tag, o: ByteOrder)
    requires t.String?
    ensures Payload(t, o).Err? <==> |t.text| > U16_MAX
    ensures Payload(t, o).Err? ==> Payload(t, o).error == StringTooBig
    ensures Payload(t, o).Ok? ==>
      && |Payload(t, o).value| == 2 + |t.text|
      && DecodeUnsigned(o, Payload(t, o).value[..2]) == |t.text|
      && Payload(t, o).value[2..] == t.text
  {
  }

  /**
   * A non-empty list starts with the id of its first element and a 4-byte
   * count; an empty list is the 4-byte count 0 alone, without an id; the
   * elements follow as bare payloads.
   */
  lemma ListLayout(t: Tag, o: ByteOrder)
    requires t.List?
    ensures |t.elements| > I32_MAX ==> Payload(t, o) == Err(ListTooBig)
    ensures |t.elements| <= I32_MAX ==> (Payload(t, o).Ok? <==> ElementPayloads(t.elements, o).Ok?)
    ensures t.elements == [] ==> Payload(t, o) == Ok([0, 0, 0, 0])
    ensures t.elements != [] && Payload(t, o).Ok? ==>
      var p := Payload(t, o).value;
      && |p| >= 5
      && p[0] == Id(t.elements[0])
      && DecodeSigned(o, p[1..5]) == |t.elements|
      && p[5..] == ElementPayloads(t.elements, o).value
  {
    Pow256Values();
    var es := t.elements;
    if |es| <= I32_MAX {
      SignedRoundTrip(o, 4, |es|);
      var count := Encode(o, 4, |es|);
      if es == [] {
        assert ElementPayloads(es, o) == Ok([]);
        assert Payload(t, o) == Ok([] + count + []);
        assert Wrap(0, 4) == 0;
        match o
        case BigEndian => assert [] + count + [] == [0, 0, 0, 0];
        case LittleEndian => assert [] + count + [] == [0, 0, 0, 0];
      } else if Payload(t, o).Ok? {
        var p := Payload(t, o).value;
        assert p == [Id(es[0])] + count + ElementPayloads(es, o).value;
        assert p[1..5] == count;
      }
    }
  }

  /** A tag's payload does not depend on its name. */
  lemma PayloadIgnoresName(t: Tag, n: Name, o: ByteOrder)
    ensures Payload(t.(name := n), o) == Payload(t, o)
  {
  }

  /** Element names are never written: renaming the elements of a list leaves its payload unchanged. */
  lemma {:induction false} ElementNamesIgnored(es: seq<Tag>, renamed: seq<Tag>, o: ByteOrder)
    requires |renamed| == |es|
    requires forall k :: 0 <= k < |es| ==> renamed[k] == es[k].(name := renamed[k].name)
    ensures ElementPayloads(renamed, o) == ElementPayloads(es, o)
  {
    if es != [] {
      PayloadIgnoresName(es[0], renamed[0].name, o);
      ElementNamesIgnored(es[1..], renamed[1..], o);
    }
  }

  /** A compound is its children, each as a complete tag, followed by exactly one 0 byte. */
  lemma CompoundLayout(t: Tag, o: ByteOrder)
    requires t.Compound?
    ensures Payload(t, o).Ok? <==> Children(t.children, o).Ok?
    ensures Payload(t, o).Ok? ==>
      && Payload(t, o).value == Children(t.children, o).value + [0]
      && Payload(t, o).value[|Payload(t, o).value| - 1] == 0
  {
  }

  /** Every child of a compound is written with its name, so one unnamed child makes the whole compound fail. */
  lemma {:induction false} UnnamedChildFails(cs: seq<Tag>, k: nat, o: ByteOrder)
    requires k < |cs| && cs[k].name.None?
    ensures Children(cs, o).Err?
  {
    if k == 0 {
      assert ToBytes(cs[0], o) == Err(MissingName);
    } else if ToBytes(cs[0], o).Ok? {
      UnnamedChildFails(cs[1..], k - 1, o);
    }
  }
}
